/** Strings used by the extractor: whitespace stripping of glyph texts,
    decimal rendering of indices and the output file names. */
module Text {

  /** The characters Python's str.isspace() accepts, i.e. those str.strip()
      with no argument removes from both ends. */
  predicate IsSpace(c: char) {
    ('\t' <= c <= '\r') || ('\U{1C}' <= c <= '\U{1F}') || c == ' '
    || c == '\U{85}' || c == '\U{A0}' || c == '\U{1680}'
    || ('\U{2000}' <= c <= '\U{200A}') || c == '\U{2028}' || c == '\U{2029}'
    || c == '\U{202F}' || c == '\U{205F}' || c == '\U{3000}'
  }

  predicate AllSpace(s: string) {
    forall i :: 0 <= i < |s| ==> IsSpace(s[i])
  }

  function StripLeft(s: string): string {
    if |s| > 0 && IsSpace(s[0]) then StripLeft(s[1..]) else s
  }

  function StripRight(s: string): string {
    if |s| > 0 && IsSpace(s[|s| - 1]) then StripRight(s[..|s| - 1]) else s
  }

  /** Python's s.strip(). */
  function Strip(s: string): string {
    StripRight(StripLeft(s))
  }

  lemma {:induction false} StripLeftEmptyIff(s: string)
    ensures StripLeft(s) == "" <==> AllSpace(s)
    ensures StripLeft(s) != "" ==> !IsSpace(StripLeft(s)[0])
    decreases |s|
  {
    if |s| > 0 && IsSpace(s[0]) {
      StripLeftEmptyIff(s[1..]);
      assert AllSpace(s) <==> AllSpace(s[1..]) by {
        if AllSpace(s[1..]) {
          forall i | 0 <= i < |s| ensures IsSpace(s[i]) {
            if i > 0 { assert s[i] == s[1..][i - 1]; }
          }
        }
      }
    }
  }

  lemma {:induction false} StripRightEmptyIff(s: string)
    ensures StripRight(s) == "" <==> AllSpace(s)
    decreases |s|
  {
    if |s| > 0 && IsSpace(s[|s| - 1]) {
      StripRightEmptyIff(s[..|s| - 1]);
      assert AllSpace(s) <==> AllSpace(s[..|s| - 1]) by {
        if AllSpace(s[..|s| - 1]) {
          forall i | 0 <= i < |s| ensures IsSpace(s[i]) {
            if i < |s| - 1 { assert s[i] == s[..|s| - 1][i]; }
          }
        }
      }
    }
  }

  /** A glyph text strips to the empty string exactly when every character
      of it is whitespace: the filter `text.strip() != ""` keeps the glyphs
      that have at least one visible character. */
  lemma StripEmptyIff(s: string)
    ensures Strip(s) == "" <==> AllSpace(s)
  {
    StripLeftEmptyIff(s);
    var t := StripLeft(s);
    StripRightEmptyIff(t);
    if t != "" {
      assert !AllSpace(t) by { assert !IsSpace(t[0]); }
    }
  }

  /** The decimal digit character for d, as Python's str() of an int writes it. */
  function DigitChar(d: nat): (c: char)
    requires d < 10
    ensures '0' <= c <= '9'
  {
    (d + '0' as int) as char
  }

  predicate IsDigits(s: string) {
    forall i :: 0 <= i < |s| ==> '0' <= s[i] <= '9'
  }

  /** str(n) for a non-negative n: decimal, no sign, no leading zeros. */
  function NatToString(n: nat): (s: string)
    ensures |s| > 0 && IsDigits(s)
    ensures |s| > 1 ==> s[0] != '0'
    decreases n
  {
    if n < 10 then [DigitChar(n)] else NatToString(n / 10) + [DigitChar(n % 10)]
  }

  /** The value of a string of decimal digits. */
  function DigitsValue(s: string): nat
    requires IsDigits(s)
    decreases |s|
  {
    if s == [] then 0
    else DigitsValue(s[..|s| - 1]) * 10 + (s[|s| - 1] as int - '0' as int)
  }

  /** Reading back the decimal rendering gives the number: NatToString is injective. */
  lemma {:induction false} DigitsRoundTrip(n: nat)
    ensures DigitsValue(NatToString(n)) == n
    decreases n
  {
    if n >= 10 {
      DigitsRoundTrip(n / 10);
      var s := NatToString(n);
      assert s[..|s| - 1] == NatToString(n / 10);
    }
  }

  /** Output base name of one line crop: `{stem}_page{page}_line{line}`. */
  function LineName(stem: string, page: nat, line: nat): string {
    stem + "_page" + NatToString(page) + "_line" + NatToString(line)
  }

  /** Two strings without '_' followed by '_' can only be the same split. */
  lemma SplitAtUnderscore(a: string, b: string, c: string, d: string)
    requires IsDigits(a) && IsDigits(c)
    requires a + "_" + b == c + "_" + d
    ensures a == c && b == d
  {
    var x := a + "_" + b;
    var y := c + "_" + d;
    var k := if |a| < |c| then |a| else |c|;
    assert x[k] == y[k];
    assert |a| == |c|;
    assert a == x[..|a|] && c == y[..|c|];
    assert b == x[|a| + 1..] && d == y[|c| + 1..];
  }

  /** Within one document (fixed stem), the page index and the line index
      can be read back from an output name: distinct (page, line) pairs
      never write to the same file. */
  lemma LineNameInjective(stem: string, p: nat, l: nat, p': nat, l': nat)
    requires LineName(stem, p, l) == LineName(stem, p', l')
    ensures p == p' && l == l'
  {
    var head := stem + "_page";
    var a, b := NatToString(p), NatToString(l);
    var c, d := NatToString(p'), NatToString(l');
    assert LineName(stem, p, l) == head + (a + "_" + ("line" + b));
    assert LineName(stem, p', l') == head + (c + "_" + ("line" + d));
    var x := a + "_" + ("line" + b);
    var y := c + "_" + ("line" + d);
    assert x == (head + x)[|head|..] && y == (head + y)[|head|..];
    SplitAtUnderscore(a, "line" + b, c, "line" + d);
    assert b == ("line" + b)[4..] && d == ("line" + d)[4..];
    DigitsRoundTrip(p);
    DigitsRoundTrip(p');
    DigitsRoundTrip(l);
    DigitsRoundTrip(l');
  }
}
