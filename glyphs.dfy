/** The glyph list of one page: a walk over the page's layout elements
    that keeps the characters inside horizontal text boxes whose text is
    not blank, padding each of them into a pixel box. */
module Glyphs {
  import opened Text
  import opened Geometry

  /** A child of a text line. A glyph carries its box already mapped to
      pixel coordinates (x0m, y0m, x1m, y1m) and its text. */
  datatype Item =
    | Glyph(x0m: int, y0m: int, x1m: int, y1m: int, text: string)
    | OtherItem

  datatype TextLine = TextLine(items: seq<Item>)

  /** A top-level element of a page's layout. */
  datatype Element =
    | TextBoxHorizontal(lines: seq<TextLine>)
    | OtherElement

  /** The guard on an item: a glyph whose stripped text is not empty. */
  predicate Emits(it: Item) {
    it.Glyph? && Strip(it.text) != ""
  }

  /** The entry appended for an emitted glyph; the text is kept unstripped. */
  function BoxOf(it: Item, w: nat, h: nat): CharBox
    requires it.Glyph?
  {
    CharBox(PadBox(it.x0m, it.y0m, it.x1m, it.y1m, w, h), it.text)
  }

  // The three levels of the walk, each defined on a prefix so that they
  // follow the loops of ExtractTextBoxes.

  function ItemBoxes(items: seq<Item>, w: nat, h: nat): seq<CharBox>
    decreases |items|
  {
    if items == [] then []
    else
      var last := items[|items| - 1];
      ItemBoxes(items[..|items| - 1], w, h) + (if Emits(last) then [BoxOf(last, w, h)] else [])
  }

  function LineBoxes(lines: seq<TextLine>, w: nat, h: nat): seq<CharBox>
    decreases |lines|
  {
    if lines == [] then []
    else LineBoxes(lines[..|lines| - 1], w, h) + ItemBoxes(lines[|lines| - 1].items, w, h)
  }

  function ElementBoxes(e: Element, w: nat, h: nat): seq<CharBox> {
    match e
    case TextBoxHorizontal(lines) => LineBoxes(lines, w, h)
    case OtherElement => []
  }

  /** The page's `text_boxes` list. */
  function GlyphBoxes(page: seq<Element>, w: nat, h: nat): seq<CharBox>
    decreases |page|
  {
    if page == [] then []
    else GlyphBoxes(page[..|page| - 1], w, h) + ElementBoxes(page[|page| - 1], w, h)
  }

  /** The innermost loop: the glyphs of one text line. */
  method ExtractLine(items: seq<Item>, w: nat, h: nat) returns (boxes: seq<CharBox>)
    ensures boxes == ItemBoxes(items, w, h)
  {
    boxes := [];
    for k := 0 to |items|
      invariant boxes == ItemBoxes(items[..k], w, h)
    {
      assert items[..k + 1][..k] == items[..k];
      var it := items[k];
      if it.Glyph? {
        if Strip(it.text) != "" {
          var r := PadBox(it.x0m, it.y0m, it.x1m, it.y1m, w, h);
          boxes := boxes + [CharBox(r, it.text)];
        }
      }
    }
    assert items[..|items|] == items;
  }

  /** The middle loop: the glyphs of the lines of one horizontal text box. */
  method ExtractTextBox(lines: seq<TextLine>, w: nat, h: nat) returns (boxes: seq<CharBox>)
    ensures boxes == LineBoxes(lines, w, h)
  {
    boxes := [];
    for j := 0 to |lines|
      invariant boxes == LineBoxes(lines[..j], w, h)
    {
      assert lines[..j + 1][..j] == lines[..j];
      var more := ExtractLine(lines[j].items, w, h);
      boxes := boxes + more;
    }
    assert lines[..|lines|] == lines;
  }

  /** Builds the page's glyph list: the outer loop over the page's elements. */
  method ExtractTextBoxes(page: seq<Element>, w: nat, h: nat) returns (boxes: seq<CharBox>)
    ensures boxes == GlyphBoxes(page, w, h)
  {
    boxes := [];
    for i := 0 to |page|
      invariant boxes == GlyphBoxes(page[..i], w, h)
    {
      assert page[..i + 1][..i] == page[..i];
      var element := page[i];
      if element.TextBoxHorizontal? {
        var more := ExtractTextBox(element.lines, w, h);
        boxes := boxes + more;
      }
    }
    assert page[..|page|] == page;
  }

  // ---------------------------------------------------------------------
  // An independent description: visit, then filter, then pad

  /** Every item of every line of every horizontal text box, in walk order. */
  function Visited(page: seq<Element>): seq<Item>
    decreases |page|
  {
    if page == [] then []
    else
      Visited(page[..|page| - 1]) + ElementItems(page[|page| - 1])
  }

  function ElementItems(e: Element): seq<Item> {
    match e
    case TextBoxHorizontal(lines) => LineItems(lines)
    case OtherElement => []
  }

  function LineItems(lines: seq<TextLine>): seq<Item>
    decreases |lines|
  {
    if lines == [] then [] else LineItems(lines[..|lines| - 1]) + lines[|lines| - 1].items
  }

  function FilterEmits(items: seq<Item>): (r: seq<Item>)
    ensures forall k :: 0 <= k < |r| ==> Emits(r[k])
    decreases |items|
  {
    if items == [] then []
    else
      var last := items[|items| - 1];
      FilterEmits(items[..|items| - 1]) + (if Emits(last) then [last] else [])
  }

  function PadAll(items: seq<Item>, w: nat, h: nat): (r: seq<CharBox>)
    requires forall k :: 0 <= k < |items| ==> items[k].Glyph?
    ensures |r| == |items|
    ensures forall k :: 0 <= k < |r| ==> r[k] == BoxOf(items[k], w, h)
  {
    seq(|items|, k requires 0 <= k < |items| => BoxOf(items[k], w, h))
  }

  lemma {:induction false} FilterAppend(a: seq<Item>, b: seq<Item>)
    ensures FilterEmits(a + b) == FilterEmits(a) + FilterEmits(b)
    decreases |b|
  {
    if b == [] {
      assert a + b == a;
    } else {
      var b' := b[..|b| - 1];
      var last := b[|b| - 1];
      assert (a + b)[..|a + b| - 1] == a + b';
      assert (a + b)[|a + b| - 1] == last;
      FilterAppend(a, b');
      var tail := if Emits(last) then [last] else [];
      calc {
        FilterEmits(a + b);
        FilterEmits(a + b') + tail;
        FilterEmits(a) + FilterEmits(b') + tail;
        FilterEmits(a) + FilterEmits(b);
      }
    }
  }

  lemma PadAllAppend(a: seq<Item>, b: seq<Item>, w: nat, h: nat)
    requires forall k :: 0 <= k < |a| ==> a[k].Glyph?
    requires forall k :: 0 <= k < |b| ==> b[k].Glyph?
    ensures forall k :: 0 <= k < |a + b| ==> (a + b)[k].Glyph?
    ensures PadAll(a + b, w, h) == PadAll(a, w, h) + PadAll(b, w, h)
  {
    assert forall k :: 0 <= k < |a + b| ==> (a + b)[k] == if k < |a| then a[k] else b[k - |a|];
  }

  lemma {:induction false} ItemBoxesIsPadded(items: seq<Item>, w: nat, h: nat)
    ensures ItemBoxes(items, w, h) == PadAll(FilterEmits(items), w, h)
    decreases |items|
  {
    if items != [] {
      ItemBoxesIsPadded(items[..|items| - 1], w, h);
    }
  }

  lemma {:induction false} LineBoxesIsPadded(lines: seq<TextLine>, w: nat, h: nat)
    ensures LineBoxes(lines, w, h) == PadAll(FilterEmits(LineItems(lines)), w, h)
    decreases |lines|
  {
    if lines != [] {
      var init := lines[..|lines| - 1];
      var last := lines[|lines| - 1].items;
      LineBoxesIsPadded(init, w, h);
      ItemBoxesIsPadded(last, w, h);
      FilterAppend(LineItems(init), last);
      PadAllAppend(FilterEmits(LineItems(init)), FilterEmits(last), w, h);
    }
  }

  /** The glyph list is exactly the walk's items, filtered by the guard and
      padded one by one: one entry per non-blank glyph inside a horizontal
      text box, in walk order, each with that glyph's own (unstripped) text. */
  lemma {:induction false} GlyphBoxesIsPadded(page: seq<Element>, w: nat, h: nat)
    ensures GlyphBoxes(page, w, h) == PadAll(FilterEmits(Visited(page)), w, h)
    decreases |page|
  {
    if page != [] {
      var init := page[..|page| - 1];
      GlyphBoxesIsPadded(init, w, h);
      var e := page[|page| - 1];
      assert Visited(page) == Visited(init) + ElementItems(e);
      assert GlyphBoxes(page, w, h) == GlyphBoxes(init, w, h) + ElementBoxes(e, w, h);
      FilterAppend(Visited(init), ElementItems(e));
      if e.TextBoxHorizontal? {
        LineBoxesIsPadded(e.lines, w, h);
      } else {
        assert FilterEmits(ElementItems(e)) == [];
      }
      PadAllAppend(FilterEmits(Visited(init)), FilterEmits(ElementItems(e)), w, h);
    }
  }

  /** Every entry of the glyph list has a visible character and a box inside
      the padded bounds: 0 <= x0, x1 <= W, -4 <= y0, y1 <= H + 4. */
  lemma GlyphBoxesBounds(page: seq<Element>, w: nat, h: nat)
    ensures forall b :: b in GlyphBoxes(page, w, h) ==>
      !AllSpace(b.text)
      && 0 <= b.rect.x0 && b.rect.x1 <= w && -4 <= b.rect.y0 && b.rect.y1 <= h + 4
  {
    GlyphBoxesIsPadded(page, w, h);
    var f := FilterEmits(Visited(page));
    forall b | b in GlyphBoxes(page, w, h)
      ensures !AllSpace(b.text)
    {
      var k :| 0 <= k < |f| && b == BoxOf(f[k], w, h);
      StripEmptyIff(f[k].text);
    }
  }
}
