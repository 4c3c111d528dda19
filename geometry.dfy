/** Pixel-space geometry: glyph padding, horizontal centres, the enclosing
    rectangle of a line, the vertical sort of its members and the size of a
    numpy crop. All coordinates are integers; the image is W pixels wide
    and H pixels high, with the origin at the top-left corner. */
module Geometry {

  /** A box (x0, y0, x1, y1) in pixels. */
  datatype Rect = Rect(x0: int, y0: int, x1: int, y1: int)

  /** One entry of the page's glyph list: a padded box and the glyph's text. */
  datatype CharBox = CharBox(rect: Rect, text: string)

  /** The clustering tolerance in pixels. */
  const Tolerance: int := 20

  function Max(a: int, b: int): int { if a >= b then a else b }
  function Min(a: int, b: int): int { if a <= b then a else b }

  /** abs(a - b) < 20 */
  predicate Near(a: int, b: int) {
    -Tolerance < a - b < Tolerance
  }

  /** (x0 + x1) // 2. Python's // floors; Dafny's / on a positive divisor
      floors too, negative coordinates included. */
  function Center(r: Rect): (c: int)
    ensures 2 * c <= r.x0 + r.x1 <= 2 * c + 1
  {
    (r.x0 + r.x1) / 2
  }

  /** The padding and partial clamping of one glyph box, given the glyph's
      coordinates already mapped to pixels (x0m, y0m, x1m, y1m). Because the
      vertical axis is flipped, the mapped y1 is the visual top and becomes
      the new y0; the mapped y0 becomes the new y1. The left edge is clamped
      below at 0 and the right edge above at W; the vertical pair is padded
      but not clamped to the image. */
  function PadBox(x0m: int, y0m: int, x1m: int, y1m: int, w: nat, h: nat): (r: Rect)
    ensures r.x0 >= 0 && r.x1 <= w
    ensures r.y0 >= -4 && r.y1 <= h + 4
    ensures x0m - 5 <= r.x0 <= Max(0, x0m) && r.x1 <= x1m + 2
    ensures r.y0 + 4 >= y1m && r.y1 - 4 <= y0m
  {
    Rect(Max(0, x0m - 5), Max(0, y1m) - 4, Min(x1m + 2, w), Min(y0m, h) + 4)
  }

  /** For a glyph that lies inside the image horizontally, the padded box
      is well formed horizontally and contains the glyph: the left edge
      moves left by at most 5 pixels and the right edge right by at most 2. */
  lemma PadHorizontal(x0m: int, y0m: int, x1m: int, y1m: int, w: nat, h: nat)
    requires 0 <= x0m <= x1m <= w
    ensures var r := PadBox(x0m, y0m, x1m, y1m, w, h);
      0 <= r.x0 <= r.x1 <= w
      && x0m - 5 <= r.x0 <= x0m && x1m <= r.x1 <= x1m + 2
  {
  }

  /** For a glyph whose mapped top y1m and bottom y0m lie inside the image,
      the vertical pair is swapped and padded by exactly 4 pixels on each
      side, so the padded box is 8 pixels taller than the glyph. */
  lemma PadVertical(x0m: int, y0m: int, x1m: int, y1m: int, w: nat, h: nat)
    requires 0 <= y1m && y0m <= h
    ensures var r := PadBox(x0m, y0m, x1m, y1m, w, h);
      r.y0 == y1m - 4 && r.y1 == y0m + 4
      && r.y1 - r.y0 == (y0m - y1m) + 8
  {
  }

  // ---------------------------------------------------------------------
  // Extremes of one coordinate over a line's boxes

  datatype Side = Left | Top | Right | Bottom

  function Coord(r: Rect, s: Side): int {
    match s
    case Left => r.x0
    case Top => r.y0
    case Right => r.x1
    case Bottom => r.y1
  }

  /** min(box[k] for box in boxes) */
  function Least(boxes: seq<Rect>, s: Side): int
    requires |boxes| > 0
    decreases |boxes|
  {
    if |boxes| == 1 then Coord(boxes[0], s) else Min(Coord(boxes[0], s), Least(boxes[1..], s))
  }

  /** max(box[k] for box in boxes) */
  function Greatest(boxes: seq<Rect>, s: Side): int
    requires |boxes| > 0
    decreases |boxes|
  {
    if |boxes| == 1 then Coord(boxes[0], s) else Max(Coord(boxes[0], s), Greatest(boxes[1..], s))
  }

  /** The minimum is the coordinate of some box and bounds them all below. */
  lemma {:induction false} LeastIsMinimum(boxes: seq<Rect>, s: Side)
    requires |boxes| > 0
    ensures exists i :: 0 <= i < |boxes| && Least(boxes, s) == Coord(boxes[i], s)
    ensures forall i :: 0 <= i < |boxes| ==> Least(boxes, s) <= Coord(boxes[i], s)
    decreases |boxes|
  {
    if |boxes| == 1 {
      assert Least(boxes, s) == Coord(boxes[0], s);
    } else {
      LeastIsMinimum(boxes[1..], s);
      assert forall i :: 1 <= i < |boxes| ==> boxes[i] == boxes[1..][i - 1];
      if Coord(boxes[0], s) > Least(boxes[1..], s) {
        var j :| 0 <= j < |boxes[1..]| && Least(boxes[1..], s) == Coord(boxes[1..][j], s);
        assert Least(boxes, s) == Coord(boxes[j + 1], s);
      } else {
        assert Least(boxes, s) == Coord(boxes[0], s);
      }
    }
  }

  /** The maximum is the coordinate of some box and bounds them all above. */
  lemma {:induction false} GreatestIsMaximum(boxes: seq<Rect>, s: Side)
    requires |boxes| > 0
    ensures exists i :: 0 <= i < |boxes| && Greatest(boxes, s) == Coord(boxes[i], s)
    ensures forall i :: 0 <= i < |boxes| ==> Coord(boxes[i], s) <= Greatest(boxes, s)
    decreases |boxes|
  {
    if |boxes| == 1 {
      assert Greatest(boxes, s) == Coord(boxes[0], s);
    } else {
      GreatestIsMaximum(boxes[1..], s);
      assert forall i :: 1 <= i < |boxes| ==> boxes[i] == boxes[1..][i - 1];
      if Coord(boxes[0], s) < Greatest(boxes[1..], s) {
        var j :| 0 <= j < |boxes[1..]| && Greatest(boxes[1..], s) == Coord(boxes[1..][j], s);
        assert Greatest(boxes, s) == Coord(boxes[j + 1], s);
      } else {
        assert Greatest(boxes, s) == Coord(boxes[0], s);
      }
    }
  }

  /** The rectangle of a line: the least left and top edges, the greatest
      right and bottom edges, clamped to the image. */
  function EnclosingRect(boxes: seq<Rect>, w: nat, h: nat): (r: Rect)
    requires |boxes| > 0
    ensures 0 <= r.x0 && 0 <= r.y0 && r.x1 <= w && r.y1 <= h
  {
    Rect(Max(0, Least(boxes, Left)), Max(0, Least(boxes, Top)),
         Min(w, Greatest(boxes, Right)), Min(h, Greatest(boxes, Bottom)))
  }

  /** Every box lies inside the rectangle as far as the image allows, and
      each edge of the rectangle is the clamped edge of some box: it is the
      smallest clamped rectangle holding all of them. */
  lemma EnclosingRectTight(boxes: seq<Rect>, w: nat, h: nat)
    requires |boxes| > 0
    ensures var r := EnclosingRect(boxes, w, h);
      forall i :: 0 <= i < |boxes| ==>
        r.x0 <= Max(0, boxes[i].x0) && r.y0 <= Max(0, boxes[i].y0)
        && Min(w, boxes[i].x1) <= r.x1 && Min(h, boxes[i].y1) <= r.y1
    ensures exists i :: 0 <= i < |boxes| && EnclosingRect(boxes, w, h).x0 == Max(0, boxes[i].x0)
    ensures exists i :: 0 <= i < |boxes| && EnclosingRect(boxes, w, h).y0 == Max(0, boxes[i].y0)
    ensures exists i :: 0 <= i < |boxes| && EnclosingRect(boxes, w, h).x1 == Min(w, boxes[i].x1)
    ensures exists i :: 0 <= i < |boxes| && EnclosingRect(boxes, w, h).y1 == Min(h, boxes[i].y1)
  {
    LeastIsMinimum(boxes, Left);
    LeastIsMinimum(boxes, Top);
    GreatestIsMaximum(boxes, Right);
    GreatestIsMaximum(boxes, Bottom);
  }

  /** Two lists holding the same boxes have the same extremes. */
  lemma ExtremesAgree(a: seq<Rect>, b: seq<Rect>, s: Side)
    requires |a| > 0 && |b| > 0
    requires forall i :: 0 <= i < |a| ==> a[i] in b
    requires forall j :: 0 <= j < |b| ==> b[j] in a
    ensures Least(a, s) == Least(b, s) && Greatest(a, s) == Greatest(b, s)
  {
    LeastIsMinimum(a, s);
    LeastIsMinimum(b, s);
    GreatestIsMaximum(a, s);
    GreatestIsMaximum(b, s);
    var i :| 0 <= i < |a| && Least(a, s) == Coord(a[i], s);
    var j :| 0 <= j < |b| && Least(b, s) == Coord(b[j], s);
    var j0 :| 0 <= j0 < |b| && b[j0] == a[i];
    var i0 :| 0 <= i0 < |a| && a[i0] == b[j];
    var k :| 0 <= k < |a| && Greatest(a, s) == Coord(a[k], s);
    var l :| 0 <= l < |b| && Greatest(b, s) == Coord(b[l], s);
    var l0 :| 0 <= l0 < |b| && b[l0] == a[k];
    var k0 :| 0 <= k0 < |a| && a[k0] == b[l];
  }

  /** The rectangle depends only on which boxes the line holds, not on their
      order: sorting the members before taking min/max changes nothing. */
  lemma EnclosingIgnoresOrder(a: seq<Rect>, b: seq<Rect>, w: nat, h: nat)
    requires |a| > 0 && multiset(a) == multiset(b)
    ensures |b| > 0 && EnclosingRect(a, w, h) == EnclosingRect(b, w, h)
  {
    forall i | 0 <= i < |a| ensures a[i] in b {
      assert a[i] in multiset(a);
    }
    forall j | 0 <= j < |b| ensures b[j] in a {
      assert b[j] in multiset(b);
    }
    ExtremesAgree(a, b, Left);
    ExtremesAgree(a, b, Top);
    ExtremesAgree(a, b, Right);
    ExtremesAgree(a, b, Bottom);
  }

  // ---------------------------------------------------------------------
  // sorted(line_boxes, key=lambda box: box[1])

  predicate SortedByTop(s: seq<Rect>) {
    forall i, j :: 0 <= i < j < |s| ==> s[i].y0 <= s[j].y0
  }

  /** Inserts r after every box whose top is not below r's top. */
  function InsertByTop(r: Rect, s: seq<Rect>): (t: seq<Rect>)
    requires SortedByTop(s)
    ensures SortedByTop(t) && multiset(t) == multiset(s) + multiset{r}
    ensures |t| == |s| + 1
    ensures forall k :: 0 <= k < |t| ==> t[k] == r || t[k] in s
    decreases |s|
  {
    if s == [] then [r]
    else if r.y0 < s[0].y0 then [r] + s
    else
      var rest := InsertByTop(r, s[1..]);
      InsertBehind(r, s, rest);
      [s[0]] + rest
  }

  /** The step of InsertByTop that keeps the head: inserting behind s[0]
      keeps the order, the contents and the length. */
  lemma InsertBehind(r: Rect, s: seq<Rect>, rest: seq<Rect>)
    requires |s| > 0 && SortedByTop(s) && s[0].y0 <= r.y0
    requires SortedByTop(rest) && multiset(rest) == multiset(s[1..]) + multiset{r}
    requires |rest| == |s| && forall k :: 0 <= k < |rest| ==> rest[k] == r || rest[k] in s[1..]
    ensures SortedByTop([s[0]] + rest) && multiset([s[0]] + rest) == multiset(s) + multiset{r}
    ensures forall k :: 0 <= k < |[s[0]] + rest| ==> ([s[0]] + rest)[k] == r || ([s[0]] + rest)[k] in s
  {
    assert s == [s[0]] + s[1..];
    forall k | 0 <= k < |rest| ensures s[0].y0 <= rest[k].y0 {
      if rest[k] != r {
        var j :| 0 <= j < |s[1..]| && s[1..][j] == rest[k];
        assert s[j + 1] == rest[k];
      }
    }
    var t := [s[0]] + rest;
    forall i, j | 0 <= i < j < |t| ensures t[i].y0 <= t[j].y0 {
      if i > 0 {
        assert t[i] == rest[i - 1] && t[j] == rest[j - 1];
      } else {
        assert t[j] == rest[j - 1];
      }
    }
    forall k | 0 <= k < |t| ensures t[k] == r || t[k] in s {
      if k > 0 {
        assert t[k] == rest[k - 1];
      }
    }
  }

  /** A stable sort of the boxes by ascending top edge. */
  function SortByTop(s: seq<Rect>): (t: seq<Rect>)
    ensures SortedByTop(t) && multiset(t) == multiset(s) && |t| == |s|
    decreases |s|
  {
    if s == [] then []
    else
      var init := s[..|s| - 1];
      assert s == init + [s[|s| - 1]];
      InsertByTop(s[|s| - 1], SortByTop(init))
  }

  // ---------------------------------------------------------------------
  // Size of image[lo:hi] along one axis of length n (Python slice rules)

  /** A slice bound: a negative one counts from the end, then it is clipped to [0, n]. */
  function SliceIndex(n: nat, i: int): (j: nat)
    ensures j <= n
    ensures 0 <= i <= n ==> j == i
  {
    if i < 0 then (if i + n < 0 then 0 else i + n)
    else if i > n then n
    else i
  }

  /** len(range(n)[start:stop]) */
  function SliceLen(n: nat, start: int, stop: int): (len: nat)
    ensures len <= n
    ensures 0 <= start <= stop <= n ==> len == stop - start
    ensures 0 <= stop <= start ==> len == 0
  {
    var a, b := SliceIndex(n, start), SliceIndex(n, stop);
    if b > a then b - a else 0
  }

  /** `line_image.size == 0` for `cv_image[r.y0:r.y1, r.x0:r.x1]` on an
      H x W x 3 image. */
  predicate EmptyCrop(r: Rect, w: nat, h: nat) {
    SliceLen(h, r.y0, r.y1) == 0 || SliceLen(w, r.x0, r.x1) == 0
  }

  /** For a rectangle whose bounds are non-negative and inside the image on
      the far side, the crop is empty exactly when it has no width or no
      height. (Outside these bounds Python's slice rules apply: a negative
      bound counts from the far edge, so the crop may be non-empty.) */
  lemma EmptyCropIff(r: Rect, w: nat, h: nat)
    requires 0 <= r.x0 && 0 <= r.y0 && 0 <= r.x1 <= w && 0 <= r.y1 <= h
    ensures EmptyCrop(r, w, h) <==> (r.y1 <= r.y0 || r.x1 <= r.x0)
  {
  }
}
