/** The label text of one line: a second scan over all of the page's glyph
    boxes, independent of the group's captured members. */
module Labels {
  import opened Geometry

  /** The test of the label scan: the box's centre is within tolerance of
      the group key and its top edge lies in [lo, hi]. */
  predicate InLabel(b: CharBox, key: int, lo: int, hi: int) {
    Near(Center(b.rect), key) && lo <= b.rect.y0 <= hi
  }

  /** The boxes that pass the test, in extraction order. */
  function Selected(boxes: seq<CharBox>, key: int, lo: int, hi: int): seq<CharBox>
    decreases |boxes|
  {
    if boxes == [] then []
    else
      var last := boxes[|boxes| - 1];
      Selected(boxes[..|boxes| - 1], key, lo, hi) + (if InLabel(last, key, lo, hi) then [last] else [])
  }

  /** The texts of the boxes, concatenated. */
  function Concat(boxes: seq<CharBox>): string
    decreases |boxes|
  {
    if boxes == [] then "" else Concat(boxes[..|boxes| - 1]) + boxes[|boxes| - 1].text
  }

  /** The label loop: `line_text += text` for every box that passes the test. */
  method LineText(boxes: seq<CharBox>, key: int, lo: int, hi: int) returns (text: string)
    ensures text == Concat(Selected(boxes, key, lo, hi))
  {
    text := "";
    for i := 0 to |boxes|
      invariant text == Concat(Selected(boxes[..i], key, lo, hi))
    {
      assert boxes[..i + 1][..i] == boxes[..i];
      var b := boxes[i];
      ghost var sel := Selected(boxes[..i], key, lo, hi);
      var boxCenter := Center(b.rect);
      if Near(boxCenter, key) && lo <= b.rect.y0 <= hi {
        assert Selected(boxes[..i + 1], key, lo, hi) == sel + [b];
        assert (sel + [b])[..|sel|] == sel;
        text := text + b.text;
      } else {
        assert Selected(boxes[..i + 1], key, lo, hi) == sel;
      }
    }
    assert boxes[..|boxes|] == boxes;
  }

  /** The positions of the boxes that pass the test: increasing, and holding
      exactly the positions whose box passes. */
  function Chosen(boxes: seq<CharBox>, key: int, lo: int, hi: int): (ix: seq<nat>)
    ensures forall i :: 0 <= i < |ix| ==> ix[i] < |boxes|
    ensures forall i, j :: 0 <= i < j < |ix| ==> ix[i] < ix[j]
    ensures forall k :: 0 <= k < |boxes| ==> (k in ix <==> InLabel(boxes[k], key, lo, hi))
    decreases |boxes|
  {
    if boxes == [] then []
    else
      var n := |boxes| - 1;
      var init := boxes[..n];
      assert forall k :: 0 <= k < n ==> init[k] == boxes[k];
      Chosen(init, key, lo, hi) + (if InLabel(boxes[n], key, lo, hi) then [n] else [])
  }

  /** The label is the concatenation of the texts at the chosen positions:
      a subsequence of the page's glyph texts, in extraction order, holding
      exactly the boxes that pass the test. */
  lemma {:induction false} SelectedAtChosen(boxes: seq<CharBox>, key: int, lo: int, hi: int)
    ensures |Selected(boxes, key, lo, hi)| == |Chosen(boxes, key, lo, hi)|
    ensures forall i :: 0 <= i < |Chosen(boxes, key, lo, hi)| ==>
      Selected(boxes, key, lo, hi)[i] == boxes[Chosen(boxes, key, lo, hi)[i]]
    decreases |boxes|
  {
    if boxes != [] {
      var n := |boxes| - 1;
      var init := boxes[..n];
      SelectedAtChosen(init, key, lo, hi);
      var ix := Chosen(init, key, lo, hi);
      assert forall i :: 0 <= i < |ix| ==> boxes[ix[i]] == init[ix[i]];
    }
  }

  /** A box passes the label test exactly when it is on the page and meets
      the centre and top-edge conditions. */
  lemma SelectedIff(boxes: seq<CharBox>, key: int, lo: int, hi: int, b: CharBox)
    ensures b in Selected(boxes, key, lo, hi) <==> b in boxes && InLabel(b, key, lo, hi)
  {
    SelectedAtChosen(boxes, key, lo, hi);
    var sel, ix := Selected(boxes, key, lo, hi), Chosen(boxes, key, lo, hi);
    if b in sel {
      var i :| 0 <= i < |sel| && sel[i] == b;
      assert ix[i] in ix;
    }
    if b in boxes && InLabel(b, key, lo, hi) {
      var k :| 0 <= k < |boxes| && boxes[k] == b;
      assert k in ix;
      var i :| 0 <= i < |ix| && ix[i] == k;
      assert sel[i] == b;
    }
  }
}
