/** One document through the extractor: for each (layout page, raster)
    pair of the two sequences zipped together, the glyph list, its groups,
    and one output record per group whose crop is not empty. A record
    stands for the pair of files the source writes: the crop image and the
    label text, named `{stem}_page{P}_line{L}`. */
module Pipeline {
  import opened Text
  import opened Geometry
  import opened Glyphs
  import opened Clustering
  import opened Labels

  /** What is written for one line: the base file name, the rectangle the
      image is cropped to, and the label text. */
  datatype LineRecord = LineRecord(name: string, crop: Rect, text: string)

  /** The rectangle of a group: the clamped min/max of its members. The
      extractor sorts the members by top edge first, which by
      EnclosingIgnoresOrder gives the same rectangle. */
  function LineRect(g: Group, w: nat, h: nat): Rect
    requires |g.members| > 0
  {
    EnclosingRect(g.members, w, h)
  }

  /** A group produces output: it has members and its crop is not empty. */
  predicate Kept(g: Group, w: nat, h: nat) {
    |g.members| > 0 && !EmptyCrop(LineRect(g, w, h), w, h)
  }

  /** The record of group g, which was created line-th on the page. */
  function RecordFor(stem: string, page: nat, boxes: seq<CharBox>, g: Group, line: nat, w: nat, h: nat): LineRecord
    requires |g.members| > 0
  {
    var r := LineRect(g, w, h);
    LineRecord(LineName(stem, page, line), r, Concat(Selected(boxes, g.key, r.y0, r.y1)))
  }

  /** The records of the first n groups. */
  function EmitLines(stem: string, page: nat, boxes: seq<CharBox>, gs: seq<Group>, n: nat, w: nat, h: nat): seq<LineRecord>
    requires n <= |gs|
    decreases n
  {
    if n == 0 then []
    else
      EmitLines(stem, page, boxes, gs, n - 1, w, h)
      + (if Kept(gs[n - 1], w, h) then [RecordFor(stem, page, boxes, gs[n - 1], n - 1, w, h)] else [])
  }

  function PageGroups(elements: seq<Element>, w: nat, h: nat): seq<Group> {
    Clusters(GlyphBoxes(elements, w, h))
  }

  /** Everything written for one page, in the order it is written. */
  function PageRecords(stem: string, page: nat, elements: seq<Element>, w: nat, h: nat): seq<LineRecord> {
    var gs := PageGroups(elements, w, h);
    EmitLines(stem, page, GlyphBoxes(elements, w, h), gs, |gs|, w, h)
  }

  /** The body of the page loop: extract, group, then emit each group. */
  method ProcessPage(stem: string, page: nat, elements: seq<Element>, w: nat, h: nat) returns (records: seq<LineRecord>)
    ensures records == PageRecords(stem, page, elements, w, h)
  {
    var textBoxes := ExtractTextBoxes(elements, w, h);
    var groups := GroupBoxes(textBoxes);
    records := EmitGroups(stem, page, textBoxes, groups, w, h);
  }

  /** The loop over the groups: sort, enclose, skip an empty crop, re-scan
      for the label, write. */
  method EmitGroups(stem: string, page: nat, textBoxes: seq<CharBox>, groups: seq<Group>, w: nat, h: nat)
    returns (records: seq<LineRecord>)
    ensures records == EmitLines(stem, page, textBoxes, groups, |groups|, w, h)
  {
    records := [];
    for lineIdx := 0 to |groups|
      invariant records == EmitLines(stem, page, textBoxes, groups, lineIdx, w, h)
    {
      var lineBoxes := groups[lineIdx].members;
      var sortedBoxes := SortByTop(lineBoxes);
      if |sortedBoxes| > 0 {
        var r := EnclosingRect(sortedBoxes, w, h);
        EnclosingIgnoresOrder(lineBoxes, sortedBoxes, w, h);
        if EmptyCrop(r, w, h) {
          continue;
        }
        var lineText := LineText(textBoxes, groups[lineIdx].key, r.y0, r.y1);
        records := records + [LineRecord(LineName(stem, page, lineIdx), r, lineText)];
      }
    }
  }

  // ---------------------------------------------------------------------
  // What a page writes

  /** The creation indices of the groups that produce output, increasing. */
  function KeptLines(gs: seq<Group>, n: nat, w: nat, h: nat): (ix: seq<nat>)
    requires n <= |gs|
    ensures forall i :: 0 <= i < |ix| ==> ix[i] < n && Kept(gs[ix[i]], w, h)
    ensures forall i, j :: 0 <= i < j < |ix| ==> ix[i] < ix[j]
    ensures forall l :: 0 <= l < n ==> (l in ix <==> Kept(gs[l], w, h))
    decreases n
  {
    if n == 0 then []
    else KeptLines(gs, n - 1, w, h) + (if Kept(gs[n - 1], w, h) then [n - 1] else [])
  }

  /** The records of the first n groups are, in order, the records of the
      groups KeptLines lists: one per group with a non-empty crop, named by
      its creation index. */
  lemma {:induction false} EmitLinesAt(stem: string, page: nat, boxes: seq<CharBox>, gs: seq<Group>, n: nat, w: nat, h: nat)
    requires n <= |gs|
    ensures |EmitLines(stem, page, boxes, gs, n, w, h)| == |KeptLines(gs, n, w, h)|
    ensures forall i :: 0 <= i < |KeptLines(gs, n, w, h)| ==>
      EmitLines(stem, page, boxes, gs, n, w, h)[i]
      == RecordFor(stem, page, boxes, gs[KeptLines(gs, n, w, h)[i]], KeptLines(gs, n, w, h)[i], w, h)
    decreases n
  {
    if n > 0 {
      EmitLinesAt(stem, page, boxes, gs, n - 1, w, h);
    }
  }

  /** Every group whose crop is not empty has its record written; skipped
      groups still use up their line index, so line numbers can have gaps. */
  lemma PageRecordsComplete(stem: string, page: nat, elements: seq<Element>, w: nat, h: nat)
    ensures forall l :: 0 <= l < |PageGroups(elements, w, h)| && Kept(PageGroups(elements, w, h)[l], w, h) ==>
      RecordFor(stem, page, GlyphBoxes(elements, w, h), PageGroups(elements, w, h)[l], l, w, h)
        in PageRecords(stem, page, elements, w, h)
  {
    var boxes, gs := GlyphBoxes(elements, w, h), PageGroups(elements, w, h);
    var recs := PageRecords(stem, page, elements, w, h);
    var ix := KeptLines(gs, |gs|, w, h);
    EmitLinesAt(stem, page, boxes, gs, |gs|, w, h);
    forall l | 0 <= l < |gs| && Kept(gs[l], w, h)
      ensures RecordFor(stem, page, boxes, gs[l], l, w, h) in recs
    {
      assert l in ix;
      var i :| 0 <= i < |ix| && ix[i] == l;
      assert recs[i] == RecordFor(stem, page, boxes, gs[l], l, w, h);
    }
  }

  /** Every record of a page is named for that page, and no two share a name. */
  lemma PageNamesDistinct(stem: string, page: nat, elements: seq<Element>, w: nat, h: nat)
    ensures NamedFor(stem, page, PageRecords(stem, page, elements, w, h))
  {
    var boxes, gs := GlyphBoxes(elements, w, h), PageGroups(elements, w, h);
    var recs := PageRecords(stem, page, elements, w, h);
    var ix := KeptLines(gs, |gs|, w, h);
    EmitLinesAt(stem, page, boxes, gs, |gs|, w, h);
    forall i | 0 <= i < |recs| ensures NameOfPage(stem, page, recs[i].name) {
      var l: nat := ix[i];
      assert recs[i].name == LineName(stem, page, l);
    }
    forall i, j | 0 <= i < j < |recs| ensures recs[i].name != recs[j].name {
      assert recs[i].name == LineName(stem, page, ix[i]);
      assert recs[j].name == LineName(stem, page, ix[j]);
      if recs[i].name == recs[j].name {
        LineNameInjective(stem, page, ix[i], page, ix[j]);
      }
    }
  }

  /** Every crop a page writes lies inside the image and is not empty. */
  lemma PageCropsInside(stem: string, page: nat, elements: seq<Element>, w: nat, h: nat)
    ensures forall rec :: rec in PageRecords(stem, page, elements, w, h) ==>
      0 <= rec.crop.x0 && 0 <= rec.crop.y0 && rec.crop.x1 <= w && rec.crop.y1 <= h
      && !EmptyCrop(rec.crop, w, h)
  {
    var boxes, gs := GlyphBoxes(elements, w, h), PageGroups(elements, w, h);
    var recs := PageRecords(stem, page, elements, w, h);
    var ix := KeptLines(gs, |gs|, w, h);
    EmitLinesAt(stem, page, boxes, gs, |gs|, w, h);
    forall rec | rec in recs
      ensures 0 <= rec.crop.x0 && 0 <= rec.crop.y0 && rec.crop.x1 <= w && rec.crop.y1 <= h
        && !EmptyCrop(rec.crop, w, h)
    {
      var i :| 0 <= i < |recs| && recs[i] == rec;
      assert rec.crop == LineRect(gs[ix[i]], w, h);
    }
  }

  /** Every member of a group whose top edge lies inside the image, in
      [0, H], and not below its own bottom edge contributes its text to the
      group's label. OutsideImageLeftOut gives the converse. */
  lemma MemberInLabel(boxes: seq<CharBox>, l: nat, k: nat, w: nat, h: nat)
    requires l < |Clusters(boxes)| && k < |boxes|
    requires FirstMatch(Keys(Clusters(boxes)), Center(boxes[k].rect)) == l
    requires 0 <= boxes[k].rect.y0 <= boxes[k].rect.y1 && boxes[k].rect.y0 <= h
    ensures |Clusters(boxes)[l].members| > 0
      && var r := LineRect(Clusters(boxes)[l], w, h);
         boxes[k] in Selected(boxes, Clusters(boxes)[l].key, r.y0, r.y1)
  {
    var gs := Clusters(boxes);
    var b := boxes[k];
    KeyIsFirstCentre(boxes);
    Membership(boxes);
    MembersOfHas(boxes, Keys(gs), l, k);
    var ms := gs[l].members;
    assert b.rect in ms;
    var i :| 0 <= i < |ms| && ms[i] == b.rect;
    EnclosingRectTight(ms, w, h);
    var r := LineRect(gs[l], w, h);
    assert r.y0 <= b.rect.y0 && b.rect.y0 <= r.y1;
    SelectedIff(boxes, gs[l].key, r.y0, r.y1, b);
  }

  /** A box whose top edge lies outside the image, above it (y0 < 0) or
      below it (y0 > H), is in no group's label, because the line rectangle
      is clamped to the image. */
  lemma OutsideImageLeftOut(boxes: seq<CharBox>, g: Group, w: nat, h: nat, b: CharBox)
    requires |g.members| > 0
    requires b.rect.y0 < 0 || b.rect.y0 > h
    ensures var r := LineRect(g, w, h);
      b !in Selected(boxes, g.key, r.y0, r.y1)
  {
    var r := LineRect(g, w, h);
    SelectedIff(boxes, g.key, r.y0, r.y1, b);
  }

  /** The box at position k is among the members its first near key collects. */
  lemma {:induction false} MembersOfHas(boxes: seq<CharBox>, keys: seq<int>, g: nat, k: nat)
    requires k < |boxes| && FirstMatch(keys, Center(boxes[k].rect)) == g
    ensures boxes[k].rect in MembersOf(boxes, keys, g)
    decreases |boxes|
  {
    if k < |boxes| - 1 {
      var init := boxes[..|boxes| - 1];
      assert init[k] == boxes[k];
      MembersOfHas(init, keys, g, k);
    }
  }

  // ---------------------------------------------------------------------
  // Worked cases of the label scan

  function Glyph10(x0: int, y0: int, text: string): CharBox {
    CharBox(Rect(x0, y0, x0 + 10, y0 + 10), text)
  }

  /** The label of a group can take in a box that belongs to another group:
      boxes centred at 100 and 120 open two groups, a box at 110 joins the
      first, yet it is also within tolerance of the second key and so is
      part of the second group's label as well. */
  lemma LabelTakesOtherGroupsBox()
    ensures var bs := [Glyph10(95, 10, "a"), Glyph10(115, 10, "b"), Glyph10(105, 10, "c")];
      var gs := Clusters(bs);
      |gs| == 2 && FirstMatch(Keys(gs), Center(bs[2].rect)) == 0
      && |gs[1].members| > 0
      && var r := LineRect(gs[1], 1000, 1000);
         Concat(Selected(bs, gs[1].key, r.y0, r.y1)) == "bc"
  {
    var bs := [Glyph10(95, 10, "a"), Glyph10(115, 10, "b"), Glyph10(105, 10, "c")];
    assert bs[..1][..0] == [];
    assert bs[..2][..1] == bs[..1];
    assert bs[..3][..2] == bs[..2];
    assert bs[..3] == bs;
    assert Clusters(bs[..1]) == [Group(100, [bs[0].rect])];
    var c2 := Clusters(bs[..2]);
    assert c2 == [Group(100, [bs[0].rect]), Group(120, [bs[1].rect])];
    assert Keys(c2) == [100, 120];
    assert Center(bs[2].rect) == 110;
    assert FirstMatch(Keys(c2), 110) == 0;
    var gs := Clusters(bs);
    assert gs == Join(c2, bs[2].rect);
    assert gs == c2[0 := Group(100, c2[0].members + [bs[2].rect])];
    assert Keys(gs) == [100, 120];
    assert gs[1] == Group(120, [bs[1].rect]);
    var r := LineRect(gs[1], 1000, 1000);
    assert r == Rect(115, 10, 125, 20);
    assert Selected(bs[..1], 120, 10, 20) == [];
    assert Selected(bs[..2], 120, 10, 20) == [bs[1]];
    assert Selected(bs, 120, 10, 20) == [bs[1], bs[2]];
    assert [bs[1], bs[2]][..1] == [bs[1]] && [bs[1]][..0] == [];
    assert Concat([bs[1]]) == "b";
    assert Concat([bs[1], bs[2]]) == "bc";
  }

  /** A glyph touching the top of the image is padded to a top edge of -4;
      the rectangle is clamped to 0, so the glyph is cropped but its text is
      not in the label: the line is written with an empty label. */
  lemma TopGlyphLeftOutOfLabel(stem: string)
    ensures var bs := [Glyph10(95, -4, "a")];
      var gs := Clusters(bs);
      EmitLines(stem, 0, bs, gs, |gs|, 1000, 1000)
        == [LineRecord(LineName(stem, 0, 0), Rect(95, 0, 105, 6), "")]
  {
    var bs := [Glyph10(95, -4, "a")];
    assert bs[..0] == [];
    var gs := Clusters(bs);
    assert gs == [Group(100, [bs[0].rect])];
    assert LineRect(gs[0], 1000, 1000) == Rect(95, 0, 105, 6);
    assert Selected(bs, 100, 0, 6) == [];
  }

  // ---------------------------------------------------------------------
  // The document

  /** A layout page as the parser yields it, or a failure while producing
      it (which raises and ends the processing of the document). */
  datatype PageSource = Parsed(elements: seq<Element>) | Unreadable

  /** A rendered page: only its size matters here. */
  datatype Image = Image(width: nat, height: nat)

  /** The number of pages the loop completes: pages are paired with images
      by position, the shorter sequence ends the loop, and the first page
      that cannot be read stops it. */
  function PagesDone(pages: seq<PageSource>, images: seq<Image>): (n: nat)
    ensures n <= |pages| && n <= |images|
    ensures forall k :: 0 <= k < n ==> pages[k].Parsed?
    ensures n < |pages| && n < |images| ==> pages[n].Unreadable?
    decreases |pages|
  {
    if pages == [] || images == [] || pages[0].Unreadable? then 0
    else 1 + PagesDone(pages[1..], images[1..])
  }

  function PageOutput(stem: string, index: nat, page: PageSource, image: Image): seq<LineRecord> {
    match page
    case Parsed(elements) => PageRecords(stem, index, elements, image.width, image.height)
    case Unreadable => []
  }

  /** One readable page of the document loop: the page at position index,
      which follows the pages whose outputs are done. */
  method ProcessNextPage(stem: string, pages: seq<PageSource>, images: seq<Image>, index: nat, ghost done: seq<seq<LineRecord>>)
    returns (records: seq<LineRecord>)
    requires index == |done| < |pages| && index < |images| && pages[index].Parsed?
    requires OutputsOf(stem, pages, images, done)
    ensures OutputsOf(stem, pages, images, done + [records])
  {
    records := ProcessPage(stem, index, pages[index].elements, images[index].width, images[index].height);
    OutputsOfAppend(stem, pages, images, done, records);
  }

  /** The records of the first n pages, the index of a page being its
      position in the zipped sequence. */
  function DocRecords(stem: string, pages: seq<PageSource>, images: seq<Image>, n: nat): seq<LineRecord>
    requires n <= |pages| && n <= |images|
    decreases n
  {
    if n == 0 then []
    else DocRecords(stem, pages, images, n - 1) + PageOutput(stem, n - 1, pages[n - 1], images[n - 1])
  }

  /** The page loop of the extractor over `zip(pages, images)`. Returns the
      records written, the number of pages completed and whether a page
      failed (the records of earlier pages stay written). The zip draws the
      next page before the next image, so an unreadable page raises even when
      the images have just run out. */
  method ProcessDocument(stem: string, pages: seq<PageSource>, images: seq<Image>)
    returns (records: seq<LineRecord>, processed: nat, failed: bool)
    ensures processed == PagesDone(pages, images)
    ensures records == DocRecords(stem, pages, images, processed)
    ensures failed <==> processed < |pages| && pages[processed].Unreadable?
  {
    records := [];
    failed := false;
    var counter := 0;
    ghost var outs: seq<seq<LineRecord>> := [];
    while counter < |pages|
      invariant counter <= |pages| && counter <= |images| && !failed
      invariant forall k :: 0 <= k < counter ==> pages[k].Parsed?
      invariant |outs| == counter && OutputsOf(stem, pages, images, outs)
      invariant records == Flatten(outs)
      decreases |pages| - counter
    {
      if pages[counter].Unreadable? {
        failed := true;
        break;
      }
      if counter == |images| {
        break;
      }
      var pageRecords := ProcessNextPage(stem, pages, images, counter, outs);
      outs := outs + [pageRecords];
      records := records + pageRecords;
      counter := counter + 1;
    }
    processed := counter;
    PagesDoneUnique(pages, images, counter);
    FlattenOutputs(stem, pages, images, outs);
  }

  /** The page outputs, concatenated in page order. */
  function Flatten(outs: seq<seq<LineRecord>>): seq<LineRecord>
    decreases |outs|
  {
    if outs == [] then [] else Flatten(outs[..|outs| - 1]) + outs[|outs| - 1]
  }

  /** outs holds the outputs of the first |outs| pages. */
  predicate OutputsOf(stem: string, pages: seq<PageSource>, images: seq<Image>, outs: seq<seq<LineRecord>>) {
    |outs| <= |pages| && |outs| <= |images|
    && forall k {:trigger outs[k]} :: 0 <= k < |outs| ==> outs[k] == PageOutput(stem, k, pages[k], images[k])
  }

  lemma OutputsOfAppend(stem: string, pages: seq<PageSource>, images: seq<Image>, outs: seq<seq<LineRecord>>, next: seq<LineRecord>)
    requires OutputsOf(stem, pages, images, outs) && |outs| < |pages| && |outs| < |images|
    requires next == PageOutput(stem, |outs|, pages[|outs|], images[|outs|])
    ensures OutputsOf(stem, pages, images, outs + [next])
  {
    var n := |outs|;
    forall k | 0 <= k < n + 1
      ensures (outs + [next])[k] == PageOutput(stem, k, pages[k], images[k])
    {
      if k < n {
        assert (outs + [next])[k] == outs[k];
      }
    }
  }

  lemma {:induction false} FlattenOutputs(stem: string, pages: seq<PageSource>, images: seq<Image>, outs: seq<seq<LineRecord>>)
    requires OutputsOf(stem, pages, images, outs)
    ensures Flatten(outs) == DocRecords(stem, pages, images, |outs|)
    decreases |outs|
  {
    if outs != [] {
      var init := outs[..|outs| - 1];
      assert OutputsOf(stem, pages, images, init);
      FlattenOutputs(stem, pages, images, init);
    }
  }

  lemma PagesDoneUnique(pages: seq<PageSource>, images: seq<Image>, n: nat)
    requires n <= |pages| && n <= |images|
    requires forall k :: 0 <= k < n ==> pages[k].Parsed?
    requires n < |pages| && n < |images| ==> pages[n].Unreadable?
    ensures PagesDone(pages, images) == n
  {
  }

  /** When every page can be read, exactly min(|pages|, |images|) pages are
      processed: extra layout pages or extra images are dropped silently. */
  lemma ZipTruncates(pages: seq<PageSource>, images: seq<Image>)
    requires forall k :: 0 <= k < |pages| ==> pages[k].Parsed?
    ensures PagesDone(pages, images) == Min(|pages|, |images|)
  {
  }

  /** No two of the records share a name. */
  predicate NamesDistinct(recs: seq<LineRecord>) {
    forall i, j :: 0 <= i < j < |recs| ==> recs[i].name != recs[j].name
  }

  /** name is the name of some line of page p. */
  ghost predicate NameOfPage(stem: string, p: nat, name: string) {
    exists l: nat :: name == LineName(stem, p, l)
  }

  /** name is the name of some line of one of the pages before n. */
  ghost predicate NameBefore(stem: string, n: nat, name: string) {
    exists p: nat, l: nat :: p < n && name == LineName(stem, p, l)
  }

  /** The records are all named for page p, and no two share a name. */
  ghost predicate NamedFor(stem: string, p: nat, recs: seq<LineRecord>) {
    (forall i :: 0 <= i < |recs| ==> NameOfPage(stem, p, recs[i].name)) && NamesDistinct(recs)
  }

  /** Every record is named for one of the pages before n. */
  ghost predicate NamedBefore(stem: string, n: nat, recs: seq<LineRecord>) {
    forall i :: 0 <= i < |recs| ==> NameBefore(stem, n, recs[i].name)
  }

  lemma PageOutputNames(stem: string, index: nat, page: PageSource, image: Image)
    ensures NamedFor(stem, index, PageOutput(stem, index, page, image))
  {
    if page.Parsed? {
      PageNamesDistinct(stem, index, page.elements, image.width, image.height);
      assert PageOutput(stem, index, page, image)
        == PageRecords(stem, index, page.elements, image.width, image.height);
    }
  }

  /** Concatenating page outputs each named for its own page gives records
      named for some earlier page, pairwise distinct. */
  lemma {:induction false} FlattenNames(stem: string, outs: seq<seq<LineRecord>>)
    requires forall k :: 0 <= k < |outs| ==> NamedFor(stem, k, outs[k])
    ensures NamedBefore(stem, |outs|, Flatten(outs)) && NamesDistinct(Flatten(outs))
    decreases |outs|
  {
    if outs != [] {
      var n := |outs|;
      var init := outs[..n - 1];
      assert forall k :: 0 <= k < n - 1 ==> init[k] == outs[k];
      FlattenNames(stem, init);
      assert NamedFor(stem, n - 1, outs[n - 1]);
      AppendNamedBefore(stem, n - 1, Flatten(init), outs[n - 1]);
      AppendDistinct(stem, n - 1, Flatten(init), outs[n - 1]);
    }
  }

  lemma AppendNamedBefore(stem: string, n: nat, prev: seq<LineRecord>, out: seq<LineRecord>)
    requires NamedBefore(stem, n, prev) && NamedFor(stem, n, out)
    ensures NamedBefore(stem, n + 1, prev + out)
  {
    var all := prev + out;
    forall i | 0 <= i < |all| ensures NameBefore(stem, n + 1, all[i].name) {
      if i < |prev| {
        assert all[i] == prev[i] && NameBefore(stem, n, prev[i].name);
        var p: nat, l: nat :| p < n && prev[i].name == LineName(stem, p, l);
        assert p < n + 1 && all[i].name == LineName(stem, p, l);
      } else {
        assert all[i] == out[i - |prev|] && NameOfPage(stem, n, out[i - |prev|].name);
        var l: nat :| out[i - |prev|].name == LineName(stem, n, l);
        var p: nat := n;
        assert p < n + 1 && all[i].name == LineName(stem, p, l);
      }
    }
  }

  lemma AppendDistinct(stem: string, n: nat, prev: seq<LineRecord>, out: seq<LineRecord>)
    requires NamedBefore(stem, n, prev) && NamesDistinct(prev) && NamedFor(stem, n, out)
    ensures NamesDistinct(prev + out)
  {
    var all := prev + out;
    forall i, j | 0 <= i < j < |all| ensures all[i].name != all[j].name {
      if i < |prev| && j < |prev| {
        assert all[i] == prev[i] && all[j] == prev[j];
      } else if |prev| <= i {
        assert all[i] == out[i - |prev|] && all[j] == out[j - |prev|];
      } else {
        assert all[i] == prev[i] && all[j] == out[j - |prev|];
        assert NameBefore(stem, n, prev[i].name) && NameOfPage(stem, n, out[j - |prev|].name);
        var p: nat, l: nat :| p < n && prev[i].name == LineName(stem, p, l);
        var l': nat :| out[j - |prev|].name == LineName(stem, n, l');
        if all[i].name == all[j].name {
          LineNameInjective(stem, p, l, n, l');
        }
      }
    }
  }

  /** No two records of a document share a name, so no output file is
      overwritten: each name carries its page index and its line index. */
  lemma DocNamesDistinct(stem: string, pages: seq<PageSource>, images: seq<Image>, n: nat)
    requires n <= |pages| && n <= |images|
    ensures NamedBefore(stem, n, DocRecords(stem, pages, images, n))
    ensures NamesDistinct(DocRecords(stem, pages, images, n))
  {
    var outs := seq(n, k requires 0 <= k < n => PageOutput(stem, k, pages[k], images[k]));
    assert OutputsOf(stem, pages, images, outs);
    FlattenOutputs(stem, pages, images, outs);
    forall k | 0 <= k < n ensures NamedFor(stem, k, outs[k]) {
      PageOutputNames(stem, k, pages[k], images[k]);
    }
    FlattenNames(stem, outs);
  }
}
