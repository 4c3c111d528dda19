/** Greedy grouping of a page's glyph boxes into vertical lines by
    horizontal centre. The insertion-ordered dictionary of the source
    (key -> list of boxes) is a sequence of groups in creation order; the
    lemma KeysApart shows its keys are distinct, so appending a group is
    the same as inserting a fresh dictionary key. */
module Clustering {
  import opened Geometry

  datatype Group = Group(key: int, members: seq<Rect>)

  function Keys(gs: seq<Group>): (ks: seq<int>)
    ensures |ks| == |gs| && forall i :: 0 <= i < |gs| ==> ks[i] == gs[i].key
  {
    seq(|gs|, i requires 0 <= i < |gs| => gs[i].key)
  }

  /** The position of the earliest key within tolerance of c, or |keys|
      when no key is. */
  function FirstMatch(keys: seq<int>, c: int): (g: nat)
    ensures g <= |keys|
    ensures forall i :: 0 <= i < g ==> !Near(c, keys[i])
    ensures g < |keys| ==> Near(c, keys[g])
    decreases |keys|
  {
    if keys == [] then 0
    else if Near(c, keys[0]) then 0
    else 1 + FirstMatch(keys[1..], c)
  }

  /** One step of the grouping loop: the box joins the first group whose
      key is within tolerance of its centre (the key stays as it is), or
      opens a new group keyed at its centre. */
  function Join(gs: seq<Group>, r: Rect): seq<Group> {
    var g := FirstMatch(Keys(gs), Center(r));
    if g < |gs| then gs[g := Group(gs[g].key, gs[g].members + [r])]
    else gs + [Group(Center(r), [r])]
  }

  /** `x_groups` after the grouping loop has seen all of `boxes`. */
  function Clusters(boxes: seq<CharBox>): seq<Group>
    decreases |boxes|
  {
    if boxes == [] then []
    else Join(Clusters(boxes[..|boxes| - 1]), boxes[|boxes| - 1].rect)
  }

  /** The grouping loop, with the scan over the existing keys and its break. */
  method GroupBoxes(boxes: seq<CharBox>) returns (groups: seq<Group>)
    ensures groups == Clusters(boxes)
  {
    groups := [];
    for n := 0 to |boxes|
      invariant groups == Clusters(boxes[..n])
    {
      assert boxes[..n + 1][..n] == boxes[..n];
      var r := boxes[n].rect;
      var xCenter := Center(r);
      ghost var before := groups;
      var joined := false;
      var j := 0;
      while j < |groups|
        invariant 0 <= j <= |groups| && groups == before && !joined
        invariant forall i :: 0 <= i < j ==> !Near(xCenter, groups[i].key)
      {
        if Near(xCenter, groups[j].key) {
          groups := groups[j := Group(groups[j].key, groups[j].members + [r])];
          joined := true;
          break;
        }
        j := j + 1;
      }
      if !joined {
        groups := groups + [Group(xCenter, [r])];
      }
      assert FirstMatch(Keys(before), xCenter) == j;
    }
    assert boxes[..|boxes|] == boxes;
  }

  // ---------------------------------------------------------------------
  // Facts about one step

  lemma FirstMatchUnique(keys: seq<int>, c: int, g: nat)
    requires g <= |keys|
    requires forall i :: 0 <= i < g ==> !Near(c, keys[i])
    requires g < |keys| ==> Near(c, keys[g])
    ensures FirstMatch(keys, c) == g
  {
  }

  /** Adding a key at the end changes no earlier match. */
  lemma FirstMatchAppend(keys: seq<int>, k: int, c: int)
    ensures FirstMatch(keys + [k], c) ==
      if FirstMatch(keys, c) < |keys| then FirstMatch(keys, c)
      else if Near(c, k) then |keys| else |keys| + 1
  {
    var f := FirstMatch(keys, c);
    var ks := keys + [k];
    assert forall i :: 0 <= i < |keys| ==> ks[i] == keys[i];
    if f < |keys| {
      FirstMatchUnique(ks, c, f);
    } else if Near(c, k) {
      FirstMatchUnique(ks, c, |keys|);
    } else {
      FirstMatchUnique(ks, c, |keys| + 1);
    }
  }

  /** A step keeps every existing key where it was and at most appends one. */
  lemma JoinKeys(gs: seq<Group>, r: Rect)
    ensures Keys(Join(gs, r)) ==
      if FirstMatch(Keys(gs), Center(r)) < |gs| then Keys(gs) else Keys(gs) + [Center(r)]
  {
  }

  // ---------------------------------------------------------------------
  // Invariants of the grouping

  /** Keys are pairwise at least the tolerance apart, hence distinct: a key
      is only created for a box no existing key is near. */
  predicate KeysSeparated(gs: seq<Group>) {
    forall i, j :: 0 <= i < |gs| && 0 <= j < |gs| && i != j ==> !Near(gs[i].key, gs[j].key)
  }

  lemma {:induction false} KeysApart(boxes: seq<CharBox>)
    ensures KeysSeparated(Clusters(boxes))
    decreases |boxes|
  {
    if boxes != [] {
      var init := boxes[..|boxes| - 1];
      var r := boxes[|boxes| - 1].rect;
      var gs', gs := Clusters(init), Clusters(boxes);
      var m := FirstMatch(Keys(gs'), Center(r));
      KeysApart(init);
      assert gs == Join(gs', r);
      if m < |gs'| {
        assert forall i :: 0 <= i < |gs| ==> gs[i].key == gs'[i].key;
      } else {
        assert forall i :: 0 <= i < |gs'| ==> gs[i].key == gs'[i].key && !Near(Center(r), gs'[i].key);
        assert gs[|gs'|].key == Center(r);
      }
    }
  }

  /** No group is ever empty, and a group's key is the centre of its first
      member: the box that opened it. */
  predicate OpenedByFirst(gs: seq<Group>) {
    forall g :: 0 <= g < |gs| ==>
      |gs[g].members| > 0 && gs[g].key == Center(gs[g].members[0])
  }

  lemma {:induction false} KeyIsFirstCentre(boxes: seq<CharBox>)
    ensures OpenedByFirst(Clusters(boxes))
    decreases |boxes|
  {
    if boxes != [] {
      var init := boxes[..|boxes| - 1];
      var r := boxes[|boxes| - 1].rect;
      var gs', gs := Clusters(init), Clusters(boxes);
      var m := FirstMatch(Keys(gs'), Center(r));
      KeyIsFirstCentre(init);
      assert gs == Join(gs', r);
      if m < |gs'| {
        assert (gs'[m].members + [r])[0] == gs'[m].members[0];
      }
    }
  }

  /** Key stability: as the loop goes on, no key moves and no group loses
      or reorders members; groups only grow at the end and new groups only
      appear after the old ones. */
  predicate Extends(early: seq<Group>, late: seq<Group>) {
    |early| <= |late|
    && forall g :: 0 <= g < |early| ==>
      early[g].key == late[g].key && early[g].members <= late[g].members
  }

  lemma {:induction false} KeysStable(boxes: seq<CharBox>, n: nat)
    requires n <= |boxes|
    ensures Extends(Clusters(boxes[..n]), Clusters(boxes))
    decreases |boxes|
  {
    if n == |boxes| {
      assert boxes[..n] == boxes;
    } else {
      var init := boxes[..|boxes| - 1];
      assert init[..n] == boxes[..n];
      KeysStable(init, n);
    }
  }

  /** Every box of the page is near some final key. */
  predicate Covered(boxes: seq<CharBox>, keys: seq<int>) {
    forall k :: 0 <= k < |boxes| ==> FirstMatch(keys, Center(boxes[k].rect)) < |keys|
  }

  lemma {:induction false} ClustersCover(boxes: seq<CharBox>)
    ensures Covered(boxes, Keys(Clusters(boxes)))
    decreases |boxes|
  {
    if boxes != [] {
      var init := boxes[..|boxes| - 1];
      var b := boxes[|boxes| - 1];
      ClustersCover(init);
      CoveredStep(init, Clusters(init), b);
      assert init + [b] == boxes;
    }
  }

  /** One grouping step keeps every earlier box near some key and makes the
      new box near one too. */
  lemma CoveredStep(init: seq<CharBox>, gs: seq<Group>, b: CharBox)
    requires Covered(init, Keys(gs))
    ensures Covered(init + [b], Keys(Join(gs, b.rect)))
  {
    var ks', all := Keys(gs), init + [b];
    JoinKeys(gs, b.rect);
    var ks := Keys(Join(gs, b.rect));
    forall k | 0 <= k < |all|
      ensures FirstMatch(ks, Center(all[k].rect)) < |ks|
    {
      var c := Center(all[k].rect);
      FirstMatchAppend(ks', Center(b.rect), c);
      if k < |init| {
        assert all[k] == init[k];
        assert FirstMatch(ks', c) < |ks'|;
      }
    }
  }

  // ---------------------------------------------------------------------
  // Membership

  /** The boxes, in extraction order, whose earliest near key is keys[g]. */
  function MembersOf(boxes: seq<CharBox>, keys: seq<int>, g: nat): (ms: seq<Rect>)
    ensures forall r :: r in ms ==> FirstMatch(keys, Center(r)) == g
    decreases |boxes|
  {
    if boxes == [] then []
    else
      var last := boxes[|boxes| - 1];
      MembersOf(boxes[..|boxes| - 1], keys, g)
      + (if FirstMatch(keys, Center(last.rect)) == g then [last.rect] else [])
  }

  lemma {:induction false} MembersOfSameMatch(boxes: seq<CharBox>, ks: seq<int>, ks': seq<int>, g: nat)
    requires forall k :: 0 <= k < |boxes| ==>
      FirstMatch(ks, Center(boxes[k].rect)) == FirstMatch(ks', Center(boxes[k].rect))
    ensures MembersOf(boxes, ks, g) == MembersOf(boxes, ks', g)
    decreases |boxes|
  {
    if boxes != [] {
      var init := boxes[..|boxes| - 1];
      assert forall k :: 0 <= k < |init| ==> init[k] == boxes[k];
      MembersOfSameMatch(init, ks, ks', g);
    }
  }

  lemma {:induction false} MembersOfNone(boxes: seq<CharBox>, ks: seq<int>, g: nat)
    requires forall k :: 0 <= k < |boxes| ==> FirstMatch(ks, Center(boxes[k].rect)) != g
    ensures MembersOf(boxes, ks, g) == []
    decreases |boxes|
  {
    if boxes != [] {
      var init := boxes[..|boxes| - 1];
      assert forall k :: 0 <= k < |init| ==> init[k] == boxes[k];
      MembersOfNone(init, ks, g);
    }
  }

  predicate MembersExact(boxes: seq<CharBox>, gs: seq<Group>) {
    forall g :: 0 <= g < |gs| ==> gs[g].members == MembersOf(boxes, Keys(gs), g)
  }

  /** One step of Membership: the members after a step, given them before. */
  lemma MembershipStep(init: seq<CharBox>, b: CharBox, g: nat)
    requires MembersExact(init, Clusters(init))
    requires Covered(init, Keys(Clusters(init)))
    requires g < |Join(Clusters(init), b.rect)|
    ensures Join(Clusters(init), b.rect)[g].members
      == MembersOf(init + [b], Keys(Join(Clusters(init), b.rect)), g)
  {
    var boxes := init + [b];
    var r := b.rect;
    var c := Center(r);
    var gs' := Clusters(init);
    var ks' := Keys(gs');
    var gs := Join(gs', r);
    var ks := Keys(gs);
    var m := FirstMatch(ks', c);
    JoinKeys(gs', r);
    forall k | 0 <= k < |init|
      ensures FirstMatch(ks, Center(init[k].rect)) == FirstMatch(ks', Center(init[k].rect))
    {
      FirstMatchAppend(ks', c, Center(init[k].rect));
    }
    FirstMatchAppend(ks', c, c);
    var mNow := FirstMatch(ks, c);
    assert mNow == if m < |gs'| then m else |gs'|;
    assert boxes[..|boxes| - 1] == init && boxes[|boxes| - 1] == b;
    assert MembersOf(boxes, ks, g) == MembersOf(init, ks, g) + (if mNow == g then [r] else []);
    MembersOfSameMatch(init, ks, ks', g);
    if g < |gs'| {
      assert gs'[g].members == MembersOf(init, ks', g);
      assert gs[g].members == gs'[g].members + (if m == g then [r] else []);
    } else {
      MembersOfNone(init, ks', g);
      assert gs[g].members == [r];
    }
  }

  /** The grouping is decided by the final keys alone: the members of group
      g are exactly, and in extraction order, the boxes whose earliest near
      key (in creation order) is the key of g. So every box sits in exactly
      one group, the first one whose key is within tolerance of it. */
  lemma {:induction false} Membership(boxes: seq<CharBox>)
    ensures MembersExact(boxes, Clusters(boxes))
    decreases |boxes|
  {
    if boxes != [] {
      var init := boxes[..|boxes| - 1];
      var b := boxes[|boxes| - 1];
      assert boxes == init + [b];
      Membership(init);
      ClustersCover(init);
      forall g | 0 <= g < |Clusters(boxes)|
        ensures Clusters(boxes)[g].members == MembersOf(boxes, Keys(Clusters(boxes)), g)
      {
        MembershipStep(init, b, g);
      }
    }
  }

  /** Tolerance: every member's centre is strictly within 20 pixels of its
      group's key. */
  predicate WithinTolerance(gs: seq<Group>) {
    forall g, i :: 0 <= g < |gs| && 0 <= i < |gs[g].members| ==>
      Near(Center(gs[g].members[i]), gs[g].key)
  }

  lemma Tolerance(boxes: seq<CharBox>)
    ensures WithinTolerance(Clusters(boxes))
  {
    var gs := Clusters(boxes);
    Membership(boxes);
    forall g, i | 0 <= g < |gs| && 0 <= i < |gs[g].members|
      ensures Near(Center(gs[g].members[i]), gs[g].key)
    {
      assert gs[g].members[i] in MembersOf(boxes, Keys(gs), g);
    }
  }

  // ---------------------------------------------------------------------
  // Partition

  function TotalMembers(gs: seq<Group>): nat
    decreases |gs|
  {
    if gs == [] then 0 else TotalMembers(gs[..|gs| - 1]) + |gs[|gs| - 1].members|
  }

  lemma {:induction false} TotalMembersUpdate(gs: seq<Group>, j: nat, g: Group)
    requires j < |gs|
    ensures TotalMembers(gs[j := g]) == TotalMembers(gs) - |gs[j].members| + |g.members|
    decreases |gs|
  {
    var gs2 := gs[j := g];
    if j < |gs| - 1 {
      assert gs2[..|gs2| - 1] == gs[..|gs| - 1][j := g];
      TotalMembersUpdate(gs[..|gs| - 1], j, g);
    } else {
      assert gs2[..|gs2| - 1] == gs[..|gs| - 1];
    }
  }

  /** Partition: the group sizes add up to the number of boxes, so no box
      is lost or counted twice. */
  lemma {:induction false} Partition(boxes: seq<CharBox>)
    ensures TotalMembers(Clusters(boxes)) == |boxes|
    decreases |boxes|
  {
    if boxes != [] {
      var init := boxes[..|boxes| - 1];
      var r := boxes[|boxes| - 1].rect;
      var gs' := Clusters(init);
      Partition(init);
      var g := FirstMatch(Keys(gs'), Center(r));
      if g < |gs'| {
        TotalMembersUpdate(gs', g, Group(gs'[g].key, gs'[g].members + [r]));
      } else {
        assert (gs' + [Group(Center(r), [r])])[..|gs'|] == gs';
      }
    }
  }

  // ---------------------------------------------------------------------
  // Worked cases

  function BoxAt(c: int): CharBox {
    CharBox(Rect(c, 0, c, 10), "a")
  }

  /** Three boxes centred at 100, 102, 104 and one at 500 give two groups,
      of three and of one box. */
  lemma TwoLines()
    ensures var gs := Clusters([BoxAt(100), BoxAt(102), BoxAt(104), BoxAt(500)]);
      |gs| == 2 && |gs[0].members| == 3 && |gs[1].members| == 1
      && gs[0].key == 100 && gs[1].key == 500
  {
    var bs := [BoxAt(100), BoxAt(102), BoxAt(104), BoxAt(500)];
    assert bs[..1][..0] == [];
    assert bs[..2][..1] == bs[..1];
    assert bs[..3][..2] == bs[..2];
    assert bs[..4][..3] == bs[..3];
    assert bs[..4] == bs;
    assert Clusters(bs[..1]) == [Group(100, [Rect(100, 0, 100, 10)])];
    assert Keys(Clusters(bs[..2])) == [100] && |Clusters(bs[..2])[0].members| == 2;
    assert Keys(Clusters(bs[..3])) == [100] && |Clusters(bs[..3])[0].members| == 3;
  }

  /** Clusters grows by one Join per box. */
  lemma ClustersSnoc(boxes: seq<CharBox>, b: CharBox)
    ensures Clusters(boxes + [b]) == Join(Clusters(boxes), b.rect)
  {
    assert (boxes + [b])[..|boxes|] == boxes;
  }

  /** The keys after two boxes centred at 100 and 119: one group. */
  lemma KeysAfterTwo(b0: CharBox, b1: CharBox)
    requires Center(b0.rect) == 100 && Center(b1.rect) == 119
    ensures Keys(Clusters([b0, b1])) == [100]
  {
    ClustersSnoc([], b0);
    assert [] + [b0] == [b0];
    assert Keys(Clusters([b0])) == [100];
    ClustersSnoc([b0], b1);
    assert [b0] + [b1] == [b0, b1];
    assert FirstMatch([100], 119) == 0;
  }

  /** Two consecutive boxes whose centres are only 6 apart can still land in
      different groups: the key of the first group stays at 100, so the box
      at 119 joins it while the box at 125 opens a group of its own. */
  lemma ConsecutiveNearBoxesSplit(b0: CharBox, b1: CharBox, b2: CharBox)
    requires Center(b0.rect) == 100 && Center(b1.rect) == 119 && Center(b2.rect) == 125
    ensures Near(Center(b1.rect), Center(b2.rect))
    ensures FirstMatch(Keys(Clusters([b0, b1, b2])), Center(b1.rect)) == 0
    ensures FirstMatch(Keys(Clusters([b0, b1, b2])), Center(b2.rect)) == 1
  {
    KeysAfterTwo(b0, b1);
    ClustersSnoc([b0, b1], b2);
    assert [b0, b1] + [b2] == [b0, b1, b2];
    assert FirstMatch([100], 125) == 1;
    assert Keys(Clusters([b0, b1, b2])) == [100, 125];
    assert FirstMatch([100, 125], 119) == 0 && FirstMatch([100, 125], 125) == 1;
  }
}
