/** Merging boxes that come within a distance of one another (`merge` in src/diff/regions.ts).

    A result is described by a partition of the input positions. The specification says which
    partition: the finest one whose hulls are pairwise out of reach. That is a property of the
    input alone, so the result cannot depend on the order in which the loop meets the boxes. */
module Merge {
  import opened Boxes

  // ----- Hulls and totals of groups of input boxes

  ghost predicate InRange(regions: seq<ChangedRegion>, s: set<nat>) {
    forall i | i in s :: i < |regions|
  }

  /** `box` is the smallest rectangle covering every box of the group. */
  ghost predicate IsHull(regions: seq<ChangedRegion>, s: set<nat>, box: Rectangle) {
    && InRange(regions, s)
    && (forall i | i in s :: box.Covers(regions[i].box))
    && (exists i | i in s :: regions[i].box.x == box.x)
    && (exists i | i in s :: regions[i].box.y == box.y)
    && (exists i | i in s :: regions[i].box.Right() == box.Right())
    && (exists i | i in s :: regions[i].box.Bottom() == box.Bottom())
  }

  ghost function Total(regions: seq<ChangedRegion>, s: set<nat>): nat
    requires InRange(regions, s)
  {
    if s == {} then 0 else var i :| i in s; regions[i].changedPixels + Total(regions, s - {i})
  }

  /** `r` is what the group `s` becomes: its hull, with the changed pixels summed. */
  ghost predicate Gathers(regions: seq<ChangedRegion>, s: set<nat>, r: ChangedRegion) {
    IsHull(regions, s, r.box) && r.changedPixels == Total(regions, s)
  }

  lemma {:induction false} TotalWithout(regions: seq<ChangedRegion>, s: set<nat>, i: nat)
    requires InRange(regions, s) && i in s
    ensures Total(regions, s) == regions[i].changedPixels + Total(regions, s - {i})
  {
    var j :| j in s && Total(regions, s) == regions[j].changedPixels + Total(regions, s - {j});
    if j != i {
      TotalWithout(regions, s - {j}, i);
      TotalWithout(regions, s - {i}, j);
      assert s - {j} - {i} == s - {i} - {j};
    }
  }

  lemma {:induction false} TotalOfUnion(regions: seq<ChangedRegion>, s: set<nat>, t: set<nat>)
    requires InRange(regions, s) && InRange(regions, t) && s !! t
    ensures Total(regions, s + t) == Total(regions, s) + Total(regions, t)
  {
    if s == {} {
      assert s + t == t;
    } else {
      var i :| i in s;
      TotalWithout(regions, s, i);
      TotalWithout(regions, s + t, i);
      assert s + t - {i} == (s - {i}) + t;
      TotalOfUnion(regions, s - {i}, t);
    }
  }

  lemma GathersOne(regions: seq<ChangedRegion>, i: nat)
    requires i < |regions|
    ensures Gathers(regions, {i}, regions[i])
  {
    TotalWithout(regions, {i}, i);
    assert {i} - {i} == {};
    assert i in {i};
  }

  lemma GathersUnion(regions: seq<ChangedRegion>, s: set<nat>, a: ChangedRegion, t: set<nat>, b: ChangedRegion)
    requires Gathers(regions, s, a) && Gathers(regions, t, b) && s !! t
    ensures Gathers(regions, s + t, Union(a, b))
  {
    hide Total;
    TotalOfUnion(regions, s, t);
    HullOfUnion(regions, s, a, t, b);
  }

  lemma HullOfUnion(regions: seq<ChangedRegion>, s: set<nat>, a: ChangedRegion, t: set<nat>, b: ChangedRegion)
    requires IsHull(regions, s, a.box) && IsHull(regions, t, b.box)
    ensures IsHull(regions, s + t, Union(a, b).box)
  {
    var box, st := Union(a, b).box, s + t;
    var l :| l in st && regions[l].box.x == box.x;
    var u :| u in st && regions[u].box.y == box.y;
    var r :| r in st && regions[r].box.Right() == box.Right();
    var d :| d in st && regions[d].box.Bottom() == box.Bottom();
  }

  lemma HullIsUnique(regions: seq<ChangedRegion>, s: set<nat>, a: Rectangle, b: Rectangle)
    requires IsHull(regions, s, a) && IsHull(regions, s, b)
    ensures a == b
  {
    assert a.x == b.x && a.y == b.y && a.Right() == b.Right() && a.Bottom() == b.Bottom();
  }

  lemma HullCoversSubgroup(regions: seq<ChangedRegion>, s: set<nat>, a: Rectangle, t: set<nat>, b: Rectangle)
    requires IsHull(regions, s, a) && IsHull(regions, t, b) && s <= t
    ensures b.Covers(a)
  {
  }

  lemma {:induction false} HullExists(regions: seq<ChangedRegion>, s: set<nat>) returns (r: ChangedRegion)
    requires InRange(regions, s) && s != {}
    ensures IsHull(regions, s, r.box)
  {
    hide Total;
    var i :| i in s;
    GathersOne(regions, i);
    if s == {i} {
      r := regions[i];
    } else {
      var rest := HullExists(regions, s - {i});
      HullOfUnion(regions, s - {i}, rest, {i}, regions[i]);
      r := Union(rest, regions[i]);
      assert s - {i} + {i} == s;
    }
  }

  // ----- Partitions of the input positions

  ghost predicate Partition(groups: seq<set<nat>>, n: nat) {
    && (forall g :: 0 <= g < |groups| ==> groups[g] != {})
    && (forall g, i :: 0 <= g < |groups| && i in groups[g] ==> i < n)
    && (forall i: nat | i < n :: Listed(groups, i))
    && (forall g, h, i :: 0 <= g < |groups| && 0 <= h < |groups| && i in groups[g] && i in groups[h] ==> g == h)
  }

  ghost predicate Listed(groups: seq<set<nat>>, i: nat) {
    exists g :: 0 <= g < |groups| && i in groups[g]
  }

  /** Every group of `fine` lies inside a group of `coarse`. */
  ghost predicate Refines(fine: seq<set<nat>>, coarse: seq<set<nat>>) {
    forall g :: 0 <= g < |fine| ==> Inside(fine[g], coarse)
  }

  ghost predicate Inside(s: set<nat>, coarse: seq<set<nat>>) {
    exists h :: 0 <= h < |coarse| && s <= coarse[h]
  }

  /** A partition whose hulls are pairwise out of reach. */
  ghost predicate Separated(regions: seq<ChangedRegion>, distance: int, groups: seq<set<nat>>) {
    && Partition(groups, |regions|)
    && forall g, h, a, b ::
         (0 <= g < |groups| && 0 <= h < |groups| && g != h
          && IsHull(regions, groups[g], a) && IsHull(regions, groups[h], b))
         ==> !Within(a, b, distance)
  }

  /** Every separated partition keeps each of these groups together. */
  ghost predicate Forced(regions: seq<ChangedRegion>, distance: int, groups: seq<set<nat>>) {
    forall q | Separated(regions, distance, q) :: Refines(groups, q)
  }

  /** Each box is its group's hull and total. */
  ghost predicate Grouping(regions: seq<ChangedRegion>, boxes: seq<ChangedRegion>, groups: seq<set<nat>>) {
    && |boxes| == |groups|
    && Partition(groups, |regions|)
    && forall g :: 0 <= g < |groups| ==> Gathers(regions, groups[g], boxes[g])
  }

  ghost predicate PairwiseApart(boxes: seq<ChangedRegion>, distance: int) {
    forall i, j :: 0 <= i < j < |boxes| ==> !Within(boxes[i].box, boxes[j].box, distance)
  }

  /** `merged` gathers the finest separated partition of `regions` under `groups`. */
  ghost predicate MergedBy(regions: seq<ChangedRegion>, distance: int, merged: seq<ChangedRegion>,
                           groups: seq<set<nat>>) {
    && Grouping(regions, merged, groups)
    && Separated(regions, distance, groups)
    && Forced(regions, distance, groups)
  }

  ghost predicate IsMergeOf(regions: seq<ChangedRegion>, distance: int, merged: seq<ChangedRegion>) {
    exists groups :: MergedBy(regions, distance, merged, groups)
  }

  // ----- One merge step

  /** The list with entry `i` removed and entry `j` replaced by `y`. */
  ghost function Fold<T>(xs: seq<T>, i: nat, j: nat, y: T): seq<T>
    requires i < j < |xs|
  {
    seq(|xs| - 1, k requires 0 <= k < |xs| - 1 => if k == j - 1 then y else xs[if k < i then k else k + 1])
  }

  lemma FoldKeepsPartition(groups: seq<set<nat>>, n: nat, i: nat, j: nat)
    requires Partition(groups, n) && i < j < |groups|
    ensures Partition(Fold(groups, i, j, groups[j] + groups[i]), n)
  {
    var folded := Fold(groups, i, j, groups[j] + groups[i]);
    forall p: nat | p < n
      ensures Listed(folded, p)
    {
      assert Listed(groups, p);
      var g :| 0 <= g < |groups| && p in groups[g];
      if g == i || g == j {
        assert p in folded[j - 1];
      } else if g < i {
        assert p in folded[g];
      } else {
        assert p in folded[g - 1];
      }
    }
  }

  lemma FoldKeepsGrouping(regions: seq<ChangedRegion>, boxes: seq<ChangedRegion>, groups: seq<set<nat>>, i: nat, j: nat)
    requires Grouping(regions, boxes, groups) && i < j < |boxes|
    ensures Grouping(regions, Fold(boxes, i, j, Union(boxes[j], boxes[i])), Fold(groups, i, j, groups[j] + groups[i]))
  {
    hide Gathers, Union;
    FoldKeepsPartition(groups, |regions|, i, j);
    assert groups[i] !! groups[j] by { hide Grouping; PartitionIsDisjoint(groups, |regions|, i, j); }
    GathersUnion(regions, groups[j], boxes[j], groups[i], boxes[i]);
  }

  lemma PartitionIsDisjoint(groups: seq<set<nat>>, n: nat, i: nat, j: nat)
    requires Partition(groups, n) && i < j < |groups|
    ensures groups[i] !! groups[j]
  {
  }

  /** Two groups whose hulls are within reach sit in one group of every separated partition. */
  lemma CloseGroupsStayTogether(regions: seq<ChangedRegion>, distance: int, q: seq<set<nat>>,
                                s: set<nat>, a: Rectangle, t: set<nat>, b: Rectangle)
    requires Separated(regions, distance, q) && Inside(s, q) && Inside(t, q)
    requires IsHull(regions, s, a) && IsHull(regions, t, b) && Within(a, b, distance)
    ensures Inside(s + t, q)
  {
    hide Within, IsHull, Partition;
    var g :| 0 <= g < |q| && s <= q[g];
    var h :| 0 <= h < |q| && t <= q[h];
    if g != h {
      GroupIsUsable(regions, q, g);
      GroupIsUsable(regions, q, h);
      var bigA := HullExists(regions, q[g]);
      var bigB := HullExists(regions, q[h]);
      HullCoversSubgroup(regions, s, a, q[g], bigA.box);
      HullCoversSubgroup(regions, t, b, q[h], bigB.box);
      WithinGrows(a, b, bigA.box, bigB.box, distance);
      assert false;
    }
    assert s + t <= q[g];
  }

  lemma GroupIsUsable(regions: seq<ChangedRegion>, q: seq<set<nat>>, g: nat)
    requires Partition(q, |regions|) && g < |q|
    ensures InRange(regions, q[g]) && q[g] != {}
  {
  }

  lemma FoldKeepsForced(regions: seq<ChangedRegion>, distance: int, boxes: seq<ChangedRegion>, groups: seq<set<nat>>,
                        i: nat, j: nat)
    requires Grouping(regions, boxes, groups) && Forced(regions, distance, groups)
    requires i < j < |boxes| && Within(boxes[j].box, boxes[i].box, distance)
    ensures Forced(regions, distance, Fold(groups, i, j, groups[j] + groups[i]))
  {
    hide Separated, Within, Partition, IsHull, Inside;
    forall q | Separated(regions, distance, q)
      ensures Refines(Fold(groups, i, j, groups[j] + groups[i]), q)
    {
      assert Refines(groups, q);
      CloseGroupsStayTogether(regions, distance, q, groups[j], boxes[j].box, groups[i], boxes[i].box);
    }
  }

  // ----- The loop

  lemma Singletons(regions: seq<ChangedRegion>, distance: int) returns (groups: seq<set<nat>>)
    ensures Grouping(regions, regions, groups) && Forced(regions, distance, groups)
  {
    groups := seq(|regions|, i requires 0 <= i < |regions| => {i});
    forall i: nat | i < |regions|
      ensures Listed(groups, i) && Gathers(regions, groups[i], regions[i])
    {
      GathersOne(regions, i);
      assert i in groups[i];
    }
    assert Partition(groups, |regions|);
    forall q, g | Separated(regions, distance, q) && 0 <= g < |groups|
      ensures Inside(groups[g], q)
    {
      assert Listed(q, g);
    }
  }

  /** When the boxes are pairwise apart, so are the hulls of their groups. */
  lemma ApartIsSeparated(regions: seq<ChangedRegion>, distance: int, boxes: seq<ChangedRegion>, groups: seq<set<nat>>)
    requires Grouping(regions, boxes, groups) && PairwiseApart(boxes, distance)
    ensures Separated(regions, distance, groups)
  {
    hide Within, IsHull, Partition;
    forall g, h, a, b | 0 <= g < |groups| && 0 <= h < |groups| && g != h &&
                        IsHull(regions, groups[g], a) && IsHull(regions, groups[h], b)
      ensures !Within(a, b, distance)
    {
      HullIsUnique(regions, groups[g], a, boxes[g].box);
      HullIsUnique(regions, groups[h], b, boxes[h].box);
      WithinIsSymmetric(boxes[g].box, boxes[h].box, distance);
    }
  }

  /** What a pass has built: `next` merged so far, then `merged`, then the boxes not met yet. */
  ghost predicate PassState(regions: seq<ChangedRegion>, distance: int, boxes: seq<ChangedRegion>,
                            groups: seq<set<nat>>) {
    Grouping(regions, boxes, groups) && Forced(regions, distance, groups)
  }

  lemma PassStep(regions: seq<ChangedRegion>, distance: int, groups: seq<set<nat>>,
                 next: seq<ChangedRegion>, merged: ChangedRegion, rest: seq<ChangedRegion>, i: nat)
    returns (folded: seq<set<nat>>)
    requires PassState(regions, distance, next + [merged] + rest, groups)
    requires i < |next| && Within(merged.box, next[i].box, distance)
    ensures PassState(regions, distance, next[..i] + next[i + 1..] + [Union(merged, next[i])] + rest, folded)
  {
    hide Within, Union, Partition, Gathers, Forced;
    var boxes, j := next + [merged] + rest, |next|;
    assert boxes[i] == next[i] && boxes[j] == merged;
    folded := Fold(groups, i, j, groups[j] + groups[i]);
    FoldKeepsGrouping(regions, boxes, groups, i, j);
    FoldKeepsForced(regions, distance, boxes, groups, i, j);
    assert next[..i] + next[i + 1..] + [Union(merged, next[i])] + rest == Fold(boxes, i, j, Union(boxes[j], boxes[i]));
  }

  lemma ApartAfterRemoval(next: seq<ChangedRegion>, distance: int, i: nat)
    requires PairwiseApart(next, distance) && i < |next|
    ensures PairwiseApart(next[..i] + next[i + 1..], distance)
  {
    hide Within;
  }

  lemma ApartAfterPush(next: seq<ChangedRegion>, merged: ChangedRegion, distance: int)
    requires PairwiseApart(next, distance)
    requires forall i :: 0 <= i < |next| ==> !Within(merged.box, next[i].box, distance)
    ensures PairwiseApart(next + [merged], distance)
  {
    hide Within;
    forall i | 0 <= i < |next|
      ensures !Within(next[i].box, merged.box, distance)
    {
      WithinIsSymmetric(merged.box, next[i].box, distance);
    }
  }

  /** The inner loop of a pass: `region` absorbs everything in `next` that comes within reach. After
      every absorption the widened box is retried from the start of the list. */
  method Absorb(ghost regions: seq<ChangedRegion>, distance: int, passed: seq<ChangedRegion>, region: ChangedRegion,
                ghost rest: seq<ChangedRegion>, ghost groups0: seq<set<nat>>)
    returns (next: seq<ChangedRegion>, merged: ChangedRegion, moved: bool, ghost groups: seq<set<nat>>)
    requires PassState(regions, distance, passed + [region] + rest, groups0)
    requires PairwiseApart(passed, distance)
    ensures PassState(regions, distance, next + [merged] + rest, groups)
    ensures PairwiseApart(next + [merged], distance)
    ensures if moved then |next| < |passed| else next == passed && merged == region
    ensures moved ==> exists i :: 0 <= i < |passed| && Within(region.box, passed[i].box, distance)
  {
    hide Within, Union, PassState, PairwiseApart;
    next, merged, moved, groups := passed, region, false, groups0;
    var index := 0;
    while index < |next|
      invariant 0 <= index <= |next|
      invariant PassState(regions, distance, next + [merged] + rest, groups)
      invariant PairwiseApart(next, distance)
      invariant forall i :: 0 <= i < index ==> !Within(merged.box, next[i].box, distance)
      invariant if moved then |next| < |passed| else next == passed && merged == region
      invariant moved ==> exists i :: 0 <= i < |passed| && Within(region.box, passed[i].box, distance)
      decreases |next|, |next| - index
    {
      var candidate := next[index];
      if Within(merged.box, candidate.box, distance) {
        groups := PassStep(regions, distance, groups, next, merged, rest, index);
        ApartAfterRemoval(next, distance, index);
        merged := Union(merged, candidate);
        next := next[..index] + next[index + 1..];
        moved := true;
        index := 0;
        continue;
      }
      index := index + 1;
    }
    ApartAfterPush(next, merged, distance);
  }

  /** `merge`. The second out-parameter counts the passes: a second one never moves anything, because
      a widened box is retried against everything already passed. */
  method MergeRegions(regions: seq<ChangedRegion>, distance: int)
    returns (current: seq<ChangedRegion>, ghost passes: nat)
    ensures IsMergeOf(regions, distance, current)
    ensures PairwiseApart(current, distance)
    ensures passes <= 2
  {
    hide PassState, PairwiseApart, IsMergeOf;
    current := regions;
    ghost var groups := Singletons(regions, distance);
    PassStateIntro(regions, distance, current, groups);
    var moved := true;
    passes := 0;
    while moved
      invariant PassState(regions, distance, current, groups)
      invariant !moved || passes > 0 ==> PairwiseApart(current, distance)
      invariant passes <= if moved then 1 else 2
      decreases |current|, moved
    {
      current, moved, groups := OnePass(regions, distance, current, groups);
      passes := passes + 1;
    }
    PassStateDone(regions, distance, current, groups);
  }

  lemma NoneApart(distance: int)
    ensures PairwiseApart([], distance)
  {
  }

  lemma NotApart(current: seq<ChangedRegion>, distance: int, k: nat, i: nat)
    requires i < k < |current| && Within(current[k].box, current[i].box, distance)
    ensures !PairwiseApart(current, distance)
  {
    hide Within;
    WithinIsSymmetric(current[k].box, current[i].box, distance);
  }

  lemma OneTaken(next: seq<ChangedRegion>, current: seq<ChangedRegion>, k: nat)
    requires k < |current|
    ensures next + current[k..] == next + [current[k]] + current[k + 1..]
    ensures current[..k] + [current[k]] == current[..k + 1]
  {
  }

  /** The body of the outer loop: meet the current boxes in order, each absorbing what it can. */
  method OnePass(ghost regions: seq<ChangedRegion>, distance: int, current: seq<ChangedRegion>, ghost groups0: seq<set<nat>>)
    returns (next: seq<ChangedRegion>, moved: bool, ghost groups: seq<set<nat>>)
    requires PassState(regions, distance, current, groups0)
    ensures PassState(regions, distance, next, groups)
    ensures PairwiseApart(next, distance)
    ensures if moved then |next| < |current| else next == current
    ensures PairwiseApart(current, distance) ==> !moved
  {
    hide Within, PassState, PairwiseApart;
    next, moved, groups := [], false, groups0;
    NoneApart(distance);
    assert next + current[0..] == current;
    for k := 0 to |current|
      invariant PassState(regions, distance, next + current[k..], groups)
      invariant PairwiseApart(next, distance)
      invariant if moved then |next| < k else next == current[..k]
      invariant PairwiseApart(current, distance) ==> !moved
    {
      OneTaken(next, current, k);
      var kept, merged, absorbed, newGroups := Absorb(regions, distance, next, current[k], current[k + 1..], groups);
      if absorbed && !moved {
        ghost var i :| 0 <= i < |next| && Within(current[k].box, next[i].box, distance);
        NotApart(current, distance, k, i);
      }
      moved := moved || absorbed;
      next := kept + [merged];
      groups := newGroups;
    }
    assert next + current[|current|..] == next;
  }

  lemma PassStateIntro(regions: seq<ChangedRegion>, distance: int, boxes: seq<ChangedRegion>, groups: seq<set<nat>>)
    requires Grouping(regions, boxes, groups) && Forced(regions, distance, groups)
    ensures PassState(regions, distance, boxes, groups)
  {
  }

  lemma PassStateDone(regions: seq<ChangedRegion>, distance: int, boxes: seq<ChangedRegion>, groups: seq<set<nat>>)
    requires PassState(regions, distance, boxes, groups) && PairwiseApart(boxes, distance)
    ensures IsMergeOf(regions, distance, boxes)
  {
    hide Grouping, PairwiseApart, Forced, Separated;
    ApartIsSeparated(regions, distance, boxes, groups);
    assert MergedBy(regions, distance, boxes, groups);
  }
}
