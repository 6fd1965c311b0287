/** The merge result is a property of the multiset of boxes: it does not depend on the order in which
    the boxes are listed. */
module MergeOrder {
  import opened Boxes
  import opened Merge

  // ----- Two merges of one list

  /** Two partitions that refine each other have the same groups. */
  lemma MutualRefinement(n: nat, g1: seq<set<nat>>, g2: seq<set<nat>>, i: nat) returns (j: nat)
    requires Partition(g1, n) && Refines(g1, g2) && Refines(g2, g1) && i < |g1|
    ensures j < |g2| && g1[i] == g2[j]
  {
    assert Inside(g1[i], g2);
    j :| 0 <= j < |g2| && g1[i] <= g2[j];
    assert Inside(g2[j], g1);
    var k :| 0 <= k < |g1| && g2[j] <= g1[k];
    var p :| p in g1[i];
    assert p in g1[k];
    assert k == i;
  }

  /** Two finest separated partitions gather the same boxes. */
  lemma FinestGroupIsShared(regions: seq<ChangedRegion>, distance: int, m1: seq<ChangedRegion>, g1: seq<set<nat>>,
                            m2: seq<ChangedRegion>, g2: seq<set<nat>>, i: nat)
    returns (j: nat)
    requires MergedBy(regions, distance, m1, g1) && MergedBy(regions, distance, m2, g2) && i < |g1|
    ensures j < |g2| && g1[i] == g2[j] && m1[i] == m2[j]
  {
    hide Separated, IsHull, Total, Partition, Refines;
    j := MutualRefinement(|regions|, g1, g2, i);
    assert Gathers(regions, g1[i], m1[i]) && Gathers(regions, g2[j], m2[j]);
    HullIsUnique(regions, g1[i], m1[i].box, m2[j].box);
  }

  ghost predicate NoDuplicates<T>(xs: seq<T>) {
    forall i, j :: 0 <= i < j < |xs| ==> xs[i] != xs[j]
  }

  lemma {:induction false} CountOfDistinct<T>(xs: seq<T>, x: T)
    requires NoDuplicates(xs)
    ensures multiset(xs)[x] == if x in xs then 1 else 0
  {
    if |xs| > 0 {
      var front, last := xs[..|xs| - 1], xs[|xs| - 1];
      assert xs == front + [last];
      assert last !in front;
      CountOfDistinct(front, x);
    }
  }

  lemma SameMembersSameMultiset<T>(xs: seq<T>, ys: seq<T>)
    requires NoDuplicates(xs) && NoDuplicates(ys)
    requires forall x :: x in xs <==> x in ys
    ensures multiset(xs) == multiset(ys)
  {
    forall x
      ensures multiset(xs)[x] == multiset(ys)[x]
    {
      CountOfDistinct(xs, x);
      CountOfDistinct(ys, x);
    }
  }

  /** A box is within any nonnegative distance of itself, so boxes that are apart are distinct. */
  lemma ApartAreDistinct(boxes: seq<ChangedRegion>, distance: int)
    requires distance >= 0 && PairwiseApart(boxes, distance)
    requires forall r | r in boxes :: r.box.width >= 0 && r.box.height >= 0
    ensures NoDuplicates(boxes)
  {
  }

  predicate NonNegative(regions: seq<ChangedRegion>) {
    forall r | r in regions :: r.box.width >= 0 && r.box.height >= 0
  }

  /** Hulls of boxes with nonnegative sides have nonnegative sides. */
  lemma MergedIsNonNegative(regions: seq<ChangedRegion>, merged: seq<ChangedRegion>, groups: seq<set<nat>>)
    requires Grouping(regions, merged, groups) && NonNegative(regions)
    ensures NonNegative(merged)
  {
    hide Partition, Total;
    forall r | r in merged
      ensures r.box.width >= 0 && r.box.height >= 0
    {
      var g :| 0 <= g < |merged| && merged[g] == r;
      assert Gathers(regions, groups[g], r);
      var i :| i in groups[g] && regions[i].box.x == r.box.x;
      assert r.box.Covers(regions[i].box) && regions[i] in regions;
    }
  }

  lemma MergedIsApart(regions: seq<ChangedRegion>, distance: int, merged: seq<ChangedRegion>, groups: seq<set<nat>>)
    requires MergedBy(regions, distance, merged, groups)
    ensures PairwiseApart(merged, distance)
  {
    hide IsHull, Total, Within, Partition, Forced;
    forall i, j | 0 <= i < j < |merged|
      ensures !Within(merged[i].box, merged[j].box, distance)
    {
      assert IsHull(regions, groups[i], merged[i].box) && IsHull(regions, groups[j], merged[j].box);
    }
  }

  lemma MergedIsDistinct(regions: seq<ChangedRegion>, distance: nat, merged: seq<ChangedRegion>, groups: seq<set<nat>>)
    requires MergedBy(regions, distance, merged, groups) && NonNegative(regions)
    ensures NoDuplicates(merged)
  {
    hide Partition, Gathers, Separated, Forced;
    MergedIsNonNegative(regions, merged, groups);
    MergedIsApart(regions, distance, merged, groups);
    ApartAreDistinct(merged, distance);
  }

  lemma MergeIsUnique(regions: seq<ChangedRegion>, distance: nat, m1: seq<ChangedRegion>, g1: seq<set<nat>>,
                      m2: seq<ChangedRegion>, g2: seq<set<nat>>)
    requires MergedBy(regions, distance, m1, g1) && MergedBy(regions, distance, m2, g2) && NonNegative(regions)
    ensures multiset(m1) == multiset(m2)
  {
    MergedIsDistinct(regions, distance, m1, g1);
    MergedIsDistinct(regions, distance, m2, g2);
    hide NoDuplicates, Partition, Gathers, Separated, Forced, NonNegative;
    forall i | 0 <= i < |m1|
      ensures m1[i] in m2
    {
      var j := FinestGroupIsShared(regions, distance, m1, g1, m2, g2, i);
    }
    forall i | 0 <= i < |m2|
      ensures m2[i] in m1
    {
      var j := FinestGroupIsShared(regions, distance, m2, g2, m1, g1, i);
    }
    SameMembersSameMultiset(m1, m2);
  }

  // ----- Reordering the input

  /** `b` lists the boxes of `a` in the order `f`, and `g` undoes `f`. */
  ghost predicate Aligned(a: seq<ChangedRegion>, b: seq<ChangedRegion>, f: seq<nat>, g: seq<nat>) {
    && |a| == |b| == |f| == |g|
    && (forall i :: 0 <= i < |b| ==> f[i] < |a| && g[f[i]] == i && b[i] == a[f[i]])
    && (forall i :: 0 <= i < |a| ==> g[i] < |b| && f[g[i]] == i && a[i] == b[g[i]])
  }

  ghost function Without(a: seq<ChangedRegion>, k: nat): (r: seq<ChangedRegion>)
    requires k < |a|
    ensures |r| == |a| - 1
    ensures forall i :: 0 <= i < |r| ==> r[i] == a[if i < k then i else i + 1]
  {
    a[..k] + a[k + 1..]
  }

  lemma WithoutOne(a: seq<ChangedRegion>, b: seq<ChangedRegion>) returns (k: nat)
    requires multiset(a) == multiset(b) && |b| > 0
    ensures |a| == |b| && k < |a| && a[k] == b[|b| - 1]
    ensures multiset(Without(a, k)) == multiset(b[..|b| - 1])
  {
    assert |multiset(a)| == |multiset(b)|;
    var last := b[|b| - 1];
    assert b == b[..|b| - 1] + [last];
    assert last in multiset(a);
    k :| 0 <= k < |a| && a[k] == last;
    assert a == a[..k] + [last] + a[k + 1..];
    assert multiset(a) == multiset(Without(a, k)) + multiset{last};
    assert multiset(Without(a, k)) == multiset(a) - multiset{last};
  }

  lemma {:induction false} Matching(a: seq<ChangedRegion>, b: seq<ChangedRegion>) returns (f: seq<nat>, g: seq<nat>)
    requires multiset(a) == multiset(b)
    ensures Aligned(a, b, f, g)
  {
    if |b| == 0 {
      assert |multiset(a)| == 0;
      f, g := [], [];
    } else {
      var k := WithoutOne(a, b);
      var f', g' := Matching(Without(a, k), b[..|b| - 1]);
      f, g := Extend(a, b, k, f', g');
    }
  }

  lemma Extend(a: seq<ChangedRegion>, b: seq<ChangedRegion>, k: nat, f': seq<nat>, g': seq<nat>)
    returns (f: seq<nat>, g: seq<nat>)
    requires 0 < |b| == |a| && k < |a| && a[k] == b[|b| - 1]
    requires Aligned(Without(a, k), b[..|b| - 1], f', g')
    ensures Aligned(a, b, f, g)
  {
    var n := |b| - 1;
    f := seq(|b|, i requires 0 <= i < |b| => if i == n then k else if f'[i] < k then f'[i] else f'[i] + 1);
    g := seq(|a|, i requires 0 <= i < |a| => if i == k then n else if i < k then g'[i] else g'[i - 1]);
    forall i | 0 <= i < |b|
      ensures f[i] < |a| && g[f[i]] == i && b[i] == a[f[i]]
    {
      if i < n {
        assert b[..n][i] == Without(a, k)[f'[i]];
      }
    }
    forall i | 0 <= i < |a|
      ensures g[i] < |b| && f[g[i]] == i && a[i] == b[g[i]]
    {
      if i != k {
        var j := if i < k then i else i - 1;
        assert Without(a, k)[j] == b[..n][g'[j]];
      }
    }
  }

  ghost function Image(s: set<nat>, f: seq<nat>): set<nat>
    requires forall i | i in s :: i < |f|
  {
    set i | i in s :: f[i]
  }

  ghost predicate Usable(groups: seq<set<nat>>, n: nat) {
    forall h, i :: 0 <= h < |groups| && i in groups[h] ==> i < n
  }

  ghost function Images(groups: seq<set<nat>>, f: seq<nat>): (r: seq<set<nat>>)
    requires Usable(groups, |f|)
    ensures |r| == |groups| && forall h :: 0 <= h < |r| ==> r[h] == Image(groups[h], f)
  {
    seq(|groups|, h requires 0 <= h < |groups| => Image(groups[h], f))
  }

  lemma ImageKeepsHull(a: seq<ChangedRegion>, b: seq<ChangedRegion>, f: seq<nat>, g: seq<nat>, s: set<nat>, box: Rectangle)
    requires Aligned(a, b, f, g) && InRange(b, s) && IsHull(b, s, box)
    ensures IsHull(a, Image(s, f), box)
  {
    var t := Image(s, f);
    var l :| l in s && b[l].box.x == box.x;
    var u :| u in s && b[u].box.y == box.y;
    var r :| r in s && b[r].box.Right() == box.Right();
    var d :| d in s && b[d].box.Bottom() == box.Bottom();
    assert f[l] in t && f[u] in t && f[r] in t && f[d] in t;
  }

  lemma ImageBack(a: seq<ChangedRegion>, b: seq<ChangedRegion>, f: seq<nat>, g: seq<nat>, s: set<nat>)
    requires Aligned(a, b, f, g) && InRange(b, s)
    ensures InRange(a, Image(s, f)) && Image(Image(s, f), g) == s
  {
    forall i | i in s
      ensures i in Image(Image(s, f), g)
    {
      assert f[i] in Image(s, f);
      assert g[f[i]] in Image(Image(s, f), g);
    }
  }

  lemma {:induction false} ImageKeepsTotal(a: seq<ChangedRegion>, b: seq<ChangedRegion>, f: seq<nat>, g: seq<nat>, s: set<nat>)
    requires Aligned(a, b, f, g) && InRange(b, s)
    ensures InRange(a, Image(s, f)) && Total(a, Image(s, f)) == Total(b, s)
  {
    if s == {} {
      assert Image(s, f) == {};
    } else {
      var i :| i in s;
      TotalWithout(b, s, i);
      ImageKeepsTotal(a, b, f, g, s - {i});
      assert f[i] in Image(s, f);
      TotalWithout(a, Image(s, f), f[i]);
      assert Image(s, f) - {f[i]} == Image(s - {i}, f);
    }
  }

  lemma ImageKeepsPartition(a: seq<ChangedRegion>, b: seq<ChangedRegion>, f: seq<nat>, g: seq<nat>, groups: seq<set<nat>>)
    requires Aligned(a, b, f, g) && Partition(groups, |b|)
    ensures Partition(Images(groups, f), |a|)
  {
    var images := Images(groups, f);
    forall h | 0 <= h < |images|
      ensures images[h] != {}
    {
      var i :| i in groups[h];
      assert f[i] in images[h];
    }
    forall i: nat | i < |a|
      ensures Listed(images, i)
    {
      assert Listed(groups, g[i]);
      var h :| 0 <= h < |groups| && g[i] in groups[h];
      assert f[g[i]] in images[h];
    }
    forall h, k, i | 0 <= h < |images| && 0 <= k < |images| && i in images[h] && i in images[k]
      ensures h == k
    {
      assert g[i] in groups[h] && g[i] in groups[k];
    }
  }

  lemma ImageKeepsSeparated(a: seq<ChangedRegion>, b: seq<ChangedRegion>, f: seq<nat>, g: seq<nat>,
                            distance: int, groups: seq<set<nat>>)
    requires Aligned(a, b, f, g) && Separated(b, distance, groups)
    ensures Usable(groups, |f|) && Separated(a, distance, Images(groups, f))
  {
    hide IsHull, Within, Image;
    ImageKeepsPartition(a, b, f, g, groups);
    var images := Images(groups, f);
    forall h, k, boxA, boxB | 0 <= h < |images| && 0 <= k < |images| && h != k
                              && IsHull(a, images[h], boxA) && IsHull(a, images[k], boxB)
      ensures !Within(boxA, boxB, distance)
    {
      ImageBack(a, b, f, g, groups[h]);
      ImageBack(a, b, f, g, groups[k]);
      ImageKeepsHull(b, a, g, f, images[h], boxA);
      ImageKeepsHull(b, a, g, f, images[k], boxB);
    }
  }

  lemma ImageKeepsMerge(a: seq<ChangedRegion>, b: seq<ChangedRegion>, f: seq<nat>, g: seq<nat>,
                        distance: int, merged: seq<ChangedRegion>, groups: seq<set<nat>>)
    requires Aligned(a, b, f, g) && MergedBy(b, distance, merged, groups)
    ensures Usable(groups, |f|) && MergedBy(a, distance, merged, Images(groups, f))
  {
    hide IsHull, Within, Image, Total, Separated;
    ImageKeepsPartition(a, b, f, g, groups);
    ImageKeepsSeparated(a, b, f, g, distance, groups);
    var images := Images(groups, f);
    forall h | 0 <= h < |images|
      ensures Gathers(a, images[h], merged[h])
    {
      assert Gathers(b, groups[h], merged[h]);
      ImageKeepsHull(a, b, f, g, groups[h], merged[h].box);
      ImageKeepsTotal(a, b, f, g, groups[h]);
    }
    forall q | Separated(a, distance, q)
      ensures Refines(images, q)
    {
      ImageKeepsSeparated(b, a, g, f, distance, q);
      var back := Images(q, g);
      assert Refines(groups, back);
      forall h | 0 <= h < |images|
        ensures Inside(images[h], q)
      {
        assert Inside(groups[h], back);
        var k :| 0 <= k < |back| && groups[h] <= back[k];
        ImageBack(b, a, g, f, q[k]);
        ImageGrows(groups[h], back[k], f);
      }
    }
  }

  lemma ImageGrows(s: set<nat>, t: set<nat>, f: seq<nat>)
    requires s <= t && forall i | i in t :: i < |f|
    ensures Image(s, f) <= Image(t, f)
  {
  }

  /** Merging is confluent: however the same boxes are listed, the same merged boxes come out, with
      the same summed counts. */
  lemma MergeIgnoresOrder(a: seq<ChangedRegion>, b: seq<ChangedRegion>, distance: nat,
                          mergedA: seq<ChangedRegion>, mergedB: seq<ChangedRegion>)
    requires multiset(a) == multiset(b) && NonNegative(a)
    requires IsMergeOf(a, distance, mergedA) && IsMergeOf(b, distance, mergedB)
    ensures multiset(mergedA) == multiset(mergedB)
  {
    hide MergedBy;
    var groupsA :| MergedBy(a, distance, mergedA, groupsA);
    var groupsB :| MergedBy(b, distance, mergedB, groupsB);
    var f, g := Matching(a, b);
    ImageKeepsMerge(a, b, f, g, distance, mergedB, groupsB);
    MergeIsUnique(a, distance, mergedA, groupsA, mergedB, Images(groupsB, f));
  }
}
