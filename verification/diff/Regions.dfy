/** Changed-region extraction (`extractRegions` in src/diff/regions.ts): components, merged at a
    distance, filtered on area with a thin-line allowance, ordered largest first. */
module Regions {
  import opened Arithmetic
  import opened Boxes
  import opened Components
  import opened Merge
  import opened MergeOrder

  const THIN_LINE_ASPECT_RATIO := 6
  const THIN_LINE_MAXIMUM_THICKNESS := 4

  predicate IsThinLine(region: Rectangle) {
    var thickness := Min(region.width, region.height);
    var length := Max(region.width, region.height);
    thickness <= THIN_LINE_MAXIMUM_THICKNESS && length >= thickness * THIN_LINE_ASPECT_RATIO
  }

  predicate SurvivesSizeFilter(region: Rectangle, minimumArea: int) {
    region.width * region.height >= minimumArea || IsThinLine(region)
  }

  /** What the thin-line allowance means: one side is at most four pixels and the other at least six times
      as long, whichever way round. */
  lemma ThinLineMeans(region: Rectangle)
    requires region.Inhabited()
    ensures IsThinLine(region) <==>
            exists t :: 1 <= t <= 4 && ((region.width == t && region.height >= 6 * t)
                                        || (region.height == t && region.width >= 6 * t))
    ensures IsThinLine(region) <==> IsThinLine(Rectangle(region.y, region.x, region.height, region.width))
  {
    if IsThinLine(region) {
      var t := Min(region.width, region.height);
      assert (region.width == t && region.height >= 6 * t) || (region.height == t && region.width >= 6 * t);
    }
  }

  /** The filter never discards for being thin: a box is discarded exactly when it is below the minimum
      area and, if one of its sides is at most four pixels, the other is less than six times that. A line
      one pixel thick survives from six pixels on, whatever the minimum. */
  lemma DiscardedIsSmallAndStubby(region: Rectangle, minimumArea: int)
    requires region.Inhabited()
    ensures !SurvivesSizeFilter(region, minimumArea) <==>
              && region.Area() < minimumArea
              && (Min(region.width, region.height) <= 4 ==>
                    Max(region.width, region.height) < 6 * Min(region.width, region.height))
    ensures Min(region.width, region.height) == 1 && Max(region.width, region.height) >= 6 ==>
              SurvivesSizeFilter(region, minimumArea)
  {
  }

  function Survivors(merged: seq<ChangedRegion>, minimumArea: int): seq<ChangedRegion> {
    if merged == [] then []
    else Survivors(merged[..|merged| - 1], minimumArea)
         + if SurvivesSizeFilter(merged[|merged| - 1].box, minimumArea) then [merged[|merged| - 1]] else []
  }

  // ----- The order

  /** The sort comparator: negative when `a` comes first. */
  function Compare(a: ChangedRegion, b: ChangedRegion): int {
    var byArea := b.box.Area() - a.box.Area();
    if byArea != 0 then byArea
    else if a.box.y != b.box.y then a.box.y - b.box.y
    else a.box.x - b.box.x
  }

  predicate Before(a: ChangedRegion, b: ChangedRegion) {
    Compare(a, b) < 0
  }

  ghost predicate Ascending(xs: seq<ChangedRegion>) {
    forall i, j :: 0 <= i < j < |xs| ==> !Before(xs[j], xs[i])
  }

  ghost predicate StrictlyAscending(xs: seq<ChangedRegion>) {
    forall i, j :: 0 <= i < j < |xs| ==> Before(xs[i], xs[j])
  }

  /** Among boxes that are apart the comparator is a strict total order: larger first, then higher up,
      then further left; it never ties, is antisymmetric, and is transitive on any boxes at all. */
  lemma CompareIsStrictTotalOrder(a: ChangedRegion, b: ChangedRegion, c: ChangedRegion, distance: nat)
    requires a.box.Inhabited() && b.box.Inhabited()
    requires !Within(a.box, b.box, distance)
    ensures Compare(a, b) != 0
    ensures Before(a, b) <==>
            || a.box.Area() > b.box.Area()
            || (a.box.Area() == b.box.Area() && a.box.y < b.box.y)
            || (a.box.Area() == b.box.Area() && a.box.y == b.box.y && a.box.x < b.box.x)
    ensures Before(a, b) <==> !Before(b, a)
    ensures Before(a, b) && Before(b, c) ==> Before(a, c)
  {
    hide Rectangle.Area;
  }

  lemma BeforeIsTransitive(a: ChangedRegion, b: ChangedRegion, c: ChangedRegion)
    ensures Before(a, b) && Before(b, c) ==> Before(a, c)
    ensures !Before(b, a) && !Before(c, b) ==> !Before(c, a)
    ensures !Before(a, a)
    ensures Before(a, b) ==> !Before(b, a)
  {
    hide Rectangle.Area;
  }

  /** The list sort, by insertion. The callers below rely on nothing but its contract, and
      `ExtractionIsDetermined` shows that no other sorting algorithm could give another list. */
  method SortRegions(kept: seq<ChangedRegion>) returns (sorted: seq<ChangedRegion>)
    ensures multiset(sorted) == multiset(kept)
    ensures Ascending(sorted)
  {
    hide Before;
    sorted := [];
    for n := 0 to |kept|
      invariant multiset(sorted) == multiset(kept[..n])
      invariant Ascending(sorted)
    {
      sorted := Insert(sorted, kept[n]);
      assert kept[..n + 1] == kept[..n] + [kept[n]];
    }
    assert kept[..|kept|] == kept;
  }

  method Insert(xs: seq<ChangedRegion>, x: ChangedRegion) returns (r: seq<ChangedRegion>)
    requires Ascending(xs)
    ensures multiset(r) == multiset(xs) + multiset{x}
    ensures Ascending(r)
  {
    hide Before;
    var at := |xs|;
    while at > 0 && Before(x, xs[at - 1])
      invariant 0 <= at <= |xs|
      invariant forall k :: at <= k < |xs| ==> Before(x, xs[k])
    {
      at := at - 1;
    }
    assert xs == xs[..at] + xs[at..];
    r := xs[..at] + [x] + xs[at..];
    InsertedIsAscending(xs, x, at);
  }

  lemma InsertedIsAscending(xs: seq<ChangedRegion>, x: ChangedRegion, at: nat)
    requires Ascending(xs) && at <= |xs|
    requires forall k :: at <= k < |xs| ==> Before(x, xs[k])
    requires at > 0 ==> !Before(x, xs[at - 1])
    ensures Ascending(xs[..at] + [x] + xs[at..])
  {
    hide Before;
    var r := xs[..at] + [x] + xs[at..];
    forall i, j | 0 <= i < j < |r|
      ensures !Before(r[j], r[i])
    {
      if i == at {
        BeforeIsTransitive(x, xs[j - 1], x);
      } else if j == at {
        BeforeIsTransitive(xs[i], xs[at - 1], x);
      }
    }
  }

  // ----- What was extracted

  ghost predicate ExtractedVia(mask: DiffMask, mergeDistance: nat, minimumArea: int, out: seq<ChangedRegion>,
                               found: seq<ChangedRegion>, merged: seq<ChangedRegion>) {
    && IsComponents(mask, found)
    && IsMergeOf(found, mergeDistance, merged)
    && multiset(out) == multiset(Survivors(merged, minimumArea))
    && Ascending(out)
  }

  ghost predicate Extracted(mask: DiffMask, mergeDistance: nat, minimumArea: int, out: seq<ChangedRegion>) {
    exists found, merged :: ExtractedVia(mask, mergeDistance, minimumArea, out, found, merged)
  }

  method ExtractRegions(mask: DiffMask, mergeDistance: nat, minimumArea: int) returns (out: seq<ChangedRegion>)
    requires mask.Valid()
    ensures Extracted(mask, mergeDistance, minimumArea, out)
    ensures forall i, j :: 0 <= i < j < |out| ==>
              var a, b := out[i].box, out[j].box;
              || a.width * a.height > b.width * b.height
              || (a.width * a.height == b.width * b.height && (a.y < b.y || (a.y == b.y && a.x < b.x)))
  {
    hide IsComponents, IsMergeOf, PairwiseApart, Survivors, Ascending;
    var found := FindComponents(mask);
    var merged, _ := MergeRegions(found, mergeDistance);
    var kept := Survivors(merged, minimumArea);
    out := SortRegions(kept);
    assert ExtractedVia(mask, mergeDistance, minimumArea, out, found, merged);
    ghost var _, _ := ExtractionIsSound(mask, mergeDistance, minimumArea, out);
  }

  // ----- The merged boxes account for the mask

  ghost function PixelsIn(mask: DiffMask, box: Rectangle): set<int> {
    set p | 0 <= p < |mask.changed| && mask.changed[p] && mask.width > 0 && InBox(mask, p, box)
  }

  /** Each box is tight around its own piece of the changed pixels, and counts it. */
  ghost predicate Tiles(mask: DiffMask, found: seq<ChangedRegion>, pieces: seq<set<int>>) {
    && |found| == |pieces|
    && (forall i :: 0 <= i < |found| ==> BoundsPixels(mask, found[i].box, pieces[i]))
    && (forall i :: 0 <= i < |found| ==> found[i].changedPixels == |pieces[i]|)
    && (forall i :: 0 <= i < |pieces| ==> pieces[i] <= mask.ChangedSet())
    && (forall p | p in mask.ChangedSet() :: exists i :: 0 <= i < |pieces| && p in pieces[i])
    && (forall i, j :: 0 <= i < j < |pieces| ==> pieces[i] !! pieces[j])
  }

  lemma ComponentsTile(mask: DiffMask, found: seq<ChangedRegion>) returns (pieces: seq<set<int>>)
    requires mask.Valid() && IsComponents(mask, found)
    ensures Tiles(mask, found, pieces)
  {
    hide Component, Seeds, BoundsPixels;
    var seeds := Seeds(mask, |mask.changed|);
    pieces := seq(|seeds|, i requires 0 <= i < |seeds| => Component(mask, seeds[i]));
    forall i | 0 <= i < |found|
      ensures BoundsPixels(mask, found[i].box, pieces[i]) && found[i].changedPixels == |pieces[i]|
      ensures pieces[i] <= mask.ChangedSet()
    {
      assert pieces[i] == Component(mask, seeds[i]);
      ComponentIsChanged(mask, seeds[i]);
    }
    forall p | p in mask.ChangedSet()
      ensures exists i :: 0 <= i < |pieces| && p in pieces[i]
    {
      var i := ComponentHolding(mask, p);
      assert p in pieces[i];
    }
    forall i, j | 0 <= i < j < |pieces|
      ensures pieces[i] !! pieces[j]
    {
      ComponentsAreApart(mask, i, j);
    }
  }

  lemma TilesFit(mask: DiffMask, found: seq<ChangedRegion>, pieces: seq<set<int>>)
    requires mask.Valid() && Tiles(mask, found, pieces)
    ensures forall r | r in found :: r.box.Inhabited() && Rectangle(0, 0, mask.width, mask.height).Covers(r.box)
  {
    hide BoundsPixels;
    forall i | 0 <= i < |found| {
      ComponentBoxFits(mask, found[i].box, pieces[i]);
    }
  }

  ghost function GroupPixels(mask: DiffMask, pieces: seq<set<int>>, s: set<nat>): set<int> {
    set p | 0 <= p < |mask.changed| && mask.changed[p] && exists i :: i in s && i < |pieces| && p in pieces[i]
  }

  lemma GroupPixelsStep(mask: DiffMask, pieces: seq<set<int>>, s: set<nat>, i: nat)
    requires i in s && i < |pieces| && pieces[i] <= mask.ChangedSet()
    requires forall i, j :: 0 <= i < j < |pieces| ==> pieces[i] !! pieces[j]
    ensures GroupPixels(mask, pieces, s) == GroupPixels(mask, pieces, s - {i}) + pieces[i]
    ensures GroupPixels(mask, pieces, s - {i}) !! pieces[i]
  {
  }

  lemma {:induction false} GroupPixelsCount(mask: DiffMask, found: seq<ChangedRegion>, pieces: seq<set<int>>, s: set<nat>)
    requires Tiles(mask, found, pieces) && InRange(found, s)
    ensures |GroupPixels(mask, pieces, s)| == Total(found, s)
  {
    hide BoundsPixels;
    if s == {} {
      assert GroupPixels(mask, pieces, s) == {};
    } else {
      hide GroupPixels, Total;
      var i :| i in s;
      TotalWithout(found, s, i);
      GroupPixelsCount(mask, found, pieces, s - {i});
      GroupPixelsStep(mask, pieces, s, i);
    }
  }

  ghost function Everyone(found: seq<ChangedRegion>): (s: set<nat>)
    ensures InRange(found, s)
  {
    set i: nat {:trigger found[i]} | i < |found|
  }

  /** Over all components, the counts add up to the number of changed pixels. */
  lemma ComponentCountsAddUp(mask: DiffMask, found: seq<ChangedRegion>)
    requires mask.Valid() && IsComponents(mask, found)
    ensures Total(found, Everyone(found)) == |mask.ChangedSet()|
  {
    hide IsComponents, BoundsPixels;
    var pieces := ComponentsTile(mask, found);
    var all := Everyone(found);
    GroupPixelsCount(mask, found, pieces, all);
    assert GroupPixels(mask, pieces, all) == mask.ChangedSet();
  }

  lemma SharedPixelIsWithin(mask: DiffMask, p: int, a: Rectangle, b: Rectangle, distance: nat)
    requires mask.width > 0 && InBox(mask, p, a) && InBox(mask, p, b)
    ensures Within(a, b, distance)
  {
    hide Column, Row;
  }

  lemma CoveredPixel(mask: DiffMask, p: int, outer: Rectangle, inner: Rectangle)
    requires mask.width > 0 && outer.Covers(inner) && InBox(mask, p, inner)
    ensures InBox(mask, p, outer)
  {
    hide Column, Row;
  }

  /** A pixel of a piece lies in the merged box of its group. */
  lemma PieceInMergedBox(mask: DiffMask, found: seq<ChangedRegion>, pieces: seq<set<int>>,
                         merged: seq<ChangedRegion>, groups: seq<set<nat>>, g: nat, i: nat, p: int)
    requires Tiles(mask, found, pieces) && Grouping(found, merged, groups)
    requires g < |groups| && i in groups[g] && i < |pieces| && p in pieces[i]
    ensures p in PixelsIn(mask, merged[g].box)
  {
    hide Column, Row, Total, Partition;
    assert Gathers(found, groups[g], merged[g]);
    assert BoundsPixels(mask, found[i].box, pieces[i]);
    CoveredPixel(mask, p, merged[g].box, found[i].box);
    assert p in mask.ChangedSet();
  }

  /** The changed pixels inside a merged box are exactly those of the pieces gathered into it. */
  lemma MergedBoxPixels(mask: DiffMask, distance: nat, found: seq<ChangedRegion>, pieces: seq<set<int>>,
                        merged: seq<ChangedRegion>, groups: seq<set<nat>>, g: nat)
    requires Tiles(mask, found, pieces) && MergedBy(found, distance, merged, groups) && g < |groups|
    ensures PixelsIn(mask, merged[g].box) == GroupPixels(mask, pieces, groups[g])
  {
    hide BoundsPixels, InBox, Within, Gathers, Separated, Forced, PairwiseApart;
    MergedIsApart(found, distance, merged, groups);
    forall p | p in PixelsIn(mask, merged[g].box)
      ensures p in GroupPixels(mask, pieces, groups[g])
    {
      assert p in mask.ChangedSet();
      var i: nat :| i < |pieces| && p in pieces[i];
      assert Listed(groups, i);
      var h :| 0 <= h < |groups| && i in groups[h];
      if h != g {
        PieceInMergedBox(mask, found, pieces, merged, groups, h, i, p);
        SharedPixelIsWithin(mask, p, merged[g].box, merged[h].box, distance);
        ApartTwo(merged, distance, g, h);
        assert false;
      }
    }
    forall p | p in GroupPixels(mask, pieces, groups[g])
      ensures p in PixelsIn(mask, merged[g].box)
    {
      var i :| i in groups[g] && i < |pieces| && p in pieces[i];
      PieceInMergedBox(mask, found, pieces, merged, groups, g, i, p);
    }
  }

  lemma ApartTwo(boxes: seq<ChangedRegion>, distance: int, g: nat, h: nat)
    requires PairwiseApart(boxes, distance) && g < |boxes| && h < |boxes| && g != h
    ensures !Within(boxes[g].box, boxes[h].box, distance)
  {
    hide Within;
    WithinIsSymmetric(boxes[g].box, boxes[h].box, distance);
  }

  /** What the merged boxes say about the mask: every box is a nonempty box inside the picture whose
      summed count is a recount of the mask inside it, and every changed pixel lies in exactly one box. */
  ghost predicate AccountsForMask(mask: DiffMask, merged: seq<ChangedRegion>) {
    && (forall r | r in merged ::
          r.box.Inhabited() && Rectangle(0, 0, mask.width, mask.height).Covers(r.box))
    && (forall r | r in merged :: r.changedPixels == |PixelsIn(mask, r.box)|)
    && (forall p | p in mask.ChangedSet() :: exists r :: r in merged && p in PixelsIn(mask, r.box))
    && (forall p, r, s | r in merged && s in merged && p in PixelsIn(mask, r.box) && p in PixelsIn(mask, s.box) ::
          r == s)
  }

  lemma MergedBoxFits(found: seq<ChangedRegion>, merged: seq<ChangedRegion>, groups: seq<set<nat>>, g: nat, frame: Rectangle)
    requires Grouping(found, merged, groups) && g < |merged|
    requires forall r | r in found :: r.box.Inhabited() && frame.Covers(r.box)
    ensures merged[g].box.Inhabited() && frame.Covers(merged[g].box)
  {
    hide Total, Partition;
    var s, box := groups[g], merged[g].box;
    assert Gathers(found, s, merged[g]);
    var l :| l in s && found[l].box.x == box.x;
    var u :| u in s && found[u].box.y == box.y;
    var r :| r in s && found[r].box.Right() == box.Right();
    var d :| d in s && found[d].box.Bottom() == box.Bottom();
    assert found[l] in found && found[u] in found && found[r] in found && found[d] in found;
    assert box.Covers(found[l].box) && box.Covers(found[u].box);
  }

  lemma SummedCountsAreExact(mask: DiffMask, distance: nat, found: seq<ChangedRegion>, merged: seq<ChangedRegion>)
    requires mask.Valid() && IsComponents(mask, found) && IsMergeOf(found, distance, merged)
    ensures AccountsForMask(mask, merged)
    ensures PairwiseApart(merged, distance)
  {
    hide IsComponents, InBox, BoundsPixels, Within, Separated, Forced, PairwiseApart, IsHull, Total, Rectangle.Covers, Rectangle.Inhabited;
    var pieces := ComponentsTile(mask, found);
    var groups :| MergedBy(found, distance, merged, groups);
    TilesFit(mask, found, pieces);
    MergedIsApart(found, distance, merged, groups);
    var frame := Rectangle(0, 0, mask.width, mask.height);
    forall g | 0 <= g < |merged|
      ensures merged[g].box.Inhabited() && frame.Covers(merged[g].box)
      ensures merged[g].changedPixels == |PixelsIn(mask, merged[g].box)|
    {
      MergedBoxFits(found, merged, groups, g, frame);
      MergedBoxPixels(mask, distance, found, pieces, merged, groups, g);
      assert Gathers(found, groups[g], merged[g]);
      GroupIsUsable(found, groups, g);
      GroupPixelsCount(mask, found, pieces, groups[g]);
    }
    forall p | p in mask.ChangedSet()
      ensures exists r :: r in merged && p in PixelsIn(mask, r.box)
    {
      var i: nat :| i < |pieces| && p in pieces[i];
      assert Listed(groups, i);
      var g :| 0 <= g < |groups| && i in groups[g];
      PieceInMergedBox(mask, found, pieces, merged, groups, g, i, p);
      assert merged[g] in merged;
    }
    forall p, r, s | r in merged && s in merged && p in PixelsIn(mask, r.box) && p in PixelsIn(mask, s.box)
      ensures r == s
    {
      var g :| 0 <= g < |merged| && merged[g] == r;
      var h :| 0 <= h < |merged| && merged[h] == s;
      if g != h {
        SharedPixelIsWithin(mask, p, r.box, s.box, distance);
        ApartTwo(merged, distance, g, h);
      }
    }
  }

  // ----- The extracted list

  lemma {:induction false} SurvivorsAre(merged: seq<ChangedRegion>, minimumArea: int, r: ChangedRegion)
    ensures multiset(Survivors(merged, minimumArea))[r]
         == if SurvivesSizeFilter(r.box, minimumArea) then multiset(merged)[r] else 0
  {
    if merged != [] {
      var front, last := merged[..|merged| - 1], merged[|merged| - 1];
      assert merged == front + [last];
      SurvivorsAre(front, minimumArea, r);
    }
  }

  /** The list holds a merged box exactly when it survives the filter, each once. */
  lemma ExtractedMembers(merged: seq<ChangedRegion>, minimumArea: int, out: seq<ChangedRegion>, r: ChangedRegion)
    requires multiset(out) == multiset(Survivors(merged, minimumArea))
    ensures r in out <==> r in merged && SurvivesSizeFilter(r.box, minimumArea)
  {
    hide SurvivesSizeFilter, Survivors;
    SurvivorsAre(merged, minimumArea, r);
    assert r in out <==> multiset(out)[r] > 0;
    assert r in merged <==> multiset(merged)[r] > 0;
  }

  /** The extracted list, as a caller sees it. */
  ghost predicate SoundExtraction(mask: DiffMask, minimumArea: int, merged: seq<ChangedRegion>, out: seq<ChangedRegion>) {
    && AccountsForMask(mask, merged)
    && (forall r :: r in out <==> r in merged && SurvivesSizeFilter(r.box, minimumArea))
    && StrictlyAscending(out)
  }

  /** The list is ordered by area downwards, then by row and then by column upwards, and no two of its
      boxes agree in all three. */
  lemma OrderInCoordinates(out: seq<ChangedRegion>, i: nat, j: nat)
    requires StrictlyAscending(out) && i < j < |out|
    ensures var a, b := out[i].box, out[j].box;
            || a.width * a.height > b.width * b.height
            || (a.width * a.height == b.width * b.height && (a.y < b.y || (a.y == b.y && a.x < b.x)))
  {
    assert Before(out[i], out[j]);
  }

  lemma ExtractionIsSound(mask: DiffMask, mergeDistance: nat, minimumArea: int, out: seq<ChangedRegion>)
    returns (found: seq<ChangedRegion>, merged: seq<ChangedRegion>)
    requires mask.Valid() && Extracted(mask, mergeDistance, minimumArea, out)
    ensures IsComponents(mask, found) && IsMergeOf(found, mergeDistance, merged) && PairwiseApart(merged, mergeDistance)
    ensures SoundExtraction(mask, minimumArea, merged, out)
    ensures forall i, j :: 0 <= i < j < |out| ==>
              var a, b := out[i].box, out[j].box;
              || a.width * a.height > b.width * b.height
              || (a.width * a.height == b.width * b.height && (a.y < b.y || (a.y == b.y && a.x < b.x)))
  {
    hide IsComponents, IsMergeOf, PairwiseApart, Survivors, SurvivesSizeFilter, Ascending, PixelsIn, Rectangle.Covers, Rectangle.Inhabited;
    found, merged :| ExtractedVia(mask, mergeDistance, minimumArea, out, found, merged);
    SummedCountsAreExact(mask, mergeDistance, found, merged);
    forall r
      ensures r in out <==> r in merged && SurvivesSizeFilter(r.box, minimumArea)
    {
      ExtractedMembers(merged, minimumArea, out, r);
    }
    StrictFromApart(mergeDistance, minimumArea, merged, out);
    hide StrictlyAscending;
    forall i, j | 0 <= i < j < |out|
      ensures var a, b := out[i].box, out[j].box;
              || a.width * a.height > b.width * b.height
              || (a.width * a.height == b.width * b.height && (a.y < b.y || (a.y == b.y && a.x < b.x)))
    {
      OrderInCoordinates(out, i, j);
    }
  }

  lemma StrictFromApart(distance: nat, minimumArea: int, merged: seq<ChangedRegion>, out: seq<ChangedRegion>)
    requires PairwiseApart(merged, distance) && forall r | r in merged :: r.box.Inhabited()
    requires multiset(out) == multiset(Survivors(merged, minimumArea)) && Ascending(out)
    ensures StrictlyAscending(out)
  {
    hide Survivors, SurvivesSizeFilter, Compare, Within;
    ApartAreDistinct(merged, distance) by { hide Before; }
    forall i, j | 0 <= i < j < |out|
      ensures Before(out[i], out[j])
    {
      ExtractedMembers(merged, minimumArea, out, out[i]);
      ExtractedMembers(merged, minimumArea, out, out[j]);
      var g :| 0 <= g < |merged| && merged[g] == out[i];
      var h :| 0 <= h < |merged| && merged[h] == out[j];
      if g == h {
        TwiceInOut(merged, minimumArea, out, i, j);
        assert false;
      }
      ApartTwo(merged, distance, g, h);
      CompareIsStrictTotalOrder(out[i], out[j], out[j], distance);
    }
  }

  lemma TwiceInOut(merged: seq<ChangedRegion>, minimumArea: int, out: seq<ChangedRegion>, i: nat, j: nat)
    requires i < j < |out| && out[i] == out[j]
    requires multiset(out) == multiset(Survivors(merged, minimumArea))
    ensures !NoDuplicates(merged)
  {
    hide Survivors, SurvivesSizeFilter;
    var r := out[i];
    assert out == out[..i] + [r] + out[i + 1..j] + [r] + out[j + 1..];
    assert multiset(out)[r] >= 2;
    SurvivorsAre(merged, minimumArea, r);
    if NoDuplicates(merged) {
      CountOfDistinct(merged, r);
    }
  }

  lemma SameHead(xs: seq<ChangedRegion>, ys: seq<ChangedRegion>)
    requires StrictlyAscending(xs) && StrictlyAscending(ys) && multiset(xs) == multiset(ys) && xs != []
    ensures ys != [] && xs[0] == ys[0]
  {
    hide Before;
    assert xs[0] in multiset(ys);
    assert ys[0] in multiset(xs);
    var j :| 0 <= j < |ys| && ys[j] == xs[0];
    var i :| 0 <= i < |xs| && xs[i] == ys[0];
    BeforeIsTransitive(xs[0], ys[0], xs[0]);
  }

  lemma TailMultiset(xs: seq<ChangedRegion>)
    requires xs != []
    ensures multiset(xs[1..]) == multiset(xs) - multiset{xs[0]}
  {
    assert xs == [xs[0]] + xs[1..];
  }

  lemma {:induction false} AscendingIsUnique(xs: seq<ChangedRegion>, ys: seq<ChangedRegion>)
    requires StrictlyAscending(xs) && StrictlyAscending(ys) && multiset(xs) == multiset(ys)
    ensures xs == ys
  {
    hide Before;
    if xs == [] {
      assert |multiset(ys)| == 0;
    } else {
      SameHead(xs, ys);
      TailMultiset(xs);
      TailMultiset(ys);
      AscendingIsUnique(xs[1..], ys[1..]);
      assert xs == [xs[0]] + xs[1..] && ys == [ys[0]] + ys[1..];
    }
  }

  /** The extracted list is a function of the mask and the two options. */
  lemma ExtractionIsDetermined(mask: DiffMask, mergeDistance: nat, minimumArea: int,
                               out1: seq<ChangedRegion>, out2: seq<ChangedRegion>)
    requires mask.Valid()
    requires Extracted(mask, mergeDistance, minimumArea, out1) && Extracted(mask, mergeDistance, minimumArea, out2)
    ensures out1 == out2
  {
    hide IsComponents, IsMergeOf, PairwiseApart, Survivors, SurvivesSizeFilter, Ascending, StrictlyAscending, PixelsIn, Rectangle.Covers;
    var found1, merged1 :| ExtractedVia(mask, mergeDistance, minimumArea, out1, found1, merged1);
    var found2, merged2 :| ExtractedVia(mask, mergeDistance, minimumArea, out2, found2, merged2);
    ComponentsAreDetermined(mask, found1, found2);
    var pieces := ComponentsTile(mask, found1);
    TilesFit(mask, found1, pieces);
    MergeIgnoresOrder(found1, found1, mergeDistance, merged1, merged2);
    SummedCountsAreExact(mask, mergeDistance, found1, merged1);
    SummedCountsAreExact(mask, mergeDistance, found1, merged2);
    StrictFromApart(mergeDistance, minimumArea, merged1, out1);
    StrictFromApart(mergeDistance, minimumArea, merged2, out2);
    forall r: ChangedRegion
      ensures multiset(out1)[r] == multiset(out2)[r]
    {
      SurvivorsAre(merged1, minimumArea, r);
      SurvivorsAre(merged2, minimumArea, r);
    }
    assert multiset(out1) == multiset(out2);
    AscendingIsUnique(out1, out2);
  }
}
