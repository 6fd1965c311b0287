/** The comparison of two captures, from geometry to crops and overlay (src/service/comparison.ts). */
module Compare {
  import opened Boxes
  import opened Image
  import opened Components
  import opened DiffGeometry
  import opened Merge
  import opened Mask
  import opened Regions
  import opened Crops
  import opened Wrappers

  datatype Settings = Settings(minimumRegionArea: nat, maximumRegions: nat, regionMergeDistance: nat, cropPadding: nat)

  datatype Diff = Diff(
    mask: DiffMask,
    changedPixels: nat,
    regions: seq<ChangedRegion>,
    crops: seq<RegionCrops>,
    overlay: RasterImage,
    truncated: bool)

  datatype Outcome = NoDiff(geometry: ReconciledGeometry) | Diffed(diff: Diff) | Thrown

  function Geometry(image: RasterImage): ImageGeometry {
    ImageGeometry(image.width, image.height)
  }

  /** Both crops of one region show the same rectangle of the two captures. */
  ghost predicate CropsOf(earlier: RasterImage, current: RasterImage, height: nat, padding: nat,
                          region: ChangedRegion, crops: RegionCrops)
    reads earlier.data, current.data, crops.before.data, crops.after.data
  {
    var padded := crops.rectangle.padded;
    && crops.rectangle.region == region.box
    && PaddedRectangle(region.box, padding, current.width, height) == Some(crops.rectangle)
    && padded.Covers(region.box) && Fits(padded, current.width, height)
    && CropOf(earlier.data[..], earlier.width, earlier.height, padded, crops.before.data[..])
    && CropOf(current.data[..], current.width, current.height, padded, crops.after.data[..])
  }

  lemma FitsTaller(rectangle: Rectangle, width: nat, height: nat, taller: nat)
    requires Fits(rectangle, width, height) && height <= taller
    ensures Fits(rectangle, width, taller)
  {
  }

  /** Crop every kept region. Nothing is skipped and nothing throws. */
  method CutAll(earlier: RasterImage, current: RasterImage, height: nat, padding: nat, kept: seq<ChangedRegion>)
    returns (crops: seq<RegionCrops>)
    requires earlier.Valid() && current.Valid()
    requires earlier.width == current.width && height <= earlier.height && height <= current.height
    requires forall r | r in kept :: r.box.Inhabited() && Rectangle(0, 0, current.width, height).Covers(r.box)
    ensures |crops| == |kept|
    ensures forall i :: 0 <= i < |crops| ==> fresh(crops[i].before.data) && fresh(crops[i].after.data)
    ensures forall i :: 0 <= i < |crops| ==> CropsOf(earlier, current, height, padding, kept[i], crops[i])
  {
    crops := [];
    for n := 0 to |kept|
      invariant |crops| == n
      invariant forall i :: 0 <= i < n ==> fresh(crops[i].before.data) && fresh(crops[i].after.data)
      invariant forall i :: 0 <= i < n ==> CropsOf(earlier, current, height, padding, kept[i], crops[i])
    {
      hide CropOf, RasterImage.Valid;
      PaddingKeepsRegion(kept[n].box, padding, current.width, height);
      var rectangle := PaddedRectangle(kept[n].box, padding, current.width, height);
      FitsTaller(rectangle.value.padded, current.width, height, earlier.height);
      FitsTaller(rectangle.value.padded, current.width, height, current.height);
      hide PaddedRectangle, Fits, Rectangle.Covers;
      var cut := CutRegionCrops(earlier, current, rectangle.value);
      crops := crops + [cut.value];
    }
  }

  /** What a caller is promised about a diff. */
  ghost predicate GoodDiff(earlier: RasterImage, current: RasterImage, height: nat, settings: Settings,
                           compare: Comparison, diff: Diff)
    reads earlier.data, current.data, diff.overlay.data
  {
    && IsMaskOf(diff.mask, compare, earlier.data[..], current.data[..], current.width, height)
    && diff.changedPixels == compare.count(earlier.data[..][..current.width * height * CHANNELS],
                                           current.data[..][..current.width * height * CHANNELS], current.width, height)
    && |diff.crops| == |diff.regions|
    && (exists all ::
          && Extracted(diff.mask, settings.regionMergeDistance, settings.minimumRegionArea, all)
          && diff.truncated == (|all| > settings.maximumRegions)
          && diff.regions == if diff.truncated then all[..settings.maximumRegions] else all)
    && Painted(current.width, current.height, current.data[..], diff.overlay.data[..], Marked(diff.regions), OUTLINE_COLOUR)
  }

  /** The whole pipeline. It throws for no pair of images: a comparable pair is diffed, with both crops
      of every kept region, and any other pair is answered with its geometry. */
  method RunComparison(earlier: RasterImage, current: RasterImage, kind: CaptureKind, settings: Settings, compare: Comparison)
    returns (outcome: Outcome)
    requires earlier.Valid() && current.Valid()
    ensures !outcome.Thrown?
    ensures var geometry := ReconcileGeometry(Geometry(earlier), Geometry(current), kind);
            && (outcome.NoDiff? <==> !geometry.comparable)
            && (outcome.NoDiff? ==> outcome.geometry == geometry)
            && (outcome.Diffed? ==>
                  var height := geometry.comparableHeight.value;
                  && GoodDiff(earlier, current, height, settings, compare, outcome.diff)
                  && forall i :: 0 <= i < |outcome.diff.crops| ==>
                       CropsOf(earlier, current, height, settings.cropPadding, outcome.diff.regions[i], outcome.diff.crops[i]))
  {
    hide Extracted, CropsOf, Painted, DiffMask.Valid, Marked;
    var geometry := ReconcileGeometry(Geometry(earlier), Geometry(current), kind);
    if !geometry.comparable || geometry.width.None? || geometry.comparableHeight.None? {
      return NoDiff(geometry);
    }
    var height := geometry.comparableHeight.value;
    var computed := ComputeMask(earlier, current, Some(height), compare);
    if computed.Failure? {
      return Thrown;
    }
    var mask := computed.value.mask;
    var all := ExtractRegions(mask, settings.regionMergeDistance, settings.minimumRegionArea);
    ExtractedFits(mask, settings.regionMergeDistance, settings.minimumRegionArea, all);
    var truncated := |all| > settings.maximumRegions;
    var kept := if truncated then all[..settings.maximumRegions] else all;
    var crops := CutAll(earlier, current, height, settings.cropPadding, kept);
    var overlay := DrawOverlay(current, kept);
    outcome := Diffed(Diff(mask, computed.value.changedPixels, kept, crops, overlay, truncated));
  }

  /** Every extracted region is a nonempty box inside the compared area. */
  lemma ExtractedFits(mask: DiffMask, mergeDistance: nat, minimumArea: int, all: seq<ChangedRegion>)
    requires mask.Valid() && Extracted(mask, mergeDistance, minimumArea, all)
    ensures forall r | r in all :: r.box.Inhabited() && Rectangle(0, 0, mask.width, mask.height).Covers(r.box)
  {
    hide Extracted, StrictlyAscending, PixelsIn, SurvivesSizeFilter;
    var _, merged := ExtractionIsSound(mask, mergeDistance, minimumArea, all);
  }

  /** What a reader of a diff sees: the overlay is the current capture, but red in the two outermost rows
      and columns of every reported region. */
  lemma OverlayShows(earlier: RasterImage, current: RasterImage, height: nat, settings: Settings, compare: Comparison, diff: Diff,
                     x: nat, y: nat)
    requires GoodDiff(earlier, current, height, settings, compare, diff) && x < current.width && y < current.height
    ensures |current.data[..]| == |diff.overlay.data[..]| == current.width * current.height * CHANNELS
    ensures Pixel(diff.overlay.data[..], current.width, current.height, x, y)
            == if exists r :: r in diff.regions && InFrame(r.box, x, y) then Colour(255, 0, 0, 255)
               else Pixel(current.data[..], current.width, current.height, x, y)
  {
    hide Pixel, Extracted, Marked, InFrame;
    MarkedMeans(diff.regions, x, y);
  }

  /** Both crops of a region show, at the same place, the same pixel of their own capture. */
  lemma CropsShow(earlier: RasterImage, current: RasterImage, height: nat, padding: nat, region: ChangedRegion, crops: RegionCrops,
                  x: nat, y: nat)
    requires CropsOf(earlier, current, height, padding, region, crops)
    requires x < crops.rectangle.padded.width && y < crops.rectangle.padded.height
    ensures var box := crops.rectangle.padded;
            && Fits(box, earlier.width, earlier.height) && Fits(box, current.width, current.height)
            && |earlier.data[..]| == earlier.width * earlier.height * CHANNELS
            && |current.data[..]| == current.width * current.height * CHANNELS
            && |crops.before.data[..]| == |crops.after.data[..]| == box.width * box.height * CHANNELS
            && Pixel(crops.before.data[..], box.width, box.height, x, y)
               == Pixel(earlier.data[..], earlier.width, earlier.height, box.x + x, box.y + y)
            && Pixel(crops.after.data[..], box.width, box.height, x, y)
               == Pixel(current.data[..], current.width, current.height, box.x + x, box.y + y)
  {
    hide Pixel, PaddedRectangle;
  }

  /** Box `a` comes before box `b` in a list of regions: larger first, then higher up, then further left. */
  ghost predicate Leads(a: Rectangle, b: Rectangle) {
    || a.width * a.height > b.width * b.height
    || (a.width * a.height == b.width * b.height && (a.y < b.y || (a.y == b.y && a.x < b.x)))
  }

  /** The region of a changed pixel that the list does not hold: dropped by the size filter, or cut off
      by the cap behind regions that all come before it. */
  ghost predicate LeftOut(diff: Diff, settings: Settings, merged: seq<ChangedRegion>, r: ChangedRegion) {
    && r in merged && r !in diff.regions
    && (|| !SurvivesSizeFilter(r.box, settings.minimumRegionArea)
        || (diff.truncated && |diff.regions| == settings.maximumRegions
            && forall kept | kept in diff.regions :: Leads(kept.box, r.box)))
  }

  /** Every reported count is a recount of the mask inside the reported box, no pixel is counted twice, the
      list is in order and not longer than allowed, it is called truncated exactly when a region that
      passes the filter is missing from it, and a changed pixel outside every reported region lies in a
      box that was left out for one of the two allowed reasons. */
  ghost predicate TellsTheTruth(diff: Diff, settings: Settings, merged: seq<ChangedRegion>) {
    && |diff.regions| <= settings.maximumRegions
    && (forall r | r in diff.regions ::
          r in merged && SurvivesSizeFilter(r.box, settings.minimumRegionArea)
          && r.changedPixels == |PixelsIn(diff.mask, r.box)|)
    && (diff.truncated <==>
          exists r :: r in merged && SurvivesSizeFilter(r.box, settings.minimumRegionArea) && r !in diff.regions)
    && (forall i, j :: 0 <= i < j < |diff.regions| ==>
          && Leads(diff.regions[i].box, diff.regions[j].box)
          && PixelsIn(diff.mask, diff.regions[i].box) !! PixelsIn(diff.mask, diff.regions[j].box))
    && (forall p | p in diff.mask.ChangedSet() :: exists r: ChangedRegion ::
          p in PixelsIn(diff.mask, r.box) && (r in diff.regions || LeftOut(diff, settings, merged, r)))
  }

  /** What a diff says is true of its mask. The boxes it speaks of are those of the finest partition of the
      mask's components whose hulls are out of reach at the configured distance. */
  lemma DiffIsTrue(earlier: RasterImage, current: RasterImage, height: nat, settings: Settings, compare: Comparison, diff: Diff)
    returns (found: seq<ChangedRegion>, merged: seq<ChangedRegion>)
    requires GoodDiff(earlier, current, height, settings, compare, diff)
    ensures IsComponents(diff.mask, found) && IsMergeOf(found, settings.regionMergeDistance, merged)
    ensures TellsTheTruth(diff, settings, merged)
  {
    var all := ListedFrom(earlier, current, height, settings, compare, diff);
    hide GoodDiff, Extracted, TellsTheTruth, IsComponents, IsMergeOf, PairwiseApart, SoundExtraction;
    found, merged := MergedFrom(diff.mask, settings, all);
    ListIsTrue(diff, settings, merged, all);
  }

  lemma MergedFrom(mask: DiffMask, settings: Settings, all: seq<ChangedRegion>)
    returns (found: seq<ChangedRegion>, merged: seq<ChangedRegion>)
    requires mask.Valid() && Extracted(mask, settings.regionMergeDistance, settings.minimumRegionArea, all)
    ensures IsComponents(mask, found) && IsMergeOf(found, settings.regionMergeDistance, merged)
    ensures SoundExtraction(mask, settings.minimumRegionArea, merged, all)
  {
    hide Extracted, IsComponents, IsMergeOf, PairwiseApart, SoundExtraction;
    found, merged := ExtractionIsSound(mask, settings.regionMergeDistance, settings.minimumRegionArea, all);
  }

  /** The list of a diff is the first regions of some extracted list. */
  ghost predicate Lists(diff: Diff, settings: Settings, all: seq<ChangedRegion>) {
    && diff.truncated == (|all| > settings.maximumRegions)
    && diff.regions == if diff.truncated then all[..settings.maximumRegions] else all
  }

  lemma ListedFrom(earlier: RasterImage, current: RasterImage, height: nat, settings: Settings, compare: Comparison, diff: Diff)
    returns (all: seq<ChangedRegion>)
    requires GoodDiff(earlier, current, height, settings, compare, diff)
    ensures diff.mask.Valid() && Lists(diff, settings, all)
    ensures Extracted(diff.mask, settings.regionMergeDistance, settings.minimumRegionArea, all)
  {
    hide Extracted, Painted, Marked;
    all :| Extracted(diff.mask, settings.regionMergeDistance, settings.minimumRegionArea, all)
           && diff.truncated == (|all| > settings.maximumRegions)
           && diff.regions == if diff.truncated then all[..settings.maximumRegions] else all;
  }

  lemma ListIsTrue(diff: Diff, settings: Settings, merged: seq<ChangedRegion>, all: seq<ChangedRegion>)
    requires SoundExtraction(diff.mask, settings.minimumRegionArea, merged, all) && Lists(diff, settings, all)
    ensures TellsTheTruth(diff, settings, merged)
  {
    hide PixelsIn, SurvivesSizeFilter, Rectangle.Covers, Rectangle.Inhabited, Rectangle.Area, Leads, LeftOut, StrictlyAscending;
    OrderIsLeads(all);
    TruncatedMeansMissing(diff, settings, merged, all);
    forall i, j | 0 <= i < j < |diff.regions|
      ensures PixelsIn(diff.mask, diff.regions[i].box) !! PixelsIn(diff.mask, diff.regions[j].box)
    {
      DistinctBoxesShareNothing(diff.mask, settings.minimumRegionArea, merged, all, i, j);
    }
    forall p | p in diff.mask.ChangedSet()
      ensures exists r: ChangedRegion :: p in PixelsIn(diff.mask, r.box) && (r in diff.regions || LeftOut(diff, settings, merged, r))
    {
      var r := ListedOrLeftOut(diff, settings, merged, all, p);
    }
  }

  lemma ListedOrLeftOut(diff: Diff, settings: Settings, merged: seq<ChangedRegion>, all: seq<ChangedRegion>, p: int)
    returns (r: ChangedRegion)
    requires SoundExtraction(diff.mask, settings.minimumRegionArea, merged, all) && p in diff.mask.ChangedSet()
    requires forall i, j :: 0 <= i < j < |all| ==> Leads(all[i].box, all[j].box)
    requires Lists(diff, settings, all)
    ensures p in PixelsIn(diff.mask, r.box) && (r in diff.regions || LeftOut(diff, settings, merged, r))
  {
    hide PixelsIn, SurvivesSizeFilter, Rectangle.Covers, Rectangle.Inhabited, Leads, StrictlyAscending;
    r :| r in merged && p in PixelsIn(diff.mask, r.box);
    if r !in diff.regions && r in all {
      var k :| 0 <= k < |all| && all[k] == r;
      PrefixHolds(all, settings.maximumRegions, k);
    }
  }

  lemma TruncatedMeansMissing(diff: Diff, settings: Settings, merged: seq<ChangedRegion>, all: seq<ChangedRegion>)
    requires forall r :: r in all <==> r in merged && SurvivesSizeFilter(r.box, settings.minimumRegionArea)
    requires forall i, j :: 0 <= i < j < |all| ==> Leads(all[i].box, all[j].box)
    requires Lists(diff, settings, all)
    ensures diff.truncated <==>
            exists r :: r in merged && SurvivesSizeFilter(r.box, settings.minimumRegionArea) && r !in diff.regions
  {
    hide SurvivesSizeFilter;
    if diff.truncated {
      var r := all[settings.maximumRegions];
      assert r in all;
      forall i | 0 <= i < |diff.regions|
        ensures diff.regions[i] != r
      {
        assert Leads(all[i].box, r.box);
        LeadsIsIrreflexive(r.box);
      }
    }
  }

  lemma LeadsIsIrreflexive(a: Rectangle)
    ensures !Leads(a, a)
  {
  }

  lemma PrefixHolds(all: seq<ChangedRegion>, n: nat, k: nat)
    requires k < |all|
    ensures k < n <= |all| ==> all[k] in all[..n]
  {
    if k < n <= |all| {
      assert all[..n][k] == all[k];
    }
  }

  lemma OrderIsLeads(all: seq<ChangedRegion>)
    requires StrictlyAscending(all)
    ensures forall i, j :: 0 <= i < j < |all| ==> Leads(all[i].box, all[j].box)
  {
    hide Before;
    forall i, j | 0 <= i < j < |all|
      ensures Leads(all[i].box, all[j].box)
    {
      OrderInCoordinates(all, i, j);
    }
  }

  lemma DistinctBoxesShareNothing(mask: DiffMask, minimumArea: int, merged: seq<ChangedRegion>, all: seq<ChangedRegion>,
                                  i: nat, j: nat)
    requires SoundExtraction(mask, minimumArea, merged, all) && i < j < |all|
    ensures PixelsIn(mask, all[i].box) !! PixelsIn(mask, all[j].box)
  {
    hide PixelsIn, SurvivesSizeFilter, Rectangle.Covers, Rectangle.Inhabited, Compare;
    var r, s := all[i], all[j];
    assert r in all && s in all;
    assert Before(r, s);
    BeforeIsTransitive(r, r, r);
    OtherBoxOtherPixels(mask, merged, r, s);
  }

  lemma OtherBoxOtherPixels(mask: DiffMask, merged: seq<ChangedRegion>, r: ChangedRegion, s: ChangedRegion)
    requires AccountsForMask(mask, merged) && r in merged && s in merged && r != s
    ensures PixelsIn(mask, r.box) !! PixelsIn(mask, s.box)
  {
    hide Rectangle.Covers, Rectangle.Inhabited, InBox;
  }
}
