/** Cutting the crops and drawing the overlay (src/diff/crops.ts). */
module Crops {
  import opened Boxes
  import opened Image
  import opened Wrappers

  const OUTLINE_COLOUR := Colour(255, 0, 0, 255)
  const OUTLINE_THICKNESS := 2.0

  datatype CropRectangle = CropRectangle(region: Rectangle, padded: Rectangle)

  function PaddedRectangle(region: Rectangle, padding: int, comparableWidth: int, comparableHeight: int): Option<CropRectangle> {
    var grown := Rectangle(region.x - padding, region.y - padding, region.width + padding * 2, region.height + padding * 2);
    var padded := ClampToImage(grown, comparableWidth, comparableHeight);
    if padded.None? then None else Some(CropRectangle(region, padded.value))
  }

  /** A region of the compared area always gets a crop rectangle. It contains the region, stays inside
      the compared area, and holds exactly the pixels of that area within `padding` of the region. */
  lemma PaddingKeepsRegion(region: Rectangle, padding: nat, width: nat, height: nat)
    requires region.Inhabited() && Rectangle(0, 0, width, height).Covers(region)
    ensures var r := PaddedRectangle(region, padding, width, height);
            && r.Some? && r.value.region == region
            && r.value.padded.Covers(region)
            && Fits(r.value.padded, width, height)
            && forall x, y :: r.value.padded.Holds(x, y) <==>
                  && 0 <= x < width && 0 <= y < height
                  && exists px, py :: region.Holds(px, py) && PixelsClose(x, y, px, py, padding)
  {
    var grown := Rectangle(region.x - padding, region.y - padding, region.width + padding * 2, region.height + padding * 2);
    ClampIsIntersection(grown, width, height);
    assert grown.Holds(region.x, region.y) && Rectangle(0, 0, width, height).Holds(region.x, region.y);
    var padded := PaddedRectangle(region, padding, width, height).value.padded;
    FitsMeansInside(padded, width, height);
    forall x, y
      ensures padded.Holds(x, y) <==>
              && 0 <= x < width && 0 <= y < height
              && exists px, py :: region.Holds(px, py) && PixelsClose(x, y, px, py, padding)
    {
      if padded.Holds(x, y) {
        var p := Nearest(region, x, y);
        assert region.Holds(p.0, p.1) && PixelsClose(x, y, p.0, p.1, padding);
      }
    }
  }

  datatype RegionCrops = RegionCrops(rectangle: CropRectangle, before: RasterImage, after: RasterImage)

  /** `cutRegionCrops`: both crops come from one rectangle. */
  method CutRegionCrops(earlier: RasterImage, current: RasterImage, rectangle: CropRectangle)
    returns (crops: Result<RegionCrops>)
    requires earlier.Valid() && current.Valid()
    ensures crops.Success? <==>
            && Fits(rectangle.padded, earlier.width, earlier.height)
            && Fits(rectangle.padded, current.width, current.height)
    ensures crops.Success? ==>
              && crops.value.rectangle == rectangle
              && fresh(crops.value.before.data) && fresh(crops.value.after.data)
              && CropOf(earlier.data[..], earlier.width, earlier.height, rectangle.padded, crops.value.before.data[..])
              && CropOf(current.data[..], current.width, current.height, rectangle.padded, crops.value.after.data[..])
  {
    var before := Crop(earlier, rectangle.padded);
    if before.Failure? {
      return Failure(before.error);
    }
    var after := Crop(current, rectangle.padded);
    if after.Failure? {
      return Failure(after.error);
    }
    crops := Success(RegionCrops(rectangle, before.value, after.value));
  }

  /** Every pixel within two pixels of a side of some region, inside that region. */
  ghost function Marked(regions: seq<ChangedRegion>): iset<(int, int)> {
    iset p: (int, int) | IsMarked(regions, p)
  }

  ghost predicate IsMarked(regions: seq<ChangedRegion>, p: (int, int)) {
    exists i :: 0 <= i < |regions| && p in Outline(regions[i].box, 2)
  }

  /** In coordinates: inside some region, in the two outermost rows or columns of it. */
  lemma MarkedMeans(regions: seq<ChangedRegion>, x: int, y: int)
    ensures (x, y) in Marked(regions) <==> exists r :: r in regions && InFrame(r.box, x, y)
    ensures forall box: Rectangle :: InFrame(box, x, y) <==>
              && box.x <= x < box.x + box.width && box.y <= y < box.y + box.height
              && (x < box.x + 2 || x >= box.x + box.width - 2 || y < box.y + 2 || y >= box.y + box.height - 2)
  {
    if r :| r in regions && InFrame(r.box, x, y) {
      var i :| 0 <= i < |regions| && regions[i] == r;
      assert (x, y) in Outline(regions[i].box, 2);
    }
  }

  ghost predicate InFrame(box: Rectangle, x: int, y: int) {
    (x, y) in Outline(box, 2)
  }

  lemma MarkedOneMore(regions: seq<ChangedRegion>, n: nat)
    requires n < |regions|
    ensures Marked(regions[..n + 1]) == Marked(regions[..n]) + Outline(regions[n].box, 2)
  {
    hide Outline;
    var more := regions[..n + 1];
    forall p: (int, int)
      ensures p in Marked(more) <==> p in Marked(regions[..n]) + Outline(regions[n].box, 2)
    {
      if p in Marked(regions[..n]) {
        var i :| 0 <= i < n && p in Outline(regions[..n][i].box, 2);
        assert p in Outline(more[i].box, 2);
      }
      if p in Outline(regions[n].box, 2) {
        assert p in Outline(more[n].box, 2);
      }
      if p in Marked(more) {
        var i :| 0 <= i < n + 1 && p in Outline(more[i].box, 2);
        if i < n {
          assert p in Outline(regions[..n][i].box, 2);
        }
      }
    }
  }

  /** `drawOverlay`: a new picture that differs from the capture exactly on the marked pixels, which
      all carry the outline colour. The capture itself is not written. */
  method DrawOverlay(current: RasterImage, regions: seq<ChangedRegion>) returns (overlay: RasterImage)
    requires current.Valid()
    ensures fresh(overlay.data) && overlay.Valid()
    ensures overlay.width == current.width && overlay.height == current.height
    ensures Painted(current.width, current.height, current.data[..], overlay.data[..], Marked(regions), OUTLINE_COLOUR)
    ensures OUTLINE_COLOUR == Colour(255, 0, 0, 255)
  {
    overlay := CopyImage(current);
    ghost var start := current.data[..];
    assert Marked(regions[..0]) == iset{};
    PaintedNothing(current.width, current.height, start, Marked(regions[..0]), OUTLINE_COLOUR);
    hide Painted, Outline, Marked;
    for n := 0 to |regions|
      invariant overlay.data.Length == current.data.Length && current.data[..] == start
      invariant Painted(current.width, current.height, start, overlay.data[..], Marked(regions[..n]), OUTLINE_COLOUR)
    {
      ghost var before := overlay.data[..];
      OutlineRectangle(overlay, regions[n].box, OUTLINE_COLOUR, OUTLINE_THICKNESS);
      PaintedTwice(current.width, current.height, start, before, overlay.data[..],
                   Marked(regions[..n]), Outline(regions[n].box, 2), OUTLINE_COLOUR);
      MarkedOneMore(regions, n);
    }
    assert regions[..|regions|] == regions;
  }
}
