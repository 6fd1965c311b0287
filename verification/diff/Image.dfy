/** Decoded images: clamping, cropping and outlining (src/diff/image.ts). Four bytes a pixel,
    row-major from the top left. */
module Image {
  import opened Arithmetic
  import opened Boxes
  import opened Wrappers

  const CHANNELS := 4

  type byte = b: int | 0 <= b < 256

  datatype Colour = Colour(red: byte, green: byte, blue: byte, alpha: byte)

  /** The pixel buffer is shared and written in place, so it is an array. */
  datatype RasterImage = RasterImage(width: nat, height: nat, data: array<byte>) {
    ghost predicate Valid() {
      data.Length == width * height * CHANNELS
    }
  }

  // ----- Where a pixel lives

  function At(width: int, x: int, y: int): int {
    (y * width + x) * CHANNELS
  }

  lemma AtFits(width: int, height: int, x: int, y: int)
    requires 0 <= x < width && 0 <= y < height
    ensures 0 <= At(width, x, y) && At(width, x, y) + CHANNELS <= width * height * CHANNELS
  {
    MulLe(0, y, width);
    MulLe(y + 1, height, width);
    assert (y + 1) * width == y * width + width;
  }

  /** Different pixels share no byte. */
  lemma AtApart(width: int, x: int, y: int, x': int, y': int)
    requires 0 <= x < width && 0 <= x' < width && (x, y) != (x', y')
    ensures At(width, x, y) + CHANNELS <= At(width, x', y') || At(width, x', y') + CHANNELS <= At(width, x, y)
  {
    if y < y' {
      MulLe(y + 1, y', width);
      assert (y + 1) * width == y * width + width;
    } else if y' < y {
      MulLe(y' + 1, y, width);
      assert (y' + 1) * width == y' * width + width;
    }
  }

  ghost function PixelAt(data: seq<byte>, at: int): Colour
    requires 0 <= at && at + CHANNELS <= |data|
  {
    Colour(data[at], data[at + 1], data[at + 2], data[at + 3])
  }

  /** The pixel in column `x` and row `y` of a `width` by `height` picture. */
  ghost function Pixel(data: seq<byte>, width: nat, height: nat, x: int, y: int): Colour
    requires |data| == width * height * CHANNELS
    requires 0 <= x < width && 0 <= y < height
  {
    AtFits(width, height, x, y);
    PixelAt(data, At(width, x, y))
  }

  // ----- Clamping

  function ClampToImage(rectangle: Rectangle, width: int, height: int): Option<Rectangle> {
    var left := Max(0, Min(rectangle.x, width));
    var top := Max(0, Min(rectangle.y, height));
    var right := Min(width, rectangle.x + rectangle.width);
    var bottom := Min(height, rectangle.y + rectangle.height);
    if right <= left || bottom <= top then None else Some(Rectangle(left, top, right - left, bottom - top))
  }

  /** Clamping is intersection with the image: the result holds exactly the pixels that both hold, and
      there is no result exactly when they share none. */
  lemma ClampIsIntersection(rectangle: Rectangle, width: nat, height: nat)
    ensures var clamped := ClampToImage(rectangle, width, height);
            var frame := Rectangle(0, 0, width, height);
            && (clamped.None? <==> !exists x, y :: rectangle.Holds(x, y) && frame.Holds(x, y))
            && (clamped.Some? ==>
                  && clamped.value.Inhabited() && frame.Covers(clamped.value)
                  && forall x, y :: clamped.value.Holds(x, y) <==> rectangle.Holds(x, y) && frame.Holds(x, y))
  {
    var clamped := ClampToImage(rectangle, width, height);
    if clamped.Some? {
      var c := clamped.value;
      assert rectangle.Holds(c.x, c.y) && Rectangle(0, 0, width, height).Holds(c.x, c.y);
    }
  }

  // ----- Cropping

  predicate Fits(rectangle: Rectangle, width: int, height: int) {
    !(|| rectangle.x < 0
      || rectangle.y < 0
      || rectangle.x + rectangle.width > width
      || rectangle.y + rectangle.height > height
      || rectangle.width <= 0
      || rectangle.height <= 0)
  }

  lemma FitsMeansInside(rectangle: Rectangle, width: nat, height: nat)
    ensures Fits(rectangle, width, height) <==>
            rectangle.Inhabited() && Rectangle(0, 0, width, height).Covers(rectangle)
  {
  }

  /** `out` is the picture inside `rectangle`, pixel for pixel. */
  ghost predicate CropOf(source: seq<byte>, width: nat, height: nat, rectangle: Rectangle, out: seq<byte>) {
    && |source| == width * height * CHANNELS
    && Fits(rectangle, width, height)
    && |out| == rectangle.width * rectangle.height * CHANNELS
    && forall x, y :: 0 <= x < rectangle.width && 0 <= y < rectangle.height ==>
                        Pixel(out, rectangle.width, rectangle.height, x, y)
                        == Pixel(source, width, height, rectangle.x + x, rectangle.y + y)
  }

  /** The first `rows` rows of the crop are in place. */
  ghost predicate RowsCopied(source: seq<byte>, width: nat, height: nat, rectangle: Rectangle, out: seq<byte>, rows: int) {
    && |source| == width * height * CHANNELS
    && Fits(rectangle, width, height)
    && |out| == rectangle.width * rectangle.height * CHANNELS
    && forall x, y :: 0 <= x < rectangle.width && 0 <= y < rows && y < rectangle.height ==>
                        Pixel(out, rectangle.width, rectangle.height, x, y)
                        == Pixel(source, width, height, rectangle.x + x, rectangle.y + y)
  }

  /** Writing one row's bytes puts that row in place and leaves the rows above it. */
  lemma RowCopy(source: seq<byte>, width: nat, height: nat, rectangle: Rectangle, before: seq<byte>, after: seq<byte>, row: nat)
    requires RowsCopied(source, width, height, rectangle, before, row) && row < rectangle.height
    requires |after| == |before|
    requires var to, from, n := At(rectangle.width, 0, row), At(width, rectangle.x, rectangle.y + row), rectangle.width * CHANNELS;
             && 0 <= to && to + n <= |after| && 0 <= from && from + n <= |source|
             && after == before[..to] + source[from..from + n] + before[to + n..]
    ensures RowsCopied(source, width, height, rectangle, after, row + 1)
  {
    var w, to, from := rectangle.width, At(rectangle.width, 0, row), At(width, rectangle.x, rectangle.y + row);
    forall x, y | 0 <= x < w && 0 <= y < row + 1 && y < rectangle.height
      ensures Pixel(after, w, rectangle.height, x, y)
              == Pixel(source, width, height, rectangle.x + x, rectangle.y + y)
    {
      AtFits(w, rectangle.height, x, y);
      AtFits(width, height, rectangle.x + x, rectangle.y + y);
      if y == row {
        assert At(w, x, row) == to + x * CHANNELS;
        assert At(width, rectangle.x + x, rectangle.y + row) == from + x * CHANNELS;
        SpliceInside(before, source, to, from, w * CHANNELS, x * CHANNELS, after);
      } else {
        AtApart(w, w - 1, y, 0, row);
        MulLe(y + 1, row, w);
        assert (y + 1) * w == y * w + w;
        SpliceBefore(before, source, to, from, w * CHANNELS, At(w, x, y), after);
        assert Pixel(before, w, rectangle.height, x, y)
            == Pixel(source, width, height, rectangle.x + x, rectangle.y + y);
      }
    }
  }

  lemma SpliceInside(before: seq<byte>, source: seq<byte>, to: int, from: int, n: int, k: int, after: seq<byte>)
    requires 0 <= to && 0 <= k && k + CHANNELS <= n && to + n <= |before| && 0 <= from && from + n <= |source|
    requires after == before[..to] + source[from..from + n] + before[to + n..]
    ensures PixelAt(after, to + k) == PixelAt(source, from + k)
  {
    var mid := source[from..from + n];
    assert forall i :: 0 <= i < n ==> after[to + i] == mid[i] == source[from + i];
  }

  lemma SpliceBefore(before: seq<byte>, source: seq<byte>, to: int, from: int, n: int, k: int, after: seq<byte>)
    requires 0 <= k && k + CHANNELS <= to && 0 <= n && to + n <= |before| && 0 <= from && from + n <= |source|
    requires after == before[..to] + source[from..from + n] + before[to + n..]
    ensures PixelAt(after, k) == PixelAt(before, k)
  {
    assert forall i :: 0 <= i < to ==> after[i] == before[i];
  }

  lemma RowBounds(width: nat, height: nat, rectangle: Rectangle, row: nat)
    requires Fits(rectangle, width, height) && row < rectangle.height
    ensures 0 <= At(rectangle.width, 0, row)
    ensures At(rectangle.width, 0, row) + rectangle.width * CHANNELS <= rectangle.width * rectangle.height * CHANNELS
    ensures 0 <= At(width, rectangle.x, rectangle.y + row)
    ensures At(width, rectangle.x, rectangle.y + row) + rectangle.width * CHANNELS <= width * height * CHANNELS
  {
    AtFits(rectangle.width, rectangle.height, 0, row);
    AtFits(rectangle.width, rectangle.height, rectangle.width - 1, row);
    AtFits(width, height, rectangle.x, rectangle.y + row);
    AtFits(width, height, rectangle.x + rectangle.width - 1, rectangle.y + row);
  }

  /** `to.set(from.subarray(start, start + n), at)`: copy a run of bytes. */
  method CopyRun(from: array<byte>, start: int, n: int, to: array<byte>, at: int)
    requires 0 <= start && 0 <= n && start + n <= from.Length && 0 <= at && at + n <= to.Length && from != to
    modifies to
    ensures to[..] == old(to[..at]) + from[start..start + n] + old(to[at + n..])
  {
    for i := 0 to n
      invariant forall k :: at <= k < at + i ==> to[k] == from[start + (k - at)]
      invariant forall k :: 0 <= k < to.Length && (k < at || at + i <= k) ==> to[k] == old(to[k])
    {
      to[at + i] := from[start + i];
    }
  }

  /** `crop`: refused exactly when the rectangle is empty or leaves the image. */
  method Crop(image: RasterImage, rectangle: Rectangle) returns (out: Result<RasterImage>)
    requires image.Valid()
    ensures out.Success? <==> Fits(rectangle, image.width, image.height)
    ensures out.Success? ==>
              && fresh(out.value.data) && out.value.Valid()
              && out.value.width == rectangle.width && out.value.height == rectangle.height
              && CropOf(image.data[..], image.width, image.height, rectangle, out.value.data[..])
  {
    if !Fits(rectangle, image.width, image.height) {
      return Failure("crop does not fit");
    }
    hide At, Pixel;
    var width, height: nat := rectangle.width, rectangle.height;
    MulLe(0, width, height);
    var data := new byte[width * height * CHANNELS](_ => 0);
    for row := 0 to height
      invariant RowsCopied(image.data[..], image.width, image.height, rectangle, data[..], row)
    {
      RowBounds(image.width, image.height, rectangle, row);
      ghost var before := data[..];
      CopyRun(image.data, At(image.width, rectangle.x, rectangle.y + row), width * CHANNELS, data, At(width, 0, row));
      RowCopy(image.data[..], image.width, image.height, rectangle, before, data[..], row);
    }
    out := Success(RasterImage(width, height, data));
  }

  // ----- Drawing

  /** `after` is `before` with exactly the pixels of `painted` that lie in the picture set to `colour`. */
  ghost predicate Painted(width: nat, height: nat, before: seq<byte>, after: seq<byte>,
                          painted: iset<(int, int)>, colour: Colour) {
    && |before| == |after| == width * height * CHANNELS
    && forall x, y :: 0 <= x < width && 0 <= y < height ==>
                        Pixel(after, width, height, x, y)
                        == if (x, y) in painted then colour else Pixel(before, width, height, x, y)
  }

  lemma PaintedNothing(width: nat, height: nat, data: seq<byte>, painted: iset<(int, int)>, colour: Colour)
    requires |data| == width * height * CHANNELS
    requires forall x, y | (x, y) in painted :: !(0 <= x < width && 0 <= y < height)
    ensures Painted(width, height, data, data, painted, colour)
  {
  }

  lemma PaintedTwice(width: nat, height: nat, a: seq<byte>, b: seq<byte>, c: seq<byte>,
                     first: iset<(int, int)>, second: iset<(int, int)>, colour: Colour)
    requires Painted(width, height, a, b, first, colour) && Painted(width, height, b, c, second, colour)
    ensures Painted(width, height, a, c, first + second, colour)
  {
    hide Pixel;
  }

  lemma PaintedOne(width: nat, height: nat, before: seq<byte>, after: seq<byte>, x: int, y: int, colour: Colour)
    requires 0 <= x < width && 0 <= y < height && |before| == |after| == width * height * CHANNELS
    requires 0 <= At(width, x, y) && At(width, x, y) + CHANNELS <= |before|
    requires PixelAt(after, At(width, x, y)) == colour
    requires forall k :: 0 <= k < |before| && !(At(width, x, y) <= k < At(width, x, y) + CHANNELS) ==> after[k] == before[k]
    ensures Painted(width, height, before, after, iset{(x, y)}, colour)
  {
    hide At;
    forall x', y' | 0 <= x' < width && 0 <= y' < height
      ensures Pixel(after, width, height, x', y')
              == if (x', y') in iset{(x, y)} then colour else Pixel(before, width, height, x', y')
    {
      AtFits(width, height, x', y');
      if (x', y') != (x, y) {
        AtApart(width, x, y, x', y');
      }
    }
  }

  /** `setPixel`: anything outside the image is ignored. */
  method SetPixel(image: RasterImage, x: int, y: int, colour: Colour)
    requires image.Valid()
    modifies image.data
    ensures Painted(image.width, image.height, old(image.data[..]), image.data[..], iset{(x, y)}, colour)
  {
    if x < 0 || y < 0 || x >= image.width || y >= image.height {
      PaintedNothing(image.width, image.height, image.data[..], iset{(x, y)}, colour);
      return;
    }
    AtFits(image.width, image.height, x, y);
    hide At, Painted;
    var at := At(image.width, x, y);
    image.data[at] := colour.red;
    image.data[at + 1] := colour.green;
    image.data[at + 2] := colour.blue;
    image.data[at + 3] := colour.alpha;
    PaintedOne(image.width, image.height, old(image.data[..]), image.data[..], x, y, colour);
  }

  /** The pixels of `box` closer than `depth` to one of its sides: `depth` nested rings, outermost first. */
  ghost function Outline(box: Rectangle, depth: int): iset<(int, int)> {
    iset p: (int, int) | box.Holds(p.0, p.1) &&
      (|| p.0 - box.x < depth || box.Right() - 1 - p.0 < depth
       || p.1 - box.y < depth || box.Bottom() - 1 - p.1 < depth)
  }

  ghost function RowEdges(left: int, right: int, top: int, bottom: int): iset<(int, int)> {
    iset p: (int, int) | left <= p.0 <= right && (p.1 == top || p.1 == bottom)
  }

  ghost function ColumnEdges(left: int, right: int, top: int, bottom: int): iset<(int, int)> {
    iset p: (int, int) | top <= p.1 <= bottom && (p.0 == left || p.0 == right)
  }

  method DrawRows(image: RasterImage, left: int, right: int, top: int, bottom: int, colour: Colour)
    requires image.Valid() && left <= right
    modifies image.data
    ensures Painted(image.width, image.height, old(image.data[..]), image.data[..], RowEdges(left, right, top, bottom), colour)
  {
    ghost var start := image.data[..];
    PaintedNothing(image.width, image.height, start, RowEdges(left, left - 1, top, bottom), colour);
    hide Painted;
    var x := left;
    while x <= right
      invariant left <= x <= right + 1
      invariant Painted(image.width, image.height, start, image.data[..], RowEdges(left, x - 1, top, bottom), colour)
    {
      ghost var a := image.data[..];
      SetPixel(image, x, top, colour);
      ghost var b := image.data[..];
      SetPixel(image, x, bottom, colour);
      PaintedTwice(image.width, image.height, a, b, image.data[..], iset{(x, top)}, iset{(x, bottom)}, colour);
      PaintedTwice(image.width, image.height, start, a, image.data[..],
                   RowEdges(left, x - 1, top, bottom), iset{(x, top)} + iset{(x, bottom)}, colour);
      assert RowEdges(left, x - 1, top, bottom) + (iset{(x, top)} + iset{(x, bottom)}) == RowEdges(left, x, top, bottom);
      x := x + 1;
    }
  }

  method DrawColumns(image: RasterImage, left: int, right: int, top: int, bottom: int, colour: Colour)
    requires image.Valid() && top <= bottom
    modifies image.data
    ensures Painted(image.width, image.height, old(image.data[..]), image.data[..], ColumnEdges(left, right, top, bottom), colour)
  {
    ghost var start := image.data[..];
    PaintedNothing(image.width, image.height, start, ColumnEdges(left, right, top, top - 1), colour);
    hide Painted;
    var y := top;
    while y <= bottom
      invariant top <= y <= bottom + 1
      invariant Painted(image.width, image.height, start, image.data[..], ColumnEdges(left, right, top, y - 1), colour)
    {
      ghost var a := image.data[..];
      SetPixel(image, left, y, colour);
      ghost var b := image.data[..];
      SetPixel(image, right, y, colour);
      PaintedTwice(image.width, image.height, a, b, image.data[..], iset{(left, y)}, iset{(right, y)}, colour);
      PaintedTwice(image.width, image.height, start, a, image.data[..],
                   ColumnEdges(left, right, top, y - 1), iset{(left, y)} + iset{(right, y)}, colour);
      assert ColumnEdges(left, right, top, y - 1) + (iset{(left, y)} + iset{(right, y)}) == ColumnEdges(left, right, top, y);
      y := y + 1;
    }
  }

  /** One more ring paints the pixels at exactly that distance from a side. */
  lemma OutlineRing(box: Rectangle, ring: nat)
    requires box.x + ring <= box.Right() - 1 - ring && box.y + ring <= box.Bottom() - 1 - ring
    ensures var left, right := box.x + ring, box.Right() - 1 - ring;
            var top, bottom := box.y + ring, box.Bottom() - 1 - ring;
            Outline(box, ring + 1)
            == Outline(box, ring) + (RowEdges(left, right, top, bottom) + ColumnEdges(left, right, top, bottom))
  {
  }

  lemma OutlineIsComplete(box: Rectangle, ring: nat, depth: nat)
    requires ring <= depth
    requires box.x + ring > box.Right() - 1 - ring || box.y + ring > box.Bottom() - 1 - ring
    ensures Outline(box, ring) == Outline(box, depth)
  {
  }

  /** `outlineRectangle`: rings grow inwards, at least one of them. */
  method OutlineRectangle(image: RasterImage, rectangle: Rectangle, colour: Colour, thickness: real)
    requires image.Valid()
    modifies image.data
    ensures Painted(image.width, image.height, old(image.data[..]), image.data[..],
                    Outline(rectangle, Max(1, thickness.Floor)), colour)
  {
    hide Rectangle.Holds;
    var depth := Max(1, thickness.Floor);
    ghost var start := image.data[..];
    var ring := 0;
    PaintedNothing(image.width, image.height, start, Outline(rectangle, 0), colour) by { OutlineOfNothing(rectangle); }
    hide Painted, Outline, RowEdges, ColumnEdges;
    while ring < depth
      invariant 0 <= ring <= depth
      invariant Painted(image.width, image.height, start, image.data[..], Outline(rectangle, ring), colour)
    {
      var left := rectangle.x + ring;
      var top := rectangle.y + ring;
      var right := rectangle.x + rectangle.width - 1 - ring;
      var bottom := rectangle.y + rectangle.height - 1 - ring;
      if right < left || bottom < top {
        OutlineIsComplete(rectangle, ring, depth);
        return;
      }
      ghost var a := image.data[..];
      DrawRows(image, left, right, top, bottom, colour);
      ghost var b := image.data[..];
      DrawColumns(image, left, right, top, bottom, colour);
      ghost var rows, columns := RowEdges(left, right, top, bottom), ColumnEdges(left, right, top, bottom);
      PaintedTwice(image.width, image.height, a, b, image.data[..], rows, columns, colour);
      PaintedTwice(image.width, image.height, start, a, image.data[..], Outline(rectangle, ring), rows + columns, colour);
      OutlineRing(rectangle, ring);
      ring := ring + 1;
    }
  }

  lemma OutlineOfNothing(box: Rectangle)
    ensures Outline(box, 0) == iset{}
  {
  }

  /** `copyImage`: the same picture in a buffer of its own. */
  method CopyImage(image: RasterImage) returns (copy: RasterImage)
    ensures fresh(copy.data) && copy.data[..] == image.data[..]
    ensures copy.width == image.width && copy.height == image.height
  {
    var data := new byte[image.data.Length](_ => 0);
    CopyRun(image.data, 0, image.data.Length, data, 0);
    copy := RasterImage(image.width, image.height, data);
  }
}
