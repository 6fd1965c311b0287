/** Shrinking a picture by averaging source windows (src/capture/image.ts). Ratios are exact
    rationals: a quotient is a pair of integers until it is rounded. */
module Downscale {
  import opened Arithmetic
  import opened Boxes
  import opened Image

  // ----- Rounding

  /** `Math.floor(n / d)`. */
  function FloorDiv(n: nat, d: nat): nat
    requires d > 0
  {
    n / d
  }

  /** `Math.ceil(n / d)`. */
  function CeilDiv(n: nat, d: nat): nat
    requires d > 0
  {
    (n + d - 1) / d
  }

  /** `Math.round(n / d)`: to nearest, halves up. */
  function RoundDiv(n: nat, d: nat): nat
    requires d > 0
  {
    (2 * n + d) / (2 * d)
  }

  lemma FloorBounds(n: nat, d: nat)
    requires d > 0
    ensures FloorDiv(n, d) * d <= n < FloorDiv(n, d) * d + d
  {
  }

  /** The floor is the only integer whose multiple is within one step below. */
  lemma FloorIs(n: nat, d: nat, q: int)
    requires d > 0 && q * d <= n < q * d + d
    ensures FloorDiv(n, d) == q
  {
    FloorBounds(n, d);
    var f := FloorDiv(n, d);
    assert (f - q) * d == f * d - q * d;
    if f > q { MulLe(1, f - q, d); }
    if f < q { MulLe(f - q, -1, d); }
  }

  lemma CeilBounds(n: nat, d: nat)
    requires d > 0
    ensures n <= CeilDiv(n, d) * d < n + d
  {
    FloorBounds(n + d - 1, d);
  }

  lemma RoundBounds(n: nat, d: nat)
    requires d > 0
    ensures 2 * (RoundDiv(n, d) * d) <= 2 * n + d < 2 * (RoundDiv(n, d) * d) + 2 * d
  {
    FloorBounds(2 * n + d, 2 * d);
    assert RoundDiv(n, d) * (2 * d) == 2 * (RoundDiv(n, d) * d);
  }

  /** Cancelling a positive factor in a comparison. */
  lemma Cancel(a: int, b: int, d: int)
    requires d > 0 && a * d < b * d
    ensures a < b
  {
    if a >= b { MulLe(b, a, d); }
  }

  /** A quotient between two integers rounds to something between them. */
  lemma RoundBetween(n: nat, d: nat, lo: int, hi: int)
    requires d > 0 && lo * d <= n <= hi * d
    ensures lo <= RoundDiv(n, d) <= hi
  {
    RoundBounds(n, d);
    hide RoundDiv;
    var r := RoundDiv(n, d);
    assert (lo - 1) * d == lo * d - d && (hi + 1) * d == hi * d + d;
    Cancel(lo - 1, r, d);
    Cancel(r, hi + 1, d);
  }

  // ----- Target dimensions

  datatype Size = Size(width: nat, height: nat)

  function ScaledDimensions(width: nat, height: nat, longestEdge: nat): Size {
    var longest := Max(width, height);
    if longest <= longestEdge then Size(width, height)
    else Size(Max(1, RoundDiv(width * longestEdge, longest)), Max(1, RoundDiv(height * longestEdge, longest)))
  }

  /** A side shrunk by `longestEdge / longest` never grows, and the longest side becomes the cap. */
  lemma ScaledSide(side: nat, longest: nat, longestEdge: nat)
    requires 1 <= side <= longest && longestEdge < longest
    ensures 1 <= Max(1, RoundDiv(side * longestEdge, longest)) <= Min(side, Max(1, longestEdge))
    ensures side == longest ==> RoundDiv(side * longestEdge, longest) == longestEdge
  {
    MulLe(side, longest, longestEdge);
    MulLe(longestEdge, longest, side);
    MulLe(0, side, longestEdge);
    assert side * longestEdge == longestEdge * side && longest * longestEdge == longestEdge * longest;
    assert longest * side == side * longest;
    RoundBetween(side * longestEdge, longest, 0, longestEdge);
    RoundBetween(side * longestEdge, longest, 0, side);
    if side == longest {
      RoundBetween(side * longestEdge, longest, longestEdge, longestEdge);
    }
  }

  /** Scaling never upscales, caps the long edge at exactly the cap (a cap of zero gives one pixel),
      keeps both sides positive and keeps the orientation. It does nothing exactly when the picture
      is inside the cap or is a single pixel. */
  lemma ScalingIsSound(width: nat, height: nat, longestEdge: nat)
    requires width >= 1 && height >= 1
    ensures var t := ScaledDimensions(width, height, longestEdge);
            var longest := Max(width, height);
            && 1 <= t.width <= width && 1 <= t.height <= height
            && Max(t.width, t.height) == (if longest <= longestEdge then longest else Max(1, longestEdge))
            && (width >= height ==> t.width >= t.height) && (height >= width ==> t.height >= t.width)
            && (t == Size(width, height) <==> longest <= longestEdge || longest == 1)
  {
    hide RoundDiv;
    var longest := Max(width, height);
    if longest > longestEdge {
      ScaledSide(width, longest, longestEdge);
      ScaledSide(height, longest, longestEdge);
    }
  }

  /** Each side is the exactly scaled side rounded to the nearest pixel, unless it was lifted to one. */
  lemma ScalingKeepsAspect(width: nat, height: nat, longestEdge: nat)
    requires width >= 1 && height >= 1 && Max(width, height) > longestEdge
    ensures var t, longest := ScaledDimensions(width, height, longestEdge), Max(width, height);
            && NearestOrOne(t.width, width * longestEdge, longest)
            && NearestOrOne(t.height, height * longestEdge, longest)
  {
    RoundIsNearest(width * longestEdge, Max(width, height));
    RoundIsNearest(height * longestEdge, Max(width, height));
    hide RoundDiv;
  }

  /** `side` is within half a pixel of `n / d`, or is one pixel where `n / d` is less than that. */
  predicate NearestOrOne(side: nat, n: nat, d: nat) {
    -(d as int) <= 2 * (side * d) - 2 * n <= d || (side == 1 && n < d)
  }

  lemma RoundIsNearest(n: nat, d: nat)
    requires d > 0
    ensures NearestOrOne(Max(1, RoundDiv(n, d)), n, d)
  {
    RoundBounds(n, d);
    hide RoundDiv;
    if RoundDiv(n, d) < 1 {
      assert RoundDiv(n, d) * d == 0;
    }
  }

  /** A side of zero is the one shape that would be upscaled; a decoded picture has none. */
  lemma EmptySideIsUpscaled(width: nat, height: nat, longestEdge: nat)
    ensures var t := ScaledDimensions(width, height, longestEdge);
            t.width > width || t.height > height <==> (width == 0 || height == 0) && Max(width, height) > longestEdge
  {
    if width >= 1 && height >= 1 {
      ScalingIsSound(width, height, longestEdge);
    }
  }

  // ----- Source windows

  /** First source row or column of destination `i`. */
  function Start(i: nat, size: nat, target: nat): nat
    requires target > 0
  {
    FloorDiv(i * size, target)
  }

  /** One past the last source row or column of destination `i`. */
  function End(i: nat, size: nat, target: nat): int
    requires target > 0
  {
    Min(size, Max(Start(i, size, target) + 1, CeilDiv((i + 1) * size, target)))
  }

  predicate InWindow(s: int, i: nat, size: nat, target: nat)
    requires target > 0
  {
    Start(i, size, target) <= s < End(i, size, target)
  }

  /** The arithmetic of one window: `s` and `e` are its rounded ends, `s'` the next window's start. */
  lemma WindowArithmetic(a: int, size: nat, target: nat, s: int, e: int, s': int)
    requires 1 <= target <= size && 0 <= a && a + size <= size * target
    requires s * target <= a < s * target + target
    requires a + size <= e * target < a + size + target
    requires s' * target <= a + size < s' * target + target
    ensures s < s' <= e <= s' + 1 && e <= size
  {
    assert (s' + 1) * target == s' * target + target && (s + 1) * target == s * target + target;
    assert (e - 1) * target == e * target - target && (s' + 2) * target == s' * target + 2 * target;
    assert (s' - 1) * target == s' * target - target;
    Cancel(s + 1, s' + 1, target);
    Cancel(s' - 1, e, target);
    Cancel(e, s' + 2, target);
    Cancel(e - 1, size, target);
  }

  lemma WindowByProduct(i: nat, size: nat, target: nat, a: nat)
    requires target > 0 && a == i * size
    ensures (i + 1) * size == a + size && size * target == target * size
    ensures Start(i, size, target) == FloorDiv(a, target)
    ensures Start(i + 1, size, target) == FloorDiv(a + size, target)
    ensures End(i, size, target) == Min(size, Max(FloorDiv(a, target) + 1, CeilDiv(a + size, target)))
  {
    hide FloorDiv, CeilDiv;
  }

  /** Every window is nonempty and inside the source, and consecutive windows advance, meet without a
      gap, and share at most one row or column. */
  lemma WindowsTile(i: nat, size: nat, target: nat)
    requires 1 <= target <= size && i < target
    ensures 0 <= Start(i, size, target) < End(i, size, target) <= size
    ensures Start(0, size, target) == 0 && End(target - 1, size, target) == size
    ensures i + 1 < target ==>
              && Start(i, size, target) < Start(i + 1, size, target)
              && Start(i + 1, size, target) <= End(i, size, target) <= Start(i + 1, size, target) + 1
  {
    hide FloorDiv, CeilDiv, Start, End;
    LastWindow(size, target);
    WindowByProduct(i, size, target, i * size);
    WindowInOrder(i, size, target, i * size);
  }

  lemma WindowInOrder(i: nat, size: nat, target: nat, a: nat)
    requires 1 <= target <= size && i < target && a == i * size
    ensures 0 <= FloorDiv(a, target) < FloorDiv(a + size, target)
    ensures FloorDiv(a + size, target) <= CeilDiv(a + size, target) <= FloorDiv(a + size, target) + 1
    ensures CeilDiv(a + size, target) <= size
  {
    hide FloorDiv, CeilDiv;
    FloorBounds(a, target);
    FloorBounds(a + size, target);
    CeilBounds(a + size, target);
    MulLe(i + 1, target, size);
    assert (i + 1) * size == a + size && target * size == size * target;
    WindowArithmetic(a, size, target, FloorDiv(a, target), CeilDiv(a + size, target), FloorDiv(a + size, target));
  }

  /** A window is exactly what its destination covers: the source rows or columns that overlap the
      interval from `i * size / target` to `(i + 1) * size / target`. */
  lemma WindowIsOverlap(s: nat, i: nat, size: nat, target: nat)
    requires 1 <= target <= size && i < target && s < size
    ensures InWindow(s, i, size, target) <==> s * target < (i + 1) * size && i * size < (s + 1) * target
  {
    hide FloorDiv, CeilDiv, Start, End;
    var a := i * size;
    WindowByProduct(i, size, target, a);
    FloorBounds(a, target);
    CeilBounds(a + size, target);
    FloorBounds(a + size, target);
    MulLe(i + 1, target, size);
    WindowArithmetic(a, size, target, FloorDiv(a, target), CeilDiv(a + size, target), FloorDiv(a + size, target));
    StartsAt(s, a, target, FloorDiv(a, target));
    EndsAt(s, a + size, target, CeilDiv(a + size, target));
  }

  lemma StartsAt(s: nat, a: int, target: nat, f: int)
    requires target > 0 && f * target <= a < f * target + target
    ensures f <= s <==> a < (s + 1) * target
  {
    assert (s + 1) * target == s * target + target && (f + 1) * target == f * target + target;
    if f <= s {
      MulLe(f, s, target);
    } else {
      MulLe(s + 1, f, target);
    }
  }

  lemma EndsAt(s: nat, b: int, target: nat, e: int)
    requires target > 0 && b <= e * target < b + target
    ensures s < e <==> s * target < b
  {
    assert (e - 1) * target == e * target - target;
    if s < e {
      MulLe(s, e - 1, target);
    } else {
      MulLe(e, s, target);
    }
  }

  lemma LastWindow(size: nat, target: nat)
    requires 1 <= target <= size
    ensures End(target - 1, size, target) == size
    ensures Start(0, size, target) == 0
  {
    assert target * size == size * target;
    CeilBounds(target * size, target);
    Cancel(size - 1, CeilDiv(target * size, target), target) by { assert (size - 1) * target == size * target - target; }
    FloorIs(0, target, 0);
  }

  /** Every source row or column falls in some window. */
  lemma {:induction false} WindowsCover(s: nat, size: nat, target: nat, n: nat) returns (i: nat)
    requires 1 <= target <= size && s < size && n < target && s < End(n, size, target)
    ensures i <= n && InWindow(s, i, size, target)
    decreases n
  {
    hide Start, End;
    WindowsTile(n, size, target);
    if Start(n, size, target) <= s {
      i := n;
    } else {
      WindowsTile(0, size, target);
      WindowsTile(n - 1, size, target);
      i := WindowsCover(s, size, target, n - 1);
    }
  }

  lemma EverySourceIndexIsRead(s: nat, size: nat, target: nat)
    requires 1 <= target <= size && s < size
    ensures exists i: nat :: i < target && InWindow(s, i, size, target)
  {
    hide Start, End;
    WindowsTile(0, size, target);
    var i := WindowsCover(s, size, target, target - 1);
  }

  lemma {:induction false} StartsAdvance(i: nat, k: nat, size: nat, target: nat)
    requires 1 <= target <= size && i < k < target
    ensures Start(i, size, target) + (k - i) <= Start(k, size, target)
    decreases k
  {
    hide Start, End;
    WindowsTile(k - 1, size, target);
    if i < k - 1 {
      StartsAdvance(i, k - 1, size, target);
    }
  }

  /** A source row or column is shared by at most two windows, and those are neighbours. */
  lemma WindowsOverlapOnlyNeighbours(s: int, i: nat, k: nat, size: nat, target: nat)
    requires 1 <= target <= size && i < k < target
    requires InWindow(s, i, size, target) && InWindow(s, k, size, target)
    ensures k == i + 1 && s == Start(k, size, target)
  {
    hide Start, End;
    WindowsTile(i, size, target);
    if k > i + 1 {
      StartsAdvance(i + 1, k, size, target);
    }
  }

  // ----- Averages

  ghost function Channel(colour: Colour, c: nat): byte {
    if c == 0 then colour.red else if c == 1 then colour.green else if c == 2 then colour.blue else colour.alpha
  }

  /** Sum of one channel over `[x0, x1)` in one row. */
  ghost function RowSum(data: seq<byte>, width: nat, height: nat, c: nat, x0: nat, x1: nat, y: nat): nat
    requires |data| == width * height * CHANNELS && x1 <= width && y < height
    decreases x1
  {
    if x1 <= x0 then 0 else RowSum(data, width, height, c, x0, x1 - 1, y) + Channel(Pixel(data, width, height, x1 - 1, y), c)
  }

  /** Sum of one channel over the window `[x0, x1)` by `[y0, y1)`. */
  ghost function WindowSum(data: seq<byte>, width: nat, height: nat, c: nat, x0: nat, x1: nat, y0: nat, y1: nat): nat
    requires |data| == width * height * CHANNELS && x1 <= width && y1 <= height
    decreases y1
  {
    if y1 <= y0 then 0
    else WindowSum(data, width, height, c, x0, x1, y0, y1 - 1) + RowSum(data, width, height, c, x0, x1, y1 - 1)
  }

  // ----- What the sum is

  lemma {:induction false} RowSumSplits(data: seq<byte>, width: nat, height: nat, c: nat, x0: nat, xm: nat, x1: nat, y: nat)
    requires |data| == width * height * CHANNELS && x0 <= xm <= x1 <= width && y < height
    ensures RowSum(data, width, height, c, x0, x1, y)
         == RowSum(data, width, height, c, x0, xm, y) + RowSum(data, width, height, c, xm, x1, y)
    decreases x1
  {
    hide Pixel, Channel;
    if xm < x1 {
      RowSumSplits(data, width, height, c, x0, xm, x1 - 1, y);
    }
  }

  /** A window's sum is fixed by three laws: the window of one pixel sums to that sample, and a window cut
      in two along a column or along a row sums to its two parts. */
  lemma {:induction false} WindowSumSplits(data: seq<byte>, width: nat, height: nat, c: nat,
                                           x0: nat, xm: nat, x1: nat, y0: nat, ym: nat, y1: nat)
    requires |data| == width * height * CHANNELS && x0 <= xm <= x1 <= width && y0 <= ym <= y1 <= height
    ensures WindowSum(data, width, height, c, x0, x1, y0, y1)
         == WindowSum(data, width, height, c, x0, xm, y0, y1) + WindowSum(data, width, height, c, xm, x1, y0, y1)
    ensures WindowSum(data, width, height, c, x0, x1, y0, y1)
         == WindowSum(data, width, height, c, x0, x1, y0, ym) + WindowSum(data, width, height, c, x0, x1, ym, y1)
    ensures x1 == x0 + 1 && y1 == y0 + 1 ==>
              WindowSum(data, width, height, c, x0, x1, y0, y1) == Channel(Pixel(data, width, height, x0, y0), c)
    decreases y1
  {
    if x1 == x0 + 1 && y1 == y0 + 1 {
      OnePixelSum(data, width, height, c, x0, y0);
    }
    hide RowSum, Pixel, Channel;
    if y0 < y1 {
      RowSumSplits(data, width, height, c, x0, xm, x1, y1 - 1);
      WindowSumSplits(data, width, height, c, x0, xm, x1, y0, if ym < y1 then ym else y1 - 1, y1 - 1);
    }
  }

  lemma OnePixelSum(data: seq<byte>, width: nat, height: nat, c: nat, x: nat, y: nat)
    requires |data| == width * height * CHANNELS && x < width && y < height
    ensures WindowSum(data, width, height, c, x, x + 1, y, y + 1) == Channel(Pixel(data, width, height, x, y), c)
  {
    hide Pixel, Channel;
    assert RowSum(data, width, height, c, x, x, y) == 0;
  }

  /** In channel `c` the two buffers differ at most in the sample of column `x` and row `y`. */
  ghost predicate DifferOnlyAt(data: seq<byte>, other: seq<byte>, width: nat, height: nat, c: nat, x: nat, y: nat) {
    && |data| == |other| == width * height * CHANNELS && x < width && y < height
    && forall px, py :: 0 <= px < width && 0 <= py < height && (px, py) != (x, y) ==>
         Channel(Pixel(data, width, height, px, py), c) == Channel(Pixel(other, width, height, px, py), c)
  }

  lemma {:induction false} OneSampleInRow(data: seq<byte>, other: seq<byte>, width: nat, height: nat, c: nat, x: nat, y: nat,
                                          x0: nat, x1: nat, row: nat)
    requires DifferOnlyAt(data, other, width, height, c, x, y) && x1 <= width && row < height
    ensures RowSum(other, width, height, c, x0, x1, row) - RowSum(data, width, height, c, x0, x1, row)
         == if x0 <= x < x1 && row == y
            then Channel(Pixel(other, width, height, x, y), c) - Channel(Pixel(data, width, height, x, y), c) else 0
    decreases x1
  {
    hide Pixel, Channel;
    if x0 < x1 {
      OneSampleInRow(data, other, width, height, c, x, y, x0, x1 - 1, row);
    }
  }

  /** Every sample counts once: changing one inside the window changes the sum by exactly as much, and
      changing one outside changes nothing. */
  lemma {:induction false} OneSampleCountsOnce(data: seq<byte>, other: seq<byte>, width: nat, height: nat, c: nat, x: nat, y: nat,
                                               x0: nat, x1: nat, y0: nat, y1: nat)
    requires DifferOnlyAt(data, other, width, height, c, x, y) && x1 <= width && y1 <= height
    ensures WindowSum(other, width, height, c, x0, x1, y0, y1) - WindowSum(data, width, height, c, x0, x1, y0, y1)
         == if x0 <= x < x1 && y0 <= y < y1
            then Channel(Pixel(other, width, height, x, y), c) - Channel(Pixel(data, width, height, x, y), c) else 0
    decreases y1
  {
    hide Pixel, Channel, RowSum;
    if y0 < y1 {
      OneSampleCountsOnce(data, other, width, height, c, x, y, x0, x1, y0, y1 - 1);
      hide DifferOnlyAt;
      OneSampleInRow(data, other, width, height, c, x, y, x0, x1, y1 - 1);
    }
  }

  /** Every sample of the window lies between `lo` and `hi` in channel `c`. */
  ghost predicate SamplesBetween(data: seq<byte>, width: nat, height: nat, c: nat, x0: nat, x1: nat, y0: nat, y1: nat,
                                 lo: int, hi: int)
    requires |data| == width * height * CHANNELS && x1 <= width && y1 <= height
  {
    forall x, y :: x0 <= x < x1 && y0 <= y < y1 ==> lo <= Channel(Pixel(data, width, height, x, y), c) <= hi
  }

  lemma {:induction false} RowSumBetween(data: seq<byte>, width: nat, height: nat, c: nat, x0: nat, x1: nat, y: nat, lo: int, hi: int)
    requires |data| == width * height * CHANNELS && x0 <= x1 <= width && y < height
    requires SamplesBetween(data, width, height, c, x0, x1, y, y + 1, lo, hi)
    ensures (x1 - x0) * lo <= RowSum(data, width, height, c, x0, x1, y) <= (x1 - x0) * hi
    decreases x1
  {
    hide Pixel, Channel;
    if x1 > x0 {
      RowSumBetween(data, width, height, c, x0, x1 - 1, y, lo, hi);
      assert (x1 - x0) * lo == (x1 - 1 - x0) * lo + lo && (x1 - x0) * hi == (x1 - 1 - x0) * hi + hi;
      assert lo <= Channel(Pixel(data, width, height, x1 - 1, y), c) <= hi;
    }
  }

  lemma {:induction false} WindowSumBetween(data: seq<byte>, width: nat, height: nat, c: nat,
                                            x0: nat, x1: nat, y0: nat, y1: nat, lo: int, hi: int)
    requires |data| == width * height * CHANNELS && x0 <= x1 <= width && y0 <= y1 <= height
    requires SamplesBetween(data, width, height, c, x0, x1, y0, y1, lo, hi)
    ensures lo * ((x1 - x0) * (y1 - y0)) <= WindowSum(data, width, height, c, x0, x1, y0, y1) <= hi * ((x1 - x0) * (y1 - y0))
    decreases y1
  {
    hide Pixel, Channel, RowSum;
    var n := x1 - x0;
    if y1 > y0 {
      WindowSumBetween(data, width, height, c, x0, x1, y0, y1 - 1, lo, hi);
      RowSumBetween(data, width, height, c, x0, x1, y1 - 1, lo, hi);
      OneMoreRow(n, y1 - y0, lo);
      OneMoreRow(n, y1 - y0, hi);
    } else {
      assert n * (y1 - y0) == 0;
    }
  }

  lemma OneMoreRow(n: int, rows: int, v: int)
    ensures v * (n * rows) == v * (n * (rows - 1)) + n * v
  {
    assert n * rows == n * (rows - 1) + n;
  }

  lemma SamplesAreBytes(data: seq<byte>, width: nat, height: nat, c: nat, x0: nat, x1: nat, y0: nat, y1: nat)
    requires |data| == width * height * CHANNELS && x1 <= width && y1 <= height
    ensures SamplesBetween(data, width, height, c, x0, x1, y0, y1, 0, 255)
  {
    hide Pixel;
  }

  /** The mean of one channel over a nonempty window, rounded. It lies between the smallest and the
      largest sample, whatever bounds those are given by, so it is a byte. */
  ghost function Mean(data: seq<byte>, width: nat, height: nat, c: nat, x0: nat, x1: nat, y0: nat, y1: nat): (m: byte)
    requires |data| == width * height * CHANNELS && x0 < x1 <= width && y0 < y1 <= height
  {
    MulLe(1, x1 - x0, y1 - y0);
    SamplesAreBytes(data, width, height, c, x0, x1, y0, y1);
    WindowSumBetween(data, width, height, c, x0, x1, y0, y1, 0, 255);
    RoundBetween(WindowSum(data, width, height, c, x0, x1, y0, y1), (x1 - x0) * (y1 - y0), 0, 255);
    RoundDiv(WindowSum(data, width, height, c, x0, x1, y0, y1), (x1 - x0) * (y1 - y0))
  }

  lemma MeanIsBetween(data: seq<byte>, width: nat, height: nat, c: nat, x0: nat, x1: nat, y0: nat, y1: nat, lo: int, hi: int)
    requires |data| == width * height * CHANNELS && x0 < x1 <= width && y0 < y1 <= height
    requires SamplesBetween(data, width, height, c, x0, x1, y0, y1, lo, hi)
    ensures lo <= Mean(data, width, height, c, x0, x1, y0, y1) <= hi
  {
    MulLe(1, x1 - x0, y1 - y0);
    WindowSumBetween(data, width, height, c, x0, x1, y0, y1, lo, hi);
    hide RoundDiv, WindowSum;
    RoundBetween(WindowSum(data, width, height, c, x0, x1, y0, y1), (x1 - x0) * (y1 - y0), lo, hi);
  }

  /** A mean is the sum over the number of samples, rounded to the nearest whole number, halves up. */
  lemma MeanIsRoundedSum(data: seq<byte>, width: nat, height: nat, c: nat, x0: nat, x1: nat, y0: nat, y1: nat)
    requires |data| == width * height * CHANNELS && x0 < x1 <= width && y0 < y1 <= height
    ensures var n, sum := (x1 - x0) * (y1 - y0), WindowSum(data, width, height, c, x0, x1, y0, y1);
            var m := Mean(data, width, height, c, x0, x1, y0, y1);
            2 * (m * n) <= 2 * sum + n < 2 * (m * n) + 2 * n
  {
    MulLe(1, x1 - x0, y1 - y0);
    RoundBounds(WindowSum(data, width, height, c, x0, x1, y0, y1), (x1 - x0) * (y1 - y0));
    hide WindowSum, RoundDiv;
  }

  /** The colour a window averages to: each channel's mean, in that channel. */
  ghost function MeanColour(data: seq<byte>, width: nat, height: nat, x0: nat, x1: nat, y0: nat, y1: nat): Colour
    requires |data| == width * height * CHANNELS && x0 < x1 <= width && y0 < y1 <= height
  {
    Colour(Mean(data, width, height, 0, x0, x1, y0, y1), Mean(data, width, height, 1, x0, x1, y0, y1),
           Mean(data, width, height, 2, x0, x1, y0, y1), Mean(data, width, height, 3, x0, x1, y0, y1))
  }

  // ----- The loops

  /** The two inner loops: sum the four channels over a window and round the means. */
  method AverageWindow(image: RasterImage, x0: nat, x1: nat, y0: nat, y1: nat) returns (colour: Colour)
    requires image.Valid() && x0 < x1 <= image.width && y0 < y1 <= image.height
    ensures colour == MeanColour(image.data[..], image.width, image.height, x0, x1, y0, y1)
  {
    hide Pixel, At, RowSum, Channel, MeanColour;
    var red, green, blue, alpha, counted := 0, 0, 0, 0, 0;
    ghost var data, w, h := image.data[..], image.width, image.height;
    var sourceY := y0;
    while sourceY < y1
      invariant y0 <= sourceY <= y1
      invariant counted == (x1 - x0) * (sourceY - y0)
      invariant red == WindowSum(data, w, h, 0, x0, x1, y0, sourceY)
      invariant green == WindowSum(data, w, h, 1, x0, x1, y0, sourceY)
      invariant blue == WindowSum(data, w, h, 2, x0, x1, y0, sourceY)
      invariant alpha == WindowSum(data, w, h, 3, x0, x1, y0, sourceY)
    {
      var r, g, b, a := SumRow(image, x0, x1, sourceY);
      red, green, blue, alpha, counted := red + r, green + g, blue + b, alpha + a, counted + (x1 - x0);
      assert (x1 - x0) * (sourceY + 1 - y0) == (x1 - x0) * (sourceY - y0) + (x1 - x0);
      sourceY := sourceY + 1;
    }
    hide WindowSum, RoundDiv;
    colour := ToColour(data, w, h, x0, x1, y0, y1, red, green, blue, alpha, counted);
  }

  method ToColour(ghost data: seq<byte>, ghost w: nat, ghost h: nat, ghost x0: nat, ghost x1: nat, ghost y0: nat, ghost y1: nat,
                  red: nat, green: nat, blue: nat, alpha: nat, counted: nat)
    returns (colour: Colour)
    requires |data| == w * h * CHANNELS && x0 < x1 <= w && y0 < y1 <= h
    requires counted == (x1 - x0) * (y1 - y0)
    requires red == WindowSum(data, w, h, 0, x0, x1, y0, y1) && green == WindowSum(data, w, h, 1, x0, x1, y0, y1)
    requires blue == WindowSum(data, w, h, 2, x0, x1, y0, y1) && alpha == WindowSum(data, w, h, 3, x0, x1, y0, y1)
    ensures colour == MeanColour(data, w, h, x0, x1, y0, y1)
  {
    hide WindowSum, RoundDiv;
    MulLe(1, x1 - x0, y1 - y0);
    assert counted > 0;
    assert RoundDiv(red, counted) == Mean(data, w, h, 0, x0, x1, y0, y1);
    assert RoundDiv(green, counted) == Mean(data, w, h, 1, x0, x1, y0, y1);
    assert RoundDiv(blue, counted) == Mean(data, w, h, 2, x0, x1, y0, y1);
    assert RoundDiv(alpha, counted) == Mean(data, w, h, 3, x0, x1, y0, y1);
    colour := Colour(RoundDiv(red, counted), RoundDiv(green, counted), RoundDiv(blue, counted), RoundDiv(alpha, counted));
  }

  method SumRow(image: RasterImage, x0: nat, x1: nat, y: nat) returns (red: nat, green: nat, blue: nat, alpha: nat)
    requires image.Valid() && x0 <= x1 <= image.width && y < image.height
    ensures red == RowSum(image.data[..], image.width, image.height, 0, x0, x1, y)
    ensures green == RowSum(image.data[..], image.width, image.height, 1, x0, x1, y)
    ensures blue == RowSum(image.data[..], image.width, image.height, 2, x0, x1, y)
    ensures alpha == RowSum(image.data[..], image.width, image.height, 3, x0, x1, y)
  {
    red, green, blue, alpha := 0, 0, 0, 0;
    ghost var data := image.data[..];
    var x := x0;
    while x < x1
      invariant x0 <= x <= x1
      invariant red == RowSum(data, image.width, image.height, 0, x0, x, y)
      invariant green == RowSum(data, image.width, image.height, 1, x0, x, y)
      invariant blue == RowSum(data, image.width, image.height, 2, x0, x, y)
      invariant alpha == RowSum(data, image.width, image.height, 3, x0, x, y)
    {
      AtFits(image.width, image.height, x, y);
      var at := At(image.width, x, y);
      assert Pixel(data, image.width, image.height, x, y) == PixelAt(data, at);
      hide At, Pixel;
      red := red + image.data[at];
      green := green + image.data[at + 1];
      blue := blue + image.data[at + 2];
      alpha := alpha + image.data[at + 3];
      x := x + 1;
    }
  }

  /** The destination pixel the specification asks for. */
  ghost function Target(data: seq<byte>, width: nat, height: nat, t: Size, x: nat, y: nat): Colour
    requires |data| == width * height * CHANNELS
    requires 1 <= t.width <= width && 1 <= t.height <= height && x < t.width && y < t.height
  {
    WindowsTile(x, width, t.width);
    WindowsTile(y, height, t.height);
    MeanColour(data, width, height, Start(x, width, t.width), End(x, width, t.width),
               Start(y, height, t.height), End(y, height, t.height))
  }

  /** Rows below `rows`, and the first `columns` pixels of row `rows`, are in place. */
  ghost predicate Filled(data: seq<byte>, width: nat, height: nat, t: Size, out: seq<byte>, rows: int, columns: int)
  {
    && |data| == width * height * CHANNELS
    && 1 <= t.width <= width && 1 <= t.height <= height
    && |out| == t.width * t.height * CHANNELS
    && forall x: nat, y: nat :: x < t.width && y < t.height && (y < rows || (y == rows && x < columns)) ==>
                        Pixel(out, t.width, t.height, x, y) == Target(data, width, height, t, x, y)
  }

  /** `downscale`: the picture itself when nothing needs shrinking, and otherwise a new picture whose
      every pixel is the mean of its source window. */
  method Shrink(image: RasterImage, longestEdge: nat) returns (out: RasterImage)
    requires image.Valid() && image.width >= 1 && image.height >= 1
    ensures var t := ScaledDimensions(image.width, image.height, longestEdge);
            if t == Size(image.width, image.height) then out == image
            else
              && fresh(out.data) && out.width == t.width && out.height == t.height
              && Filled(image.data[..], image.width, image.height, t, out.data[..], t.height, 0)
  {
    ScalingIsSound(image.width, image.height, longestEdge);
    var t := ScaledDimensions(image.width, image.height, longestEdge);
    if t.width == image.width && t.height == image.height {
      return image;
    }
    hide ScaledDimensions;
    MulLe(0, t.width, t.height);
    var pixels := new byte[t.width * t.height * CHANNELS](_ => 0);
    hide Target;
    for y := 0 to t.height
      invariant Filled(image.data[..], image.width, image.height, t, pixels[..], y, 0)
    {
      hide Filled;
      FillRow(image, t, pixels, y);
    }
    out := RasterImage(t.width, t.height, pixels);
  }

  lemma FilledOne(data: seq<byte>, width: nat, height: nat, t: Size, before: seq<byte>, after: seq<byte>, x: nat, y: nat, colour: Colour)
    requires Filled(data, width, height, t, before, y, x) && x < t.width && y < t.height
    requires colour == Target(data, width, height, t, x, y)
    requires Painted(t.width, t.height, before, after, iset{(x, y)}, colour)
    ensures Filled(data, width, height, t, after, y, x + 1)
  {
    hide Pixel, Target;
  }

  lemma RowFilled(data: seq<byte>, width: nat, height: nat, t: Size, out: seq<byte>, y: nat)
    requires Filled(data, width, height, t, out, y, t.width)
    ensures Filled(data, width, height, t, out, y + 1, 0)
  {
    hide Pixel, Target;
  }

  /** One destination row. */
  method FillRow(image: RasterImage, t: Size, pixels: array<byte>, y: nat)
    requires image.Valid() && pixels != image.data
    requires 1 <= t.width <= image.width && 1 <= t.height <= image.height && y < t.height
    requires pixels.Length == t.width * t.height * CHANNELS
    requires Filled(image.data[..], image.width, image.height, t, pixels[..], y, 0)
    modifies pixels
    ensures Filled(image.data[..], image.width, image.height, t, pixels[..], y + 1, 0)
  {
    hide Filled, MeanColour, Start, End, Painted;
    ghost var data := image.data[..];
    WindowsTile(y, image.height, t.height);
    var yStart := Start(y, image.height, t.height);
    var yEnd := End(y, image.height, t.height);
    for x := 0 to t.width
      invariant image.data[..] == data
      invariant Filled(data, image.width, image.height, t, pixels[..], y, x)
    {
      WindowsTile(x, image.width, t.width);
      var xStart := Start(x, image.width, t.width);
      var xEnd := End(x, image.width, t.width);
      var colour := AverageWindow(image, xStart, xEnd, yStart, yEnd);
      ghost var before := pixels[..];
      SetPixel(RasterImage(t.width, t.height, pixels), x, y, colour);
      FilledOne(data, image.width, image.height, t, before, pixels[..], x, y, colour);
    }
    RowFilled(data, image.width, image.height, t, pixels[..], y);
  }

  // ----- What the shrunk picture shows

  /** Every channel of every pixel of the shrunk picture lies between any bounds on its source window.
      With equal bounds: a window of one colour keeps that colour. */
  lemma ShrunkPixelIsBetween(data: seq<byte>, width: nat, height: nat, t: Size, out: seq<byte>, x: nat, y: nat, c: nat,
                             lo: int, hi: int)
    requires Filled(data, width, height, t, out, t.height, 0) && x < t.width && y < t.height && c < CHANNELS
    requires 0 <= Start(x, width, t.width) && End(x, width, t.width) <= width && 0 <= End(x, width, t.width)
    requires 0 <= Start(y, height, t.height) && End(y, height, t.height) <= height && 0 <= End(y, height, t.height)
    requires SamplesBetween(data, width, height, c, Start(x, width, t.width), End(x, width, t.width),
                            Start(y, height, t.height), End(y, height, t.height), lo, hi)
    ensures lo <= Channel(Pixel(out, t.width, t.height, x, y), c) <= hi
  {
    hide Pixel, Mean, Start, End, SamplesBetween;
    WindowsTile(x, width, t.width);
    WindowsTile(y, height, t.height);
    MeanIsBetween(data, width, height, c, Start(x, width, t.width), End(x, width, t.width),
                  Start(y, height, t.height), End(y, height, t.height), lo, hi);
  }

  /** The sum of channel `c` over the source window of destination `(x, y)`. */
  ghost function TargetSum(data: seq<byte>, width: nat, height: nat, t: Size, x: nat, y: nat, c: nat): nat
    requires |data| == width * height * CHANNELS
    requires 1 <= t.width <= width && 1 <= t.height <= height && x < t.width && y < t.height
  {
    WindowsTile(x, width, t.width);
    WindowsTile(y, height, t.height);
    WindowSum(data, width, height, c, Start(x, width, t.width), End(x, width, t.width),
              Start(y, height, t.height), End(y, height, t.height))
  }

  /** Every channel of every pixel of the shrunk picture is the rounded mean of its source window, in
      which every sample of the window counts exactly once and no other sample counts: were the sample at
      `(sx, sy)` another one, the sum would differ by as much if the window holds it, and not at all
      otherwise. */
  lemma ShrunkPixelIsMean(data: seq<byte>, other: seq<byte>, width: nat, height: nat, t: Size, out: seq<byte>,
                          x: nat, y: nat, c: nat, sx: nat, sy: nat)
    requires Filled(data, width, height, t, out, t.height, 0) && x < t.width && y < t.height && c < CHANNELS
    requires DifferOnlyAt(data, other, width, height, c, sx, sy)
    ensures var n := (End(x, width, t.width) - Start(x, width, t.width)) * (End(y, height, t.height) - Start(y, height, t.height));
            var m, sum := Channel(Pixel(out, t.width, t.height, x, y), c), TargetSum(data, width, height, t, x, y, c);
            && 2 * (m * n) <= 2 * sum + n < 2 * (m * n) + 2 * n
            && TargetSum(other, width, height, t, x, y, c) - sum
               == if InWindow(sx, x, width, t.width) && InWindow(sy, y, height, t.height)
                  then Channel(Pixel(other, width, height, sx, sy), c) - Channel(Pixel(data, width, height, sx, sy), c) else 0
  {
    hide Pixel, Mean, Start, End, WindowSum, DifferOnlyAt;
    WindowsTile(x, width, t.width);
    WindowsTile(y, height, t.height);
    var x0, x1, y0, y1 := Start(x, width, t.width), End(x, width, t.width), Start(y, height, t.height), End(y, height, t.height);
    MeanIsRoundedSum(data, width, height, c, x0, x1, y0, y1);
    OneSampleCountsOnce(data, other, width, height, c, sx, sy, x0, x1, y0, y1);
    assert Pixel(out, t.width, t.height, x, y) == Target(data, width, height, t, x, y);
    assert Channel(Target(data, width, height, t, x, y), c) == Mean(data, width, height, c, x0, x1, y0, y1);
  }

  /** No source pixel is skipped: each one is averaged into at least one destination pixel. */
  lemma EverySourcePixelIsRead(width: nat, height: nat, t: Size, sx: nat, sy: nat)
    requires 1 <= t.width <= width && 1 <= t.height <= height && sx < width && sy < height
    ensures exists x: nat, y: nat ::
              x < t.width && y < t.height && InWindow(sx, x, width, t.width) && InWindow(sy, y, height, t.height)
  {
    hide InWindow;
    EverySourceIndexIsRead(sx, width, t.width);
    EverySourceIndexIsRead(sy, height, t.height);
    var x: nat :| x < t.width && InWindow(sx, x, width, t.width);
    var y: nat :| y < t.height && InWindow(sy, y, height, t.height);
  }
}
