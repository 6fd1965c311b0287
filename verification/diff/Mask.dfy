/** The change mask (src/diff/mask.ts): two guards, one call of the comparison library, and the loop
    that turns its alpha channel into one flag a pixel. */
module Mask {
  import opened Arithmetic
  import opened Boxes
  import opened Image
  import opened Components
  import opened Wrappers

  /** The comparison library: an arbitrary alpha byte for every pixel and an arbitrary count. */
  datatype Comparison = Comparison(
    alpha: (seq<byte>, seq<byte>, nat, nat, nat) -> byte,
    count: (seq<byte>, seq<byte>, nat, nat) -> nat)

  /** The mask, and the library's own count of changed pixels. */
  datatype MaskResult = MaskResult(mask: DiffMask, changedPixels: nat)

  /** The rows both images share lead both buffers, so the library sees two buffers of the length it asks for. */
  lemma PrefixLength(image: RasterImage, height: nat)
    requires image.Valid() && height <= image.height
    ensures 0 <= image.width * height * CHANNELS <= image.data.Length
  {
    MulLe(height, image.height, image.width);
    MulLe(0, height, image.width);
    assert height * image.width == image.width * height;
    assert image.height * image.width == image.width * image.height;
  }

  /** The flag of every pixel is the library's verdict on the first `height` rows of both images. */
  ghost predicate IsMaskOf(mask: DiffMask, compare: Comparison, a: seq<byte>, b: seq<byte>, width: nat, height: nat) {
    && mask.width == width && mask.height == height && mask.Valid()
    && 0 <= width * height * CHANNELS <= |a| && width * height * CHANNELS <= |b|
    && forall p :: 0 <= p < |mask.changed| ==>
         (mask.changed[p] <==>
          compare.alpha(a[..width * height * CHANNELS], b[..width * height * CHANNELS], width, height, p) != 0)
  }

  /** A pixel is marked as changed exactly when the library gave it a visible alpha, comparing the earlier
      rows with the current ones. */
  lemma MarkedPixelDiffers(mask: DiffMask, compare: Comparison, earlier: seq<byte>, current: seq<byte>, width: nat, height: nat,
                           x: nat, y: nat)
    requires IsMaskOf(mask, compare, earlier, current, width, height) && x < width && y < height
    ensures 0 <= y * width + x < |mask.changed|
    ensures mask.changed[y * width + x] <==>
            compare.alpha(earlier[..width * height * 4], current[..width * height * 4], width, height, y * width + x) > 0
  {
    AtCoordinates(mask, x, y);
  }

  method ComputeMask(earlier: RasterImage, current: RasterImage, wanted: Option<nat>, compare: Comparison)
    returns (result: Result<MaskResult>)
    requires earlier.Valid() && current.Valid()
    ensures result.Success? <==>
            && earlier.width == current.width
            && (wanted.Some? ==> wanted.value <= earlier.height && wanted.value <= current.height)
    ensures result.Success? ==>
              var height := if wanted.Some? then wanted.value else Min(earlier.height, current.height);
              var bytes := current.width * height * CHANNELS;
              && IsMaskOf(result.value.mask, compare, earlier.data[..], current.data[..], current.width, height)
              && result.value.changedPixels
                 == compare.count(earlier.data[..][..bytes], current.data[..][..bytes], current.width, height)
  {
    if earlier.width != current.width {
      return Failure("two widths");
    }
    var width := current.width;
    var height: nat := if wanted.Some? then wanted.value else Min(earlier.height, current.height);
    if height > earlier.height || height > current.height {
      return Failure("too many rows");
    }
    PrefixLength(earlier, height);
    PrefixLength(current, height);
    var bytes := width * height * CHANNELS;
    var a, b := earlier.data[..bytes], current.data[..bytes];
    assert a == earlier.data[..][..bytes] && b == current.data[..][..bytes];
    var changedPixels := compare.count(a, b, width, height);
    var pixels: nat := width * height;
    var changed := new bool[pixels](_ => false);
    for index := 0 to pixels
      invariant forall p :: 0 <= p < index ==> (changed[p] <==> compare.alpha(a, b, width, height, p) != 0)
    {
      changed[index] := compare.alpha(a, b, width, height, index) != 0;
    }
    result := Success(MaskResult(DiffMask(width, height, changed[..]), changedPixels));
  }
}
