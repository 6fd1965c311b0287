/** Rectangles in image pixels and the two box operations that merging is built from
    (`within` and `union` of src/diff/regions.ts). */
module Boxes {
  import opened Arithmetic

  /** A box measured from the top left; its right and bottom edges are exclusive. */
  datatype Rectangle = Rectangle(x: int, y: int, width: int, height: int) {
    function Right(): int { x + width }
    function Bottom(): int { y + height }
    predicate Holds(px: int, py: int) {
      x <= px < Right() && y <= py < Bottom()
    }
    predicate Covers(inner: Rectangle) {
      x <= inner.x && y <= inner.y && inner.Right() <= Right() && inner.Bottom() <= Bottom()
    }
    predicate Inhabited() {
      width >= 1 && height >= 1
    }
    function Area(): int { width * height }
  }

  /** A box of the list together with the number of changed pixels it accounts for. */
  datatype ChangedRegion = ChangedRegion(box: Rectangle, changedPixels: nat)

  predicate Within(a: Rectangle, b: Rectangle, distance: int) {
    var horizontalGap := Max(0, Max(a.x - (b.x + b.width), b.x - (a.x + a.width)));
    var verticalGap := Max(0, Max(a.y - (b.y + b.height), b.y - (a.y + a.height)));
    horizontalGap <= distance && verticalGap <= distance
  }

  function Union(a: ChangedRegion, b: ChangedRegion): ChangedRegion {
    var x := Min(a.box.x, b.box.x);
    var y := Min(a.box.y, b.box.y);
    var right := Max(a.box.x + a.box.width, b.box.x + b.box.width);
    var bottom := Max(a.box.y + a.box.height, b.box.y + b.box.height);
    ChangedRegion(Rectangle(x, y, right - x, bottom - y), a.changedPixels + b.changedPixels)
  }

  lemma WithinIsSymmetric(a: Rectangle, b: Rectangle, distance: int)
    ensures Within(a, b, distance) == Within(b, a, distance)
  {
  }

  /** Growing either box never takes them out of reach. Everything about merging rests on this. */
  lemma WithinGrows(a: Rectangle, b: Rectangle, a': Rectangle, b': Rectangle, distance: int)
    requires a'.Covers(a) && b'.Covers(b) && Within(a, b, distance)
    ensures Within(a', b', distance)
  {
  }

  /** The pixel of `box` nearest to column and row `(px, py)`. */
  function Nearest(box: Rectangle, px: int, py: int): (p: (int, int))
    requires box.Inhabited()
    ensures box.Holds(p.0, p.1)
  {
    (Max(box.x, Min(px, box.Right() - 1)), Max(box.y, Min(py, box.Bottom() - 1)))
  }

  predicate PixelsClose(px: int, py: int, qx: int, qy: int, distance: int) {
    -distance <= px - qx <= distance && -distance <= py - qy <= distance
  }

  /** What `Within` means in pixels: at most `distance` untouched columns and rows lie between some
      pixel of one box and some pixel of the other. */
  lemma WithinMeansPixelsClose(a: Rectangle, b: Rectangle, distance: nat)
    requires a.Inhabited() && b.Inhabited()
    ensures Within(a, b, distance) <==>
            exists px, py, qx, qy :: a.Holds(px, py) && b.Holds(qx, qy) && PixelsClose(px, py, qx, qy, distance + 1)
  {
    if Within(a, b, distance) {
      var p := Nearest(a, b.x, b.y);
      var q := Nearest(b, p.0, p.1);
      assert a.Holds(p.0, p.1) && b.Holds(q.0, q.1) && PixelsClose(p.0, p.1, q.0, q.1, distance + 1);
    }
  }
}
