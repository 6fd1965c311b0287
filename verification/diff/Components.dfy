/** Connected components over a change mask (`components` in src/diff/regions.ts).

    The specification talks about paths of changed pixels; the implementation is an iterative
    flood fill with a `seen` buffer, a stack and running bounds. */
module Components {
  import opened Arithmetic
  import opened Boxes

  /** One flag per pixel, row-major from the top left. */
  datatype DiffMask = DiffMask(width: nat, height: nat, changed: seq<bool>) {
    ghost predicate Valid() {
      |changed| == width * height
    }
    ghost predicate IsChanged(p: int) {
      0 <= p < |changed| && changed[p]
    }
    ghost function ChangedSet(): set<int> {
      set p | 0 <= p < |changed| && changed[p]
    }
  }

  // ----- Pixel coordinates

  function Column(mask: DiffMask, p: int): int
    requires mask.width > 0
  {
    p % mask.width
  }

  function Row(mask: DiffMask, p: int): int
    requires mask.width > 0
  {
    p / mask.width
  }

  lemma SmallMultipleIsZero(k: int, w: int)
    requires -w < k * w < w
    ensures k == 0
  {
    if k > 0 {
      MulLe(1, k, w);
    } else if k < 0 {
      MulLe(k, -1, w);
    }
  }

  lemma DivModUnique(p: int, w: int, x: int, y: int)
    requires w > 0 && p == y * w + x && 0 <= x < w
    ensures p % w == x && p / w == y
  {
    DivModAlgebra(p, w, x, y, p / w, p % w);
  }

  lemma DivModAlgebra(p: int, w: int, x: int, y: int, q: int, r: int)
    requires w > 0 && 0 <= x < w && 0 <= r < w
    requires p == y * w + x && p == q * w + r
    ensures x == r && y == q
  {
    assert (q - y) * w == x - r;
    SmallMultipleIsZero(q - y, w);
  }

  /** A position inside the buffer lies inside the picture, and the other way round. */
  lemma InBounds(mask: DiffMask, p: int)
    requires mask.Valid() && 0 <= p < |mask.changed|
    ensures mask.width > 0
    ensures 0 <= Column(mask, p) < mask.width && 0 <= Row(mask, p) < mask.height
    ensures p == Row(mask, p) * mask.width + Column(mask, p)
  {
    var w := mask.width;
    assert p == (p / w) * w + p % w;
    if p / w >= mask.height {
      MulLe(mask.height, p / w, w);
    }
  }

  lemma AtCoordinates(mask: DiffMask, x: int, y: int)
    requires mask.Valid() && 0 <= x < mask.width && 0 <= y < mask.height
    ensures 0 <= y * mask.width + x < |mask.changed|
    ensures Column(mask, y * mask.width + x) == x && Row(mask, y * mask.width + x) == y
  {
    DivModUnique(y * mask.width + x, mask.width, x, y);
    MulLe(y, mask.height - 1, mask.width);
    assert (mask.height - 1) * mask.width == mask.width * mask.height - mask.width;
    MulLe(0, y, mask.width);
  }

  // ----- Connectivity

  /** Two pixels share an edge. */
  ghost predicate Adjacent(mask: DiffMask, p: int, q: int)
    requires mask.width > 0
  {
    var dx := Column(mask, p) - Column(mask, q);
    var dy := Row(mask, p) - Row(mask, q);
    (dx == 0 && (dy == 1 || dy == -1)) || (dy == 0 && (dx == 1 || dx == -1))
  }

  lemma AdjacentIsSymmetric(mask: DiffMask, p: int, q: int)
    requires mask.width > 0 && Adjacent(mask, p, q)
    ensures Adjacent(mask, q, p)
  {
  }

  ghost predicate IsPath(mask: DiffMask, path: seq<int>)
    requires mask.width > 0
  {
    && |path| > 0
    && (forall i :: 0 <= i < |path| ==> mask.IsChanged(path[i]))
    && (forall i :: 0 <= i < |path| - 1 ==> Adjacent(mask, path[i], path[i + 1]))
  }

  /** Some path of changed, edge-sharing pixels runs from `p` to `q`. */
  ghost predicate Connected(mask: DiffMask, p: int, q: int) {
    mask.width > 0 && exists path :: IsPath(mask, path) && path[0] == p && path[|path| - 1] == q
  }

  ghost function Component(mask: DiffMask, p: int): set<int> {
    set q | 0 <= q < |mask.changed| && Connected(mask, p, q)
  }

  lemma ConnectedIsReflexive(mask: DiffMask, p: int)
    requires mask.Valid() && mask.IsChanged(p)
    ensures Connected(mask, p, p)
  {
    InBounds(mask, p);
    assert IsPath(mask, [p]);
  }

  lemma ConnectedIsSymmetric(mask: DiffMask, p: int, q: int)
    requires Connected(mask, p, q)
    ensures Connected(mask, q, p)
  {
    var path :| IsPath(mask, path) && path[0] == p && path[|path| - 1] == q;
    var back := seq(|path|, i requires 0 <= i < |path| => path[|path| - 1 - i]);
    forall i | 0 <= i < |back| - 1
      ensures Adjacent(mask, back[i], back[i + 1])
    {
      assert Adjacent(mask, path[|path| - 2 - i], path[|path| - 2 - i + 1]);
    }
    assert IsPath(mask, back);
  }

  lemma ConnectedIsTransitive(mask: DiffMask, p: int, q: int, r: int)
    requires Connected(mask, p, q) && Connected(mask, q, r)
    ensures Connected(mask, p, r)
  {
    var a :| IsPath(mask, a) && a[0] == p && a[|a| - 1] == q;
    var b :| IsPath(mask, b) && b[0] == q && b[|b| - 1] == r;
    var path := a + b[1..];
    forall i | 0 <= i < |path| - 1
      ensures Adjacent(mask, path[i], path[i + 1])
    {
      if i < |a| - 1 {
        assert Adjacent(mask, a[i], a[i + 1]);
      } else {
        assert Adjacent(mask, b[i - (|a| - 1)], b[i - (|a| - 1) + 1]);
      }
    }
    assert IsPath(mask, path);
  }

  lemma AdjacentIsConnected(mask: DiffMask, p: int, q: int)
    requires mask.width > 0 && mask.IsChanged(p) && mask.IsChanged(q) && Adjacent(mask, p, q)
    ensures Connected(mask, p, q)
  {
    assert IsPath(mask, [p, q]);
  }

  lemma ConnectedIsChanged(mask: DiffMask, p: int, q: int)
    requires Connected(mask, p, q)
    ensures mask.IsChanged(p) && mask.IsChanged(q)
  {
  }

  /** No changed pixel outside `s` shares an edge with one inside it. */
  ghost predicate ClosedUnderAdjacency(mask: DiffMask, s: set<int>) {
    forall p, q | p in s && mask.IsChanged(q) && mask.width > 0 && Adjacent(mask, p, q) :: q in s
  }

  /** A closed set that holds one end of a path holds the other. */
  lemma ClosedSetHoldsConnected(mask: DiffMask, s: set<int>, p: int, q: int)
    requires ClosedUnderAdjacency(mask, s) && p in s && Connected(mask, p, q)
    ensures q in s
  {
    var path :| IsPath(mask, path) && path[0] == p && path[|path| - 1] == q;
    ClosedSetHoldsPath(mask, s, path, |path| - 1);
  }

  lemma {:induction false} ClosedSetHoldsPath(mask: DiffMask, s: set<int>, path: seq<int>, i: nat)
    requires mask.width > 0 && ClosedUnderAdjacency(mask, s)
    requires IsPath(mask, path) && path[0] in s && i < |path|
    ensures path[i] in s
  {
    if i > 0 {
      ClosedSetHoldsPath(mask, s, path, i - 1);
      assert Adjacent(mask, path[i - 1], path[i - 1 + 1]);
    }
  }

  // ----- Tight boxes around sets of pixels

  ghost predicate InBox(mask: DiffMask, p: int, box: Rectangle)
    requires mask.width > 0
  {
    box.Holds(Column(mask, p), Row(mask, p))
  }

  /** `box` holds every pixel of `s`, and each of its four sides is touched by one. */
  ghost predicate BoundsPixels(mask: DiffMask, box: Rectangle, s: set<int>) {
    && mask.width > 0
    && (forall p | p in s :: InBox(mask, p, box))
    && (exists p | p in s :: Column(mask, p) == box.x)
    && (exists p | p in s :: Column(mask, p) == box.Right() - 1)
    && (exists p | p in s :: Row(mask, p) == box.y)
    && (exists p | p in s :: Row(mask, p) == box.Bottom() - 1)
  }

  lemma BoundsPixelsIsUnique(mask: DiffMask, a: Rectangle, b: Rectangle, s: set<int>)
    requires BoundsPixels(mask, a, s) && BoundsPixels(mask, b, s)
    ensures a == b
  {
  }

  // ----- One flood fill

  /** Running bounds as the loop keeps them: `right` and `bottom` inclusive. */
  ghost predicate RunningBounds(mask: DiffMask, done: set<int>, left: int, right: int, top: int, bottom: int)
    requires mask.width > 0
  {
    if done == {} then
      left == mask.width && right == -1 && top == mask.height && bottom == -1
    else
      BoundsPixels(mask, Rectangle(left, top, right - left + 1, bottom - top + 1), done)
  }

  ghost function SeenSet(seen: array<bool>): set<int>
    reads seen
  {
    set p | 0 <= p < seen.Length && seen[p]
  }

  /** Stepping one column or one row in the buffer is stepping one pixel in the picture. */
  lemma Step(mask: DiffMask, at: int, dx: int, dy: int)
    requires mask.Valid() && 0 <= at < |mask.changed| && mask.width > 0
    requires 0 <= Column(mask, at) + dx < mask.width
    ensures Column(mask, at + dy * mask.width + dx) == Column(mask, at) + dx
    ensures Row(mask, at + dy * mask.width + dx) == Row(mask, at) + dy
  {
    InBounds(mask, at);
    var x, y, w := Column(mask, at), Row(mask, at), mask.width;
    assert at + dy * w + dx == (y + dy) * w + (x + dx);
    DivModUnique(at + dy * w + dx, w, x + dx, y + dy);
  }

  lemma SameCoordinates(mask: DiffMask, p: int, q: int)
    requires mask.width > 0 && Column(mask, p) == Column(mask, q) && Row(mask, p) == Row(mask, q)
    ensures p == q
  {
    var w := mask.width;
    assert p == (p / w) * w + p % w && q == (q / w) * w + q % w;
  }

  /** The pixel `dx` columns and `dy` rows away is the one at the index the loop computes. */
  lemma StepIsUnique(mask: DiffMask, at: int, q: int, dx: int, dy: int)
    requires mask.Valid() && 0 <= at < |mask.changed| && 0 <= q < |mask.changed| && mask.width > 0
    ensures (Column(mask, q) == Column(mask, at) + dx && Row(mask, q) == Row(mask, at) + dy)
            <==> (0 <= Column(mask, at) + dx < mask.width && q == at + dy * mask.width + dx)
  {
    InBounds(mask, q);
    if 0 <= Column(mask, at) + dx < mask.width {
      Step(mask, at, dx, dy);
      if Column(mask, q) == Column(mask, at) + dx && Row(mask, q) == Row(mask, at) + dy {
        SameCoordinates(mask, q, at + dy * mask.width + dx);
      }
    }
  }

  /** The four neighbour tests of the loop are exactly edge sharing. */
  lemma NeighbourIndices(mask: DiffMask, at: int, q: int)
    requires mask.Valid() && 0 <= at < |mask.changed| && 0 <= q < |mask.changed|
    ensures mask.width > 0
    ensures Adjacent(mask, at, q) <==>
            || (Column(mask, at) > 0 && q == at - 1)
            || (Column(mask, at) + 1 < mask.width && q == at + 1)
            || (Row(mask, at) > 0 && q == at - mask.width)
            || (Row(mask, at) + 1 < mask.height && q == at + mask.width)
  {
    InBounds(mask, at);
    InBounds(mask, q);
    StepIsUnique(mask, at, q, -1, 0);
    StepIsUnique(mask, at, q, 1, 0);
    StepIsUnique(mask, at, q, 0, -1);
    StepIsUnique(mask, at, q, 0, 1);
  }

  lemma NeighbourInBuffer(mask: DiffMask, at: int)
    requires mask.Valid() && 0 <= at < |mask.changed|
    ensures mask.width > 0
    ensures Column(mask, at) > 0 ==> 0 <= at - 1
    ensures Column(mask, at) + 1 < mask.width ==> at + 1 < |mask.changed|
    ensures Row(mask, at) > 0 ==> 0 <= at - mask.width
    ensures Row(mask, at) + 1 < mask.height ==> at + mask.width < |mask.changed|
  {
    InBounds(mask, at);
    hide Column, Row;
    if Column(mask, at) > 0 { AtShifted(mask, at, -1, 0); }
    if Column(mask, at) + 1 < mask.width { AtShifted(mask, at, 1, 0); }
    if Row(mask, at) > 0 { AtShifted(mask, at, 0, -1); }
    if Row(mask, at) + 1 < mask.height { AtShifted(mask, at, 0, 1); }
  }

  lemma AtShifted(mask: DiffMask, at: int, dx: int, dy: int)
    requires mask.Valid() && 0 <= at < |mask.changed| && mask.width > 0
    requires 0 <= Column(mask, at) + dx < mask.width && 0 <= Row(mask, at) + dy < mask.height
    ensures 0 <= at + dy * mask.width + dx < |mask.changed|
  {
    InBounds(mask, at);
    hide Column, Row;
    var x, y := Column(mask, at), Row(mask, at);
    AtCoordinates(mask, x + dx, y + dy);
    assert (y + dy) * mask.width == y * mask.width + dy * mask.width;
  }

  /** `grown` is `stack` followed by the members of `after - before`, each once. */
  ghost predicate Grew(stack: seq<int>, grown: seq<int>, before: set<int>, after: set<int>) {
    && before <= after
    && stack <= grown
    && (forall p :: p in grown[|stack|..] <==> p in after - before)
    && (forall i, j :: |stack| <= i < j < |grown| ==> grown[i] != grown[j])
  }

  lemma GrewTwice(a: seq<int>, b: seq<int>, c: seq<int>, before: set<int>, mid: set<int>, after: set<int>)
    requires Grew(a, b, before, mid) && Grew(b, c, mid, after)
    ensures Grew(a, c, before, after)
  {
    var ab, bc := b[|a|..], c[|b|..];
    assert c[|a|..] == ab + bc;
    forall i, j | |a| <= i < j < |c|
      ensures c[i] != c[j]
    {
      if j < |b| {
        assert c[i] == b[i] && c[j] == b[j];
      } else if i < |b| {
        assert c[i] == ab[i - |a|] && c[j] == bc[j - |b|];
        assert c[i] in ab && c[j] in bc;
      }
    }
  }

  /** Mark one unseen changed neighbour and push it. */
  method Visit(mask: DiffMask, seen: array<bool>, stack: seq<int>, inside: bool, q: int) returns (grown: seq<int>)
    requires seen.Length == |mask.changed|
    requires inside ==> 0 <= q < |mask.changed|
    modifies seen
    ensures SeenSet(seen) == old(SeenSet(seen)) + if inside && mask.changed[q] then {q} else {}
    ensures Grew(stack, grown, old(SeenSet(seen)), SeenSet(seen))
  {
    grown := stack;
    if inside && mask.changed[q] && !seen[q] {
      seen[q] := true;
      grown := stack + [q];
      assert SeenSet(seen) == old(SeenSet(seen)) + {q};
    }
  }

  ghost function Neighbours(mask: DiffMask, at: int): set<int>
    requires mask.width > 0
  {
    set q | 0 <= q < |mask.changed| && mask.changed[q] && Adjacent(mask, at, q)
  }

  ghost function Only(mask: DiffMask, inside: bool, q: int): set<int>
    requires inside ==> 0 <= q < |mask.changed|
  {
    if inside && mask.changed[q] then {q} else {}
  }

  lemma NeighboursByIndex(mask: DiffMask, at: int)
    requires mask.Valid() && 0 <= at < |mask.changed|
    ensures mask.width > 0
    ensures Column(mask, at) > 0 ==> 0 <= at - 1
    ensures Column(mask, at) + 1 < mask.width ==> at + 1 < |mask.changed|
    ensures Row(mask, at) > 0 ==> 0 <= at - mask.width
    ensures Row(mask, at) + 1 < mask.height ==> at + mask.width < |mask.changed|
    ensures Neighbours(mask, at)
         == Only(mask, Column(mask, at) > 0, at - 1) + Only(mask, Column(mask, at) + 1 < mask.width, at + 1)
          + Only(mask, Row(mask, at) > 0, at - mask.width) + Only(mask, Row(mask, at) + 1 < mask.height, at + mask.width)
  {
    hide Column, Row, Adjacent;
    NeighbourInBuffer(mask, at);
    forall q | 0 <= q < |mask.changed| {
      NeighbourIndices(mask, at, q);
    }
  }

  /** Look at the four neighbours of `at`: every changed one not yet seen is marked and pushed, once. */
  method VisitNeighbours(mask: DiffMask, seen: array<bool>, stack: seq<int>, at: int) returns (grown: seq<int>)
    requires mask.Valid() && seen.Length == |mask.changed| && 0 <= at < |mask.changed|
    modifies seen
    ensures mask.width > 0
    ensures SeenSet(seen) == old(SeenSet(seen)) + Neighbours(mask, at)
    ensures Grew(stack, grown, old(SeenSet(seen)), SeenSet(seen))
  {
    hide Column, Row, Adjacent, Neighbours, Grew, SeenSet;
    NeighboursByIndex(mask, at);
    var x := Column(mask, at);
    var y := Row(mask, at);
    ghost var s0 := SeenSet(seen);
    var g1 := Visit(mask, seen, stack, x > 0, at - 1);
    ghost var s1 := SeenSet(seen);
    var g2 := Visit(mask, seen, g1, x + 1 < mask.width, at + 1);
    ghost var s2 := SeenSet(seen);
    GrewTwice(stack, g1, g2, s0, s1, s2);
    var g3 := Visit(mask, seen, g2, y > 0, at - mask.width);
    ghost var s3 := SeenSet(seen);
    GrewTwice(stack, g2, g3, s0, s2, s3);
    grown := Visit(mask, seen, g3, y + 1 < mask.height, at + mask.width);
    GrewTwice(stack, g3, grown, s0, s3, SeenSet(seen));
  }

  /** Taking one more pixel into the running bounds. */
  lemma BoundsGrow(mask: DiffMask, done: set<int>, at: int, left: int, right: int, top: int, bottom: int)
    requires mask.Valid() && 0 <= at < |mask.changed| && mask.width > 0
    requires RunningBounds(mask, done, left, right, top, bottom)
    ensures var x, y := Column(mask, at), Row(mask, at);
            RunningBounds(mask, done + {at}, Min(x, left), Max(x, right), Min(y, top), Max(y, bottom))
  {
    InBounds(mask, at);
    hide Column, Row;
    if done == {} {
      assert at in {at} && done + {at} == {at};
    } else {
      BoundsWiden(mask, done, at, Rectangle(left, top, right - left + 1, bottom - top + 1));
    }
  }

  lemma BoundsWiden(mask: DiffMask, done: set<int>, at: int, was: Rectangle)
    requires BoundsPixels(mask, was, done)
    ensures var x, y := Column(mask, at), Row(mask, at);
            var left, top := Min(x, was.x), Min(y, was.y);
            BoundsPixels(mask, Rectangle(left, top, Max(x, was.Right() - 1) - left + 1, Max(y, was.Bottom() - 1) - top + 1),
                         done + {at})
  {
    hide Column, Row;
    var all := done + {at};
    var l :| l in done && Column(mask, l) == was.x;
    var r :| r in done && Column(mask, r) == was.Right() - 1;
    var t :| t in done && Row(mask, t) == was.y;
    var b :| b in done && Row(mask, b) == was.Bottom() - 1;
    assert l in all && r in all && t in all && b in all && at in all;
  }

  /** What the fill knows: `reached` pixels are connected to `start`, those not `done` are on the
      stack exactly once, and every neighbour of a `done` pixel is `reached`. */
  ghost predicate FillState(mask: DiffMask, start: int, stack: seq<int>, reached: set<int>, done: set<int>) {
    && mask.width > 0
    && start in reached && done <= reached
    && (forall p | p in reached :: 0 <= p < |mask.changed| && mask.changed[p] && Connected(mask, start, p))
    && (forall p :: p in stack <==> p in reached - done)
    && (forall i, j :: 0 <= i < j < |stack| ==> stack[i] != stack[j])
    && (forall p | p in done :: Neighbours(mask, p) <= reached)
  }

  lemma FillStateStart(mask: DiffMask, start: int)
    requires mask.width > 0 && mask.IsChanged(start) && Connected(mask, start, start)
    ensures FillState(mask, start, [start], {start}, {})
  {
  }

  lemma FillStateAt(mask: DiffMask, start: int, stack: seq<int>, reached: set<int>, done: set<int>)
    requires FillState(mask, start, stack, reached, done) && |stack| > 0
    ensures var at := stack[|stack| - 1];
            at in reached && at !in done && 0 <= at < |mask.changed| && mask.changed[at]
  {
    hide Neighbours, Connected;
    assert stack[|stack| - 1] in stack;
  }

  lemma FillStateStep(mask: DiffMask, start: int, popped: seq<int>, stack: seq<int>,
                      before: set<int>, reached: set<int>, done: set<int>, at: int)
    requires FillState(mask, start, popped + [at], reached, done) && before !! reached
    requires Neighbours(mask, at) !! before
    requires Grew(popped, stack, before + reached, before + reached + Neighbours(mask, at))
    ensures FillState(mask, start, stack, reached + Neighbours(mask, at), done + {at})
  {
    hide Column, Row, Adjacent, Connected;
    var stack0 := popped + [at];
    var added := stack[|popped|..];
    assert stack == popped + added;
    assert stack0[|popped|] == at;
    assert at in stack0;
    forall p | p in Neighbours(mask, at)
      ensures Connected(mask, start, p)
    {
      AdjacentIsConnected(mask, at, p);
      ConnectedIsTransitive(mask, start, at, p);
    }
    forall p
      ensures p in popped <==> p in reached - done - {at}
    {
      if p in popped {
        var i :| 0 <= i < |popped| && popped[i] == p;
        assert stack0[i] == p;
      }
    }
    forall i, j | 0 <= i < j < |stack|
      ensures stack[i] != stack[j]
    {
      if j < |popped| {
        assert stack0[i] != stack0[j];
      } else if i < |popped| {
        assert stack[j] in added && stack[i] in popped;
      }
    }
  }

  lemma FillStateDone(mask: DiffMask, start: int, reached: set<int>, done: set<int>)
    requires mask.Valid() && FillState(mask, start, [], reached, done)
    ensures reached == done == Component(mask, start) && start in done
  {
    hide Column, Row, Adjacent, Connected;
    var none: seq<int> := [];
    forall p | p in reached
      ensures p in done
    {
      assert p !in none;
    }
    assert ClosedUnderAdjacency(mask, reached);
    forall q | q in Component(mask, start)
      ensures q in reached
    {
      ClosedSetHoldsConnected(mask, reached, start, q);
    }
  }

  /** A closed set that misses `at` misses its neighbours. */
  lemma NeighboursAvoid(mask: DiffMask, before: set<int>, at: int)
    requires mask.width > 0 && mask.IsChanged(at)
    requires ClosedUnderAdjacency(mask, before) && at !in before
    ensures Neighbours(mask, at) !! before
  {
    hide Column, Row, Adjacent;
    forall q | q in Neighbours(mask, at)
      ensures q !in before
    {
      AdjacentIsSymmetric(mask, at, q);
    }
  }

  /** Everything reachable from `start`, provided nothing seen before touches it. */
  method FloodFrom(mask: DiffMask, seen: array<bool>, start: int) returns (region: ChangedRegion)
    requires mask.Valid() && seen.Length == |mask.changed|
    requires mask.IsChanged(start) && !seen[start]
    requires ClosedUnderAdjacency(mask, SeenSet(seen))
    modifies seen
    ensures SeenSet(seen) == old(SeenSet(seen)) + Component(mask, start)
    ensures BoundsPixels(mask, region.box, Component(mask, start))
    ensures region.changedPixels == |Component(mask, start)|
  {
    hide Column, Row, Adjacent, Connected, Component, BoundsPixels, FillState, Neighbours, Grew, ClosedUnderAdjacency;
    InBounds(mask, start);
    ConnectedIsReflexive(mask, start);
    ghost var before := SeenSet(seen);
    seen[start] := true;
    assert SeenSet(seen) == before + {start};
    var stack := [start];
    FillStateStart(mask, start);
    var left, right, top, bottom := mask.width as int, -1, mask.height as int, -1;
    var count := 0;
    ghost var reached, done := {start}, {};

    while |stack| > 0
      invariant SeenSet(seen) == before + reached && before !! reached
      invariant FillState(mask, start, stack, reached, done)
      invariant count == |done|
      invariant RunningBounds(mask, done, left, right, top, bottom)
      decreases mask.ChangedSet() - done
    {
      var at := stack[|stack| - 1];
      FillStateAt(mask, start, stack, reached, done);
      assert stack == stack[..|stack| - 1] + [at];
      stack := stack[..|stack| - 1];
      var x := Column(mask, at);
      RowByDivision(mask, at);
      var y := (at - x) / mask.width;
      BoundsGrow(mask, done, at, left, right, top, bottom);
      count := count + 1;
      if x < left { left := x; }
      if x > right { right := x; }
      if y < top { top := y; }
      if y > bottom { bottom := y; }
      ghost var popped := stack;
      stack := VisitNeighbours(mask, seen, stack, at);
      NeighboursAvoid(mask, before, at);
      FillStateStep(mask, start, popped, stack, before, reached, done, at);
      reached := reached + Neighbours(mask, at);
      done := done + {at};
    }
    FillStateDone(mask, start, reached, done);
    region := ChangedRegion(Rectangle(left, top, right - left + 1, bottom - top + 1), count);
  }

  lemma RowByDivision(mask: DiffMask, at: int)
    requires mask.width > 0
    ensures (at - Column(mask, at)) / mask.width == Row(mask, at)
  {
    DivModUnique(at - at % mask.width, mask.width, 0, at / mask.width);
  }

  // ----- The scan

  /** The first pixel of its component in row-major order: where the scan starts a fill. */
  ghost predicate IsSeed(mask: DiffMask, p: int) {
    mask.IsChanged(p) && forall q | 0 <= q < p :: !Connected(mask, q, p)
  }

  /** The seeds below `n`, in scan order. */
  ghost function Seeds(mask: DiffMask, n: nat): seq<int> {
    if n == 0 then [] else Seeds(mask, n - 1) + if IsSeed(mask, n - 1) then [n - 1] else []
  }

  /** One region per seed, in scan order: the tight box of its component and the component's size. */
  ghost predicate RegionsOf(mask: DiffMask, seeds: seq<int>, found: seq<ChangedRegion>) {
    && |found| == |seeds|
    && forall i :: 0 <= i < |found| ==>
                     && BoundsPixels(mask, found[i].box, Component(mask, seeds[i]))
                     && found[i].changedPixels == |Component(mask, seeds[i])|
  }

  ghost predicate IsComponents(mask: DiffMask, found: seq<ChangedRegion>) {
    RegionsOf(mask, Seeds(mask, |mask.changed|), found)
  }

  ghost predicate FromBelow(mask: DiffMask, n: int, p: int) {
    exists q :: 0 <= q < n && Connected(mask, q, p)
  }

  /** Seen so far: exactly the pixels connected to something already scanned. */
  ghost function Reached(mask: DiffMask, n: int): set<int> {
    set p | 0 <= p < |mask.changed| && FromBelow(mask, n, p)
  }

  lemma NothingReached(mask: DiffMask)
    ensures Reached(mask, 0) == {}
  {
  }

  lemma ReachedIsClosed(mask: DiffMask, n: int)
    ensures ClosedUnderAdjacency(mask, Reached(mask, n))
  {
    forall p, q | p in Reached(mask, n) && mask.IsChanged(q) && mask.width > 0 && Adjacent(mask, p, q)
      ensures q in Reached(mask, n)
    {
      var s :| 0 <= s < n && Connected(mask, s, p);
      ConnectedIsChanged(mask, s, p);
      AdjacentIsConnected(mask, p, q);
      ConnectedIsTransitive(mask, s, p, q);
    }
  }

  /** Scanning one more position: either its component is already seen, or it is a new seed. */
  lemma ReachedStep(mask: DiffMask, n: nat)
    requires mask.Valid() && n < |mask.changed|
    ensures IsSeed(mask, n) <==> mask.changed[n] && n !in Reached(mask, n)
    ensures Reached(mask, n + 1) ==
            if IsSeed(mask, n) then Reached(mask, n) + Component(mask, n) else Reached(mask, n)
  {
    forall p | p in Component(mask, n) && !IsSeed(mask, n)
      ensures p in Reached(mask, n)
    {
      ConnectedIsChanged(mask, n, p);
      var q :| 0 <= q < n && Connected(mask, q, n);
      ConnectedIsTransitive(mask, q, n, p);
    }
  }

  /** `components`: a row-major scan that floods from every changed pixel not yet seen. */
  method FindComponents(mask: DiffMask) returns (found: seq<ChangedRegion>)
    requires mask.Valid()
    ensures IsComponents(mask, found)
  {
    hide Connected, BoundsPixels, Reached, Component, IsSeed, ClosedUnderAdjacency;
    var seen := new bool[|mask.changed|](_ => false);
    NothingReached(mask);
    found := [];
    var start := 0;
    while start < |mask.changed|
      invariant 0 <= start <= |mask.changed|
      invariant SeenSet(seen) == Reached(mask, start)
      invariant RegionsOf(mask, Seeds(mask, start), found)
    {
      ReachedStep(mask, start);
      ReachedIsClosed(mask, start);
      assert seen[start] <==> start in SeenSet(seen);
      if mask.changed[start] && !seen[start] {
        var region := FloodFrom(mask, seen, start);
        found := found + [region];
      }
      start := start + 1;
    }
  }

  // ----- The regions partition the changed pixels

  lemma {:induction false} SeedsAreAscending(mask: DiffMask, n: nat)
    ensures forall i :: 0 <= i < |Seeds(mask, n)| ==> Seeds(mask, n)[i] < n && IsSeed(mask, Seeds(mask, n)[i])
    ensures forall i, j :: 0 <= i < j < |Seeds(mask, n)| ==> Seeds(mask, n)[i] < Seeds(mask, n)[j]
  {
    hide IsSeed;
    if n > 0 {
      SeedsAreAscending(mask, n - 1);
    }
  }

  lemma {:induction false} SeedIsListed(mask: DiffMask, n: nat, p: int)
    requires 0 <= p < n && IsSeed(mask, p)
    ensures p in Seeds(mask, n)
  {
    hide IsSeed;
    if p < n - 1 {
      SeedIsListed(mask, n - 1, p);
    } else {
      assert Seeds(mask, n)[|Seeds(mask, n)| - 1] == p;
    }
  }

  /** The smallest pixel connected to `p` is a seed. */
  lemma {:induction false} SeedOf(mask: DiffMask, p: int, q: int) returns (seed: int)
    requires mask.Valid() && 0 <= q && Connected(mask, q, p)
    ensures IsSeed(mask, seed) && p in Component(mask, seed)
    decreases q
  {
    hide Connected;
    ConnectedIsChanged(mask, q, p);
    if IsSeed(mask, q) {
      seed := q;
    } else {
      var r :| 0 <= r < q && Connected(mask, r, q);
      ConnectedIsTransitive(mask, r, q, p);
      seed := SeedOf(mask, p, r);
    }
  }

  lemma SeedIsInBuffer(mask: DiffMask, p: int)
    requires IsSeed(mask, p)
    ensures 0 <= p < |mask.changed|
  {
  }

  lemma SeedsAreApart(mask: DiffMask, s: int, t: int)
    requires IsSeed(mask, s) && IsSeed(mask, t) && s < t
    ensures Component(mask, s) !! Component(mask, t)
  {
    hide Connected;
    forall p | p in Component(mask, s) && p in Component(mask, t)
      ensures false
    {
      ConnectedIsSymmetric(mask, t, p);
      ConnectedIsTransitive(mask, s, p, t);
    }
  }

  lemma ComponentIsChanged(mask: DiffMask, p: int)
    ensures Component(mask, p) <= mask.ChangedSet()
  {
    hide Connected;
    forall q | q in Component(mask, p)
      ensures q in mask.ChangedSet()
    {
      ConnectedIsChanged(mask, p, q);
    }
  }

  /** The place in the list of the component a changed pixel lies in. */
  lemma ComponentHolding(mask: DiffMask, p: int) returns (i: nat)
    requires mask.Valid() && p in mask.ChangedSet()
    ensures i < |Seeds(mask, |mask.changed|)| && p in Component(mask, Seeds(mask, |mask.changed|)[i])
  {
    hide Connected, IsSeed, Seeds;
    ConnectedIsReflexive(mask, p);
    var seed := SeedOf(mask, p, p);
    SeedIsInBuffer(mask, seed);
    SeedIsListed(mask, |mask.changed|, seed);
    i :| 0 <= i < |Seeds(mask, |mask.changed|)| && Seeds(mask, |mask.changed|)[i] == seed;
  }

  /** Any two listed components, by their places in the list. */
  lemma ComponentsAreApart(mask: DiffMask, i: nat, j: nat)
    requires i < j < |Seeds(mask, |mask.changed|)|
    ensures Component(mask, Seeds(mask, |mask.changed|)[i]) !! Component(mask, Seeds(mask, |mask.changed|)[j])
  {
    hide Component, IsSeed, Seeds;
    SeedsAreAscending(mask, |mask.changed|);
    SeedsAreApart(mask, Seeds(mask, |mask.changed|)[i], Seeds(mask, |mask.changed|)[j]);
  }

  /** Every changed pixel lies in the component of exactly one seed. */
  lemma ComponentsPartition(mask: DiffMask)
    requires mask.Valid()
    ensures var seeds := Seeds(mask, |mask.changed|);
            && (forall i :: 0 <= i < |seeds| ==> Component(mask, seeds[i]) <= mask.ChangedSet())
            && (forall p | p in mask.ChangedSet() :: exists i :: 0 <= i < |seeds| && p in Component(mask, seeds[i]))
            && (forall i, j :: 0 <= i < j < |seeds| ==> Component(mask, seeds[i]) !! Component(mask, seeds[j]))
  {
    hide Component, Seeds;
    var seeds := Seeds(mask, |mask.changed|);
    forall i | 0 <= i < |seeds|
      ensures Component(mask, seeds[i]) <= mask.ChangedSet()
    {
      ComponentIsChanged(mask, seeds[i]);
    }
    forall p | p in mask.ChangedSet()
      ensures exists i :: 0 <= i < |seeds| && p in Component(mask, seeds[i])
    {
      var i := ComponentHolding(mask, p);
    }
    forall i, j | 0 <= i < j < |seeds|
      ensures Component(mask, seeds[i]) !! Component(mask, seeds[j])
    {
      ComponentsAreApart(mask, i, j);
    }
  }

  /** The regions are fully determined by the mask. */
  lemma ComponentsAreDetermined(mask: DiffMask, a: seq<ChangedRegion>, b: seq<ChangedRegion>)
    requires IsComponents(mask, a) && IsComponents(mask, b)
    ensures a == b
  {
    hide BoundsPixels, Seeds, Component;
    var seeds := Seeds(mask, |mask.changed|);
    forall i | 0 <= i < |a|
      ensures a[i] == b[i]
    {
      BoundsPixelsIsUnique(mask, a[i].box, b[i].box, Component(mask, seeds[i]));
    }
  }

  /** Every region is a nonempty box inside the picture. */
  lemma ComponentBoxFits(mask: DiffMask, box: Rectangle, s: set<int>)
    requires mask.Valid() && BoundsPixels(mask, box, s) && s <= mask.ChangedSet()
    ensures box.Inhabited() && Rectangle(0, 0, mask.width, mask.height).Covers(box)
  {
    hide Column, Row;
    forall p | p in s {
      InBounds(mask, p);
    }
  }
}
