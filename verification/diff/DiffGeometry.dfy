/** Reconciling the sizes of two captures (src/diff/geometry.ts). */
module DiffGeometry {
  import opened Arithmetic
  import opened Boxes
  import opened Image
  import opened Wrappers

  datatype CaptureKind = Viewport | Element | FullPage

  datatype ImageGeometry = ImageGeometry(width: nat, height: nat) {
    /** A `w` by `h` rectangle anchored at the top left fits. */
    predicate Holds(w: nat, h: nat) {
      w <= width && h <= height
    }
  }

  /** Which of the sentences the caller is given. */
  datatype Explanation =
    | WidthsDiffer(earlierWidth: nat, currentWidth: nat)
    | HeightsDiffer(earlierHeight: nat, currentHeight: nat, kind: CaptureKind)
    | NoSharedRows(earlierHeight: nat, currentHeight: nat)
    | LengthChanged(change: int, shared: nat)

  datatype ReconciledGeometry = ReconciledGeometry(
    width: Option<nat>,
    comparableHeight: Option<nat>,
    widthMismatch: bool,
    pageLengthChange: Option<int>,
    comparable: bool,
    explanation: Option<Explanation>)

  function ReconcileGeometry(earlier: ImageGeometry, current: ImageGeometry, kind: CaptureKind): ReconciledGeometry {
    if earlier.width != current.width then
      ReconciledGeometry(None, None, true, None, false, Some(WidthsDiffer(earlier.width, current.width)))
    else if earlier.height == current.height then
      ReconciledGeometry(Some(current.width), Some(current.height), false, None, true, None)
    else if kind != FullPage then
      ReconciledGeometry(None, None, false, None, false, Some(HeightsDiffer(earlier.height, current.height, kind)))
    else
      var shared := Min(earlier.height, current.height);
      var change := current.height - earlier.height;
      if shared <= 0 then
        ReconciledGeometry(None, None, false, Some(change), false, Some(NoSharedRows(earlier.height, current.height)))
      else
        ReconciledGeometry(Some(current.width), Some(shared), false, Some(change), true, Some(LengthChanged(change, shared)))
  }

  /** A comparison runs over the largest rectangle anchored at the top left of both captures: no
      taller one fits in both. Only full pages may differ in height, and not when one has no rows. */
  lemma ComparableGeometry(earlier: ImageGeometry, current: ImageGeometry, kind: CaptureKind)
    ensures var g := ReconcileGeometry(earlier, current, kind);
            && (g.comparable <==> g.comparableHeight.Some?) && (g.comparable <==> g.width.Some?)
            && (g.comparable <==>
                  && earlier.width == current.width
                  && (earlier.height == current.height ||
                      (kind == FullPage && earlier.height > 0 && current.height > 0)))
            && (g.comparable ==>
                  forall w: nat, h: nat ::
                    ImageGeometry(g.width.value, g.comparableHeight.value).Holds(w, h)
                    <==> earlier.Holds(w, h) && current.Holds(w, h))
            && (g.pageLengthChange.Some? <==>
                  earlier.width == current.width && earlier.height != current.height && kind == FullPage)
            && (g.pageLengthChange.Some? ==> earlier.height + g.pageLengthChange.value == current.height)
            && (g.widthMismatch <==> earlier.width != current.width)
            && (g.explanation.None? <==> earlier == current)
            && (g.widthMismatch <==> g.explanation == Some(WidthsDiffer(earlier.width, current.width)))
            && (g.explanation == Some(HeightsDiffer(earlier.height, current.height, kind)) <==>
                  earlier.width == current.width && earlier.height != current.height && kind != FullPage)
            && (g.explanation == Some(NoSharedRows(earlier.height, current.height)) <==>
                  && earlier.width == current.width && earlier.height != current.height && kind == FullPage
                  && (earlier.height == 0 || current.height == 0))
            && (g.comparable && earlier != current <==>
                  g.explanation == Some(LengthChanged(current.height - earlier.height, Min(earlier.height, current.height))))
  {
  }
}
