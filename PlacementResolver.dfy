/** Where the watermark lands: `checkPixelPosition` and the choice of watermark pixel in
    `setPixel`, for a single placement at an offset or a grid that tiles the base image. */
module PlacementResolver {
  import opened Wrappers
  import opened Arithmetic

  /** `java.awt.Point`: the watermark's top-left corner in the base image. */
  datatype Point = Point(x: int, y: int)

  /** `watermarkPosition`: a point for "single", null for "grid". */
  datatype Placement = Single(at: Point) | Grid

  /** A pixel coordinate inside the watermark. */
  datatype Coord = Coord(x: nat, y: nat)

  /** `checkPixelPosition`: the base pixel (x, y) lies in the half-open rectangle of size
      ww by wh whose top-left corner is `at`, so that (x - at.x, y - at.y) is a pixel of
      the watermark. */
  function CheckPixelPosition(at: Point, ww: nat, wh: nat, x: int, y: int): (inside: bool)
    ensures inside <==> (0 <= x - at.x < ww && 0 <= y - at.y < wh)
  {
    at.x <= x < at.x + ww && at.y <= y < at.y + wh
  }

  /** The watermark pixel that covers base pixel (x, y), or None when the watermark does
      not cover it. A grid covers every pixel. */
  function Resolve(placement: Placement, ww: nat, wh: nat, x: nat, y: nat): (r: Option<Coord>)
    requires 0 < ww && 0 < wh
    ensures r.Some? ==> r.value.x < ww && r.value.y < wh
    ensures placement.Grid? ==> r == Some(Coord(x % ww, y % wh))
    ensures placement.Single? ==>
      (r.Some? <==> CheckPixelPosition(placement.at, ww, wh, x, y))
    ensures placement.Single? && r.Some? ==>
      x == placement.at.x + r.value.x && y == placement.at.y + r.value.y
  {
    match placement
    case Single(at) =>
      if CheckPixelPosition(at, ww, wh, x, y) then Some(Coord(x - at.x, y - at.y)) else None
    case Grid =>
      Some(Coord(x % ww, y % wh))
  }

  /** The grid repeats with the watermark's period along both axes. */
  lemma {:induction false} GridIsPeriodic(ww: nat, wh: nat, x: nat, y: nat, i: nat, j: nat)
    requires 0 < ww && 0 < wh
    ensures Resolve(Grid, ww, wh, x + i * ww, y + j * wh) == Resolve(Grid, ww, wh, x, y)
  {
    ModAddMultiple(x, ww, i);
    ModAddMultiple(y, wh, j);
  }

  /** Every watermark pixel of a single placement that fits in a base of size iw by ih is
      drawn: it covers a base pixel, and that pixel resolves back to it. */
  lemma SingleCoversWholeWatermark(at: Point, ww: nat, wh: nat, iw: nat, ih: nat, wx: nat, wy: nat)
    requires 0 < ww && 0 < wh
    requires 0 <= at.x <= iw - ww && 0 <= at.y <= ih - wh
    requires wx < ww && wy < wh
    ensures 0 <= at.x + wx < iw && 0 <= at.y + wy < ih
    ensures Resolve(Single(at), ww, wh, at.x + wx, at.y + wy) == Some(Coord(wx, wy))
  {
  }
}
