/**
 * Where each part of the spectacles goes. Every measure is an integer pixel
 * count (already multiplied by 36 and truncated); each corner coordinate is
 * the source's expression evaluated exactly over the reals and then passed
 * through Python's `int()`. The canvas centre is row 128, column 256.
 */
module Layout {
  import opened Geometry

  /** The converted measures of a rectangle-style pair of spectacles. */
  datatype RectMeasures = RectMeasures(
    height: int, width: int, bridgeW: int, bridgeH: int, templeH: int, templeW: int)

  /** The two corners handed to the rectangle rasterizer, in the order the source gives them. */
  datatype Corners = Corners(start: Point, end: Point)

  /** The parts drawn for a rectangle-style pair of spectacles. */
  datatype Part = Bridge | LeftLens | RightLens | LeftFrame | RightFrame | LeftTemple | RightTemple

  /** Every measure is at least zero. */
  predicate RectNonNegative(m: RectMeasures) {
    0 <= m.height && 0 <= m.width && 0 <= m.bridgeW && 0 <= m.bridgeH && 0 <= m.templeH && 0 <= m.templeW
  }

  /**
   * The corners the source computes for each part of the rectangle style.
   * With non-negative measures every part is centred on row 128: its top row
   * is at most 128, its bottom row at least 128, and the two sum to 255 or 256.
   */
  function RectCorners(m: RectMeasures, part: Part): (c: Corners)
    ensures RectNonNegative(m) ==> c.start.row <= 128 <= c.end.row
    ensures RectNonNegative(m) ==> 255 <= c.start.row + c.end.row <= 256
  {
    var h, w := m.height as real, m.width as real;
    var bw, bh := m.bridgeW as real, m.bridgeH as real;
    var th, tw := m.templeH as real, m.templeW as real;
    match part
    case Bridge =>
      Corners(Point(PyInt(128.0 - bh / 2.0), PyInt(256.0 - (bw / 2.0 - tw / 1.5))),
              Point(PyInt(128.0 + bh / 2.0), PyInt(256.0 + bw / 2.0 - tw / 1.5)))
    case LeftLens =>
      Corners(Point(PyInt(128.0 - h / 2.0), PyInt(256.0 - bw / 2.0)),
              Point(PyInt(128.0 + h / 2.0), PyInt(256.0 - bw / 2.0 - w)))
    case RightLens =>
      Corners(Point(PyInt(128.0 - h / 2.0), PyInt(256.0 + bw / 2.0)),
              Point(PyInt(128.0 + h / 2.0), PyInt(256.0 + bw / 2.0 + w)))
    case LeftFrame =>
      Corners(Point(PyInt(128.0 - h / 2.0 - tw / 1.5), PyInt(256.0 - bw / 2.0 + tw / 1.5)),
              Point(PyInt(128.0 + h / 2.0 + tw / 1.5), PyInt(256.0 - bw / 2.0 - w - tw / 1.5)))
    case RightFrame =>
      Corners(Point(PyInt(128.0 - h / 2.0 - tw / 1.5), PyInt(256.0 + bw / 2.0 - tw / 1.5)),
              Point(PyInt(128.0 + h / 2.0 + tw / 1.5), PyInt(256.0 + bw / 2.0 + w + tw / 1.5)))
    case LeftTemple =>
      Corners(Point(PyInt(128.0 - th / 2.0), PyInt(256.0 - w - tw * 4.0)),
              Point(PyInt(128.0 + th / 2.0), PyInt(256.0 - w - tw * 2.1)))
    case RightTemple =>
      Corners(Point(PyInt(128.0 - th / 2.0), PyInt(256.0 + w + tw * 4.0)),
              Point(PyInt(128.0 + th / 2.0), PyInt(256.0 + w + tw * 2.1)))
  }

  /** The pixels of one part: the rasterized box of its corners. */
  function RectBox(m: RectMeasures, part: Part): Box {
    RectRegion(RectCorners(m, part).start, RectCorners(m, part).end)
  }

  /** Every part lies on the canvas, so no write wraps around or falls off an edge. */
  predicate RectFits(m: RectMeasures) {
    forall part :: BoxInCanvas(RectBox(m, part))
  }

  /** Box a lies within box b. */
  predicate BoxWithin(a: Box, b: Box) {
    b.top <= a.top && a.bottom <= b.bottom && b.left <= a.left && a.right <= b.right
  }

  lemma BoxWithinPixels(a: Box, b: Box)
    requires BoxWithin(a, b)
    ensures forall p :: InBox(a, p) ==> InBox(b, p)
  {
  }

  /**
   * With non-negative measures each lens lies inside its frame: the frame's
   * corners are the lens's corners pushed outward by temple_holder_w / 1.5.
   */
  lemma RectLensInsideFrame(m: RectMeasures)
    requires 0 <= m.height && 0 <= m.width && 0 <= m.templeW
    ensures forall p :: InBox(RectBox(m, LeftLens), p) ==> InBox(RectBox(m, LeftFrame), p)
    ensures forall p :: InBox(RectBox(m, RightLens), p) ==> InBox(RectBox(m, RightFrame), p)
  {
    RectLensFrameRows(m);
    RectLensFrameCols(m);
    BoxWithinPixels(RectBox(m, LeftLens), RectBox(m, LeftFrame));
    BoxWithinPixels(RectBox(m, RightLens), RectBox(m, RightFrame));
  }

  /** The rows of both frames enclose the rows of both lenses. */
  lemma RectLensFrameRows(m: RectMeasures)
    requires 0 <= m.height && 0 <= m.templeW
    ensures RectBox(m, LeftFrame).top <= RectBox(m, LeftLens).top
    ensures RectBox(m, LeftLens).bottom <= RectBox(m, LeftFrame).bottom
    ensures RectBox(m, RightFrame).top <= RectBox(m, RightLens).top
    ensures RectBox(m, RightLens).bottom <= RectBox(m, RightFrame).bottom
  {
    var h, tw := m.height as real, m.templeW as real;
    PyIntMonotone(128.0 - h / 2.0 - tw / 1.5, 128.0 - h / 2.0);
    PyIntMonotone(128.0 - h / 2.0, 128.0 + h / 2.0);
    PyIntMonotone(128.0 + h / 2.0, 128.0 + h / 2.0 + tw / 1.5);
  }

  /** The columns of each frame enclose the columns of its lens. */
  lemma RectLensFrameCols(m: RectMeasures)
    requires 0 <= m.width && 0 <= m.templeW
    ensures RectBox(m, LeftFrame).left <= RectBox(m, LeftLens).left
    ensures RectBox(m, LeftLens).right <= RectBox(m, LeftFrame).right
    ensures RectBox(m, RightFrame).left <= RectBox(m, RightLens).left
    ensures RectBox(m, RightLens).right <= RectBox(m, RightFrame).right
  {
    var w, bw, tw := m.width as real, m.bridgeW as real, m.templeW as real;
    var inner, outer, grow := 256.0 - bw / 2.0, 256.0 - bw / 2.0 - w, tw / 1.5;
    OutwardColumns(RectCorners(m, LeftLens), RectCorners(m, LeftFrame), outer, inner, grow);
    inner, outer := 256.0 + bw / 2.0, 256.0 + bw / 2.0 + w;
    OutwardColumns(RectCorners(m, RightLens), RectCorners(m, RightFrame), inner, outer, grow);
  }

  /**
   * A lens whose columns run between int(lo) and int(hi), in either order,
   * lies within a frame whose columns run between int(lo - grow) and int(hi + grow).
   */
  lemma OutwardColumns(lens: Corners, frame: Corners, lo: real, hi: real, grow: real)
    requires lo <= hi && 0.0 <= grow
    requires (lens.start.col, lens.end.col) == (PyInt(lo), PyInt(hi))
          || (lens.start.col, lens.end.col) == (PyInt(hi), PyInt(lo))
    requires (frame.start.col, frame.end.col) == (PyInt(lo - grow), PyInt(hi + grow))
          || (frame.start.col, frame.end.col) == (PyInt(hi + grow), PyInt(lo - grow))
    ensures RectRegion(frame.start, frame.end).left <= RectRegion(lens.start, lens.end).left
    ensures RectRegion(lens.start, lens.end).right <= RectRegion(frame.start, frame.end).right
  {
    PyIntMonotone(lo - grow, lo);
    PyIntMonotone(lo, hi);
    PyIntMonotone(hi, hi + grow);
  }

  /**
   * With a bridge at least one pixel wide the lenses share no pixel: every
   * left-lens column is at most int(256 - bridge_w / 2), which is below
   * int(256 + bridge_w / 2), which bounds every right-lens column from below,
   * although the left lens's corners come with descending columns.
   */
  lemma RectLensesDisjoint(m: RectMeasures)
    requires 1 <= m.bridgeW && 0 <= m.width
    ensures forall p :: InBox(RectBox(m, LeftLens), p) ==> p.col <= PyInt(256.0 - m.bridgeW as real / 2.0)
    ensures forall p :: InBox(RectBox(m, RightLens), p) ==> PyInt(256.0 + m.bridgeW as real / 2.0) <= p.col
    ensures PyInt(256.0 - m.bridgeW as real / 2.0) < PyInt(256.0 + m.bridgeW as real / 2.0)
    ensures forall p :: !(InBox(RectBox(m, LeftLens), p) && InBox(RectBox(m, RightLens), p))
  {
    var w, bw := m.width as real, m.bridgeW as real;
    PyIntMonotone(256.0 - bw / 2.0 - w, 256.0 - bw / 2.0);
    PyIntMonotone(256.0 + bw / 2.0, 256.0 + bw / 2.0 + w);
  }

  /**
   * The rectangle temples are placed from column 256 -/+ width and ignore
   * bridge_w / 2: once bridge_w is at least 8 * temple_holder_w (and at most
   * 2 * width + 4.2 * temple_holder_w) each temple lies wholly inside its lens,
   * whose rows are no fewer than the temple's.
   */
  lemma RectTempleInsideLens(m: RectMeasures)
    requires 0 <= m.templeH <= m.height && 0 <= m.width && 0 <= m.templeW
    requires 8 * m.templeW <= m.bridgeW && 5 * m.bridgeW <= 10 * m.width + 21 * m.templeW
    ensures forall p :: InBox(RectBox(m, LeftTemple), p) ==> InBox(RectBox(m, LeftLens), p)
    ensures forall p :: InBox(RectBox(m, RightTemple), p) ==> InBox(RectBox(m, RightLens), p)
  {
    var h, w, bw := m.height as real, m.width as real, m.bridgeW as real;
    var th, tw := m.templeH as real, m.templeW as real;
    NestedBoxes(RectCorners(m, LeftTemple), RectCorners(m, LeftLens),
                128.0 - th / 2.0, 128.0 + th / 2.0, 256.0 - w - tw * 4.0, 256.0 - w - tw * 2.1,
                128.0 - h / 2.0, 128.0 + h / 2.0, 256.0 - bw / 2.0 - w, 256.0 - bw / 2.0);
    NestedBoxes(RectCorners(m, RightTemple), RectCorners(m, RightLens),
                128.0 - th / 2.0, 128.0 + th / 2.0, 256.0 + w + tw * 2.1, 256.0 + w + tw * 4.0,
                128.0 - h / 2.0, 128.0 + h / 2.0, 256.0 + bw / 2.0, 256.0 + bw / 2.0 + w);
  }

  /**
   * Two parts whose corners are int() of real bounds, the columns in either
   * order: when the first part's bounds lie within the second's, so do its pixels.
   */
  lemma NestedBoxes(a: Corners, b: Corners,
                    aTop: real, aBottom: real, aLeft: real, aRight: real,
                    bTop: real, bBottom: real, bLeft: real, bRight: real)
    requires bTop <= aTop <= aBottom <= bBottom && bLeft <= aLeft <= aRight <= bRight
    requires a.start.row == PyInt(aTop) && a.end.row == PyInt(aBottom)
    requires (a.start.col, a.end.col) == (PyInt(aLeft), PyInt(aRight))
          || (a.start.col, a.end.col) == (PyInt(aRight), PyInt(aLeft))
    requires b.start.row == PyInt(bTop) && b.end.row == PyInt(bBottom)
    requires (b.start.col, b.end.col) == (PyInt(bLeft), PyInt(bRight))
          || (b.start.col, b.end.col) == (PyInt(bRight), PyInt(bLeft))
    ensures forall p :: InBox(RectRegion(a.start, a.end), p) ==> InBox(RectRegion(b.start, b.end), p)
  {
    PyIntMonotone(bTop, aTop);
    PyIntMonotone(aTop, aBottom);
    PyIntMonotone(aBottom, bBottom);
    PyIntMonotone(bLeft, aLeft);
    PyIntMonotone(aLeft, aRight);
    PyIntMonotone(aRight, bRight);
    BoxWithinPixels(RectRegion(a.start, a.end), RectRegion(b.start, b.end));
  }

  /** int() of a non-negative number moved by a whole number k moves by exactly k. */
  lemma PyIntAddWhole(x: real, k: int)
    requires 0.0 <= x && 0 <= k
    ensures PyInt(x + k as real) == PyInt(x) + k
  {
  }

  /**
   * The two lenses are the same size, width + 1 columns by the same rows, when
   * the bridge and lenses stay to the right of column 0.
   */
  lemma RectLensesSameSize(m: RectMeasures)
    requires 0 <= m.width && 0 <= m.bridgeW && m.bridgeW + 2 * m.width <= 512
    ensures RectBox(m, LeftLens).right - RectBox(m, LeftLens).left == m.width
    ensures RectBox(m, RightLens).right - RectBox(m, RightLens).left == m.width
    ensures RectBox(m, LeftLens).top == RectBox(m, RightLens).top
    ensures RectBox(m, LeftLens).bottom == RectBox(m, RightLens).bottom
  {
    var w, bw := m.width as real, m.bridgeW as real;
    PyIntAddWhole(256.0 - bw / 2.0 - w, m.width);
    assert 256.0 - bw / 2.0 - w + w == 256.0 - bw / 2.0;
    PyIntAddWhole(256.0 + bw / 2.0, m.width);
    PyIntMonotone(256.0 - bw / 2.0 - w, 256.0 - bw / 2.0);
    PyIntMonotone(256.0 + bw / 2.0, 256.0 + bw / 2.0 + w);
  }

  /**
   * The rectangle bridge is inset by temple_holder_w / 1.5 on each side: it
   * runs from the inner edge of the left frame to the inner edge of the right
   * frame.
   */
  lemma RectBridgeMeetsFrames(m: RectMeasures)
    ensures RectCorners(m, Bridge).start.col == RectCorners(m, LeftFrame).start.col
    ensures RectCorners(m, Bridge).end.col == RectCorners(m, RightFrame).start.col
  {
  }

  // ---------------------------------------------------------------------------
  // Round style

  /**
   * The converted measures of a round-style pair of spectacles; the radius
   * (diameter * 36 / 2) stays a real number, as in the source.
   */
  datatype RoundMeasures = RoundMeasures(
    radius: real, bridgeW: int, bridgeH: int, templeH: int, templeW: int)

  datatype Side = Left | Right

  /** The arguments of one call to the circle rasterizer: centre row, centre column, radius. */
  datatype Circle = Circle(row: real, col: real, radius: real)

  /** +1 for the right side, -1 for the left: the direction away from the centre column. */
  function Dir(side: Side): real { if side == Left then -1.0 else 1.0 }

  /**
   * The lens circle of one side: on row 128, with the given radius, and its
   * inner extreme exactly at the end of the bridge, column 256 -/+ bridge_w / 2.
   */
  function RoundLensCircle(m: RoundMeasures, side: Side): (c: Circle)
    ensures c.row == 128.0 && c.radius == m.radius
    ensures side == Left ==> c.col + c.radius == 256.0 - m.bridgeW as real / 2.0
    ensures side == Right ==> c.col - c.radius == 256.0 + m.bridgeW as real / 2.0
  {
    Circle(128.0, 256.0 + Dir(side) * (m.radius + m.bridgeW as real / 2.0), m.radius)
  }

  /**
   * The frame circle of one side: concentric with its lens circle, the radius
   * grown by temple_holder_w / 1.5, so never smaller when that is non-negative.
   */
  function RoundFrameCircle(m: RoundMeasures, side: Side): (c: Circle)
    ensures c.row == RoundLensCircle(m, side).row && c.col == RoundLensCircle(m, side).col
    ensures c.radius - RoundLensCircle(m, side).radius == m.templeW as real / 1.5
    ensures 0 <= m.templeW ==> RoundLensCircle(m, side).radius <= c.radius
  {
    Circle(128.0, 256.0 + Dir(side) * (m.radius + m.bridgeW as real / 2.0),
           m.radius + m.templeW as real / 1.5)
  }

  /**
   * The round-style bridge, not inset: with non-negative measures it is
   * centred on (128, 256), its end rows summing to 255 or 256 and its end
   * columns to 511 or 512.
   */
  function RoundBridge(m: RoundMeasures): (c: Corners)
    ensures 0 <= m.bridgeH ==> c.start.row <= 128 <= c.end.row && 255 <= c.start.row + c.end.row <= 256
    ensures 0 <= m.bridgeW ==> c.start.col <= 256 <= c.end.col && 511 <= c.start.col + c.end.col <= 512
  {
    var bw, bh := m.bridgeW as real, m.bridgeH as real;
    Corners(Point(PyInt(128.0 - bh / 2.0), PyInt(256.0 - bw / 2.0)),
            Point(PyInt(128.0 + bh / 2.0), PyInt(256.0 + bw / 2.0)))
  }

  /**
   * The round-style temples, offset past the lens by multiples of
   * temple_holder_w: centred on row 128, and the start corner is the outer end.
   */
  function RoundTemple(m: RoundMeasures, side: Side): (c: Corners)
    ensures 0 <= m.templeH ==> c.start.row <= 128 <= c.end.row && 255 <= c.start.row + c.end.row <= 256
    ensures 0 <= m.templeW && side == Left ==> c.start.col <= c.end.col
    ensures 0 <= m.templeW && side == Right ==> c.end.col <= c.start.col
  {
    var bw, th, tw := m.bridgeW as real, m.templeH as real, m.templeW as real;
    var outerLeft, outerRight := 256.0 - bw / 2.0 - m.radius * 2.0, 256.0 + bw / 2.0 + m.radius * 2.0;
    assert 0 <= m.templeW ==> PyInt(outerLeft - tw * 2.0) <= PyInt(outerLeft - tw / 2.0)
                              && PyInt(outerRight + tw / 2.0) <= PyInt(outerRight + tw * 2.0) by {
      if 0 <= m.templeW {
        PyIntMonotone(outerLeft - tw * 2.0, outerLeft - tw / 2.0);
        PyIntMonotone(outerRight + tw / 2.0, outerRight + tw * 2.0);
      }
    }
    match side
    case Left =>
      Corners(Point(PyInt(128.0 - th / 2.0), PyInt(256.0 - bw / 2.0 - m.radius * 2.0 - tw * 2.0)),
              Point(PyInt(128.0 + th / 2.0), PyInt(256.0 - bw / 2.0 - m.radius * 2.0 - tw / 2.0)))
    case Right =>
      Corners(Point(PyInt(128.0 - th / 2.0), PyInt(256.0 + bw / 2.0 + m.radius * 2.0 + tw * 2.0)),
              Point(PyInt(128.0 + th / 2.0), PyInt(256.0 + bw / 2.0 + m.radius * 2.0 + tw / 2.0)))
  }

  function RoundBridgeBox(m: RoundMeasures): Box {
    RectRegion(RoundBridge(m).start, RoundBridge(m).end)
  }

  function RoundTempleBox(m: RoundMeasures, side: Side): Box {
    RectRegion(RoundTemple(m, side).start, RoundTemple(m, side).end)
  }

  /**
   * Each lens circle touches the end of the bridge: the bridge's end columns
   * are int() of the lens circles' inner extremes.
   */
  lemma RoundLensesMeetBridge(m: RoundMeasures)
    ensures RoundBridge(m).start.col
         == PyInt(RoundLensCircle(m, Left).col + RoundLensCircle(m, Left).radius)
    ensures RoundBridge(m).end.col
         == PyInt(RoundLensCircle(m, Right).col - RoundLensCircle(m, Right).radius)
  {
  }

  /**
   * With temple_holder_w >= 2 each temple on the canvas lies strictly outside
   * the horizontal extent of its lens circle.
   */
  lemma RoundTemplesBeyondLenses(m: RoundMeasures)
    requires 2 <= m.templeW
    requires BoxInCanvas(RoundTempleBox(m, Left)) && BoxInCanvas(RoundTempleBox(m, Right))
    ensures forall p :: InBox(RoundTempleBox(m, Left), p)
              ==> p.col as real < RoundLensCircle(m, Left).col - RoundLensCircle(m, Left).radius
    ensures forall p :: InBox(RoundTempleBox(m, Right), p)
              ==> p.col as real > RoundLensCircle(m, Right).col + RoundLensCircle(m, Right).radius
  {
    var bw, tw := m.bridgeW as real, m.templeW as real;
    var outerLeft := 256.0 - bw / 2.0 - m.radius * 2.0;
    var outerRight := 256.0 + bw / 2.0 + m.radius * 2.0;
    PyIntMonotone(outerLeft - tw * 2.0, outerLeft - tw / 2.0);
    PyIntMonotone(outerRight + tw / 2.0, outerRight + tw * 2.0);
  }
}
