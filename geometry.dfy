/** Integer rectangle algebra of the tracker: cv::Point, cv::Rect, the
    rectangle inflation used to sample a background ring, intersection over
    union, the enclosing rectangle of an edge-pixel list and the area of a
    protobuf bounding box. */
module Geometry {

  function Min(a: int, b: int): int { if a <= b then a else b }
  function Max(a: int, b: int): int { if a >= b then a else b }

  /** An integer pixel position: x is the column, y the row. */
  datatype Point = Point(x: int, y: int)

  /** A cv::Rect: top-left corner (x, y), width and height. The bottom-right
      corner (x + width, y + height) is exclusive. */
  datatype Rect = Rect(x: int, y: int, width: int, height: int)
  {
    function Right(): int { x + width }
    function Bottom(): int { y + height }
    function Area(): int { width * height }

    predicate NonNegative() { width >= 0 && height >= 0 }

    /** Half-open membership: the pixel (p.x, p.y) lies inside the rectangle. */
    predicate Contains(p: Point) { x <= p.x < Right() && y <= p.y < Bottom() }

    /** The rectangle is a region of a rows-by-cols image; this is what
        OpenCV asserts before it takes image(rect). */
    predicate InImage(rows: int, cols: int)
    {
      0 <= x && 0 <= width && Right() <= cols &&
      0 <= y && 0 <= height && Bottom() <= rows
    }

    /** Every pixel of this rectangle is a pixel of `outer`. */
    predicate Within(outer: Rect)
    {
      outer.x <= x && Right() <= outer.Right() && outer.y <= y && Bottom() <= outer.Bottom()
    }
  }

  /** The cv::Rect(Point, Point) constructor: it takes the smaller coordinates
      as the corner and the absolute differences as the sizes, so the result
      never has a negative size whatever order the corners come in. */
  function RectFromPoints(p1: Point, p2: Point): (r: Rect)
    ensures r.NonNegative()
    ensures r.x == Min(p1.x, p2.x) && r.Right() == Max(p1.x, p2.x)
    ensures r.y == Min(p1.y, p2.y) && r.Bottom() == Max(p1.y, p2.y)
  {
    var x := Min(p1.x, p2.x);
    var y := Min(p1.y, p2.y);
    Rect(x, y, Max(p1.x, p2.x) - x, Max(p1.y, p2.y) - y)
  }

  /** Two equal corners give the empty rectangle at that corner. */
  lemma CornerRect(p: Point)
    ensures RectFromPoints(p, p) == Rect(p.x, p.y, 0, 0)
  {
  }

  // ---------------------------------------------------------------------
  // InflateRect
  // ---------------------------------------------------------------------

  /** The rectangle grown by `pad` on every side with the new corners clamped
      to [0, cols] x [0, rows]; written out again inside the rectangle-seed
      histogram builder, where it is used even for a pad of zero. */
  function ClampedInflate(rect: Rect, rows: int, cols: int, pad: int): (r: Rect)
    ensures r.NonNegative()
  {
    RectFromPoints(Point(Max(rect.x - pad, 0), Max(rect.y - pad, 0)),
                   Point(Min(rect.x + rect.width + pad, cols), Min(rect.y + rect.height + pad, rows)))
  }

  /** InflateRect: a pad of zero returns the rectangle as it is (no clipping
      even if it leaves the image); any other pad grows and clamps it. */
  function InflateRect(rect: Rect, rows: int, cols: int, pad: int): (r: Rect)
    ensures pad == 0 ==> r == rect
    ensures pad != 0 ==> r.NonNegative()
  {
    if pad == 0 then rect else ClampedInflate(rect, rows, cols, pad)
  }

  /** For a positive pad and a rectangle inside the image, the inflated
      rectangle has the clamped corners literally (no reordering happens),
      lies inside the image and contains the original rectangle. */
  lemma InflateRectInImage(rect: Rect, rows: int, cols: int, pad: int)
    requires pad > 0 && rect.InImage(rows, cols)
    ensures var r := InflateRect(rect, rows, cols, pad);
      && r.x == Max(rect.x - pad, 0) && r.y == Max(rect.y - pad, 0)
      && r.Right() == Min(rect.Right() + pad, cols) && r.Bottom() == Min(rect.Bottom() + pad, rows)
      && r.InImage(rows, cols)
      && rect.Within(r)
  {
  }

  /** The clamps are one-sided: the grown top-left corner is only raised to
      0 and the grown bottom-right corner only lowered to the image size, so
      a rectangle beyond the right edge comes back reordered and still
      partly outside the image. */
  lemma InflateBeyondImage()
    ensures InflateRect(Rect(20, 0, 1, 1), 10, 10, 1) == Rect(10, 0, 9, 2)
    ensures !InflateRect(Rect(20, 0, 1, 1), 10, 10, 1).InImage(10, 10)
  {
  }

  /** A negative pad larger than half the size makes the corners cross; the
      constructor swaps them back, and the result contains the seed. */
  lemma ShrinkPastCentre()
    ensures ClampedInflate(Rect(5, 5, 2, 2), 10, 10, -3) == Rect(4, 4, 4, 4)
    ensures Rect(5, 5, 2, 2).Within(ClampedInflate(Rect(5, 5, 2, 2), 10, 10, -3))
  {
  }

  /** Inside the image the clamped form agrees with InflateRect for every
      non-negative pad, zero included: the histogram builder's inline copy
      is InflateRect. */
  lemma ClampedInflateIsInflateRect(rect: Rect, rows: int, cols: int, pad: int)
    requires pad >= 0 && rect.InImage(rows, cols)
    ensures ClampedInflate(rect, rows, cols, pad) == InflateRect(rect, rows, cols, pad)
    ensures ClampedInflate(rect, rows, cols, pad).InImage(rows, cols)
    ensures rect.Within(ClampedInflate(rect, rows, cols, pad))
  {
    if pad > 0 {
      InflateRectInImage(rect, rows, cols, pad);
    }
  }

  // ---------------------------------------------------------------------
  // ComputeIoU
  // ---------------------------------------------------------------------

  /** The half-open extents of the two rectangles overlap on both axes, so
      their intersection has a positive area. Rectangles that only touch do
      not overlap. */
  predicate Overlap(r1: Rect, r2: Rect)
  {
    Max(r1.x, r2.x) < Min(r1.Right(), r2.Right()) && Max(r1.y, r2.y) < Min(r1.Bottom(), r2.Bottom())
  }

  /** The area of the intersection of two overlapping rectangles. */
  function IntersectionArea(r1: Rect, r2: Rect): int
  {
    (Min(r1.Right(), r2.Right()) - Max(r1.x, r2.x)) * (Min(r1.Bottom(), r2.Bottom()) - Max(r1.y, r2.y))
  }

  /** The area covered by either rectangle. */
  function UnionArea(r1: Rect, r2: Rect): int
  {
    r1.Area() + r2.Area() - IntersectionArea(r1, r2)
  }

  /** The intersection-over-union formula, independent of argument order and
      of any sorting: 0 without overlap, otherwise the intersection area over
      the union area plus eps. */
  function IoUFormula(r1: Rect, r2: Rect, eps: real): real
    requires eps > 0.0
    requires r1.NonNegative() && r2.NonNegative()
  {
    if Overlap(r1, r2) then
      IntersectionBounds(r1, r2);
      IntersectionArea(r1, r2) as real / (UnionArea(r1, r2) as real + eps)
    else 0.0
  }

  function Abs(v: int): int { if v < 0 then -v else v }

  lemma ProductMonotone(a: int, b: int, c: int, d: int)
    requires 0 <= a <= c && 0 <= b <= d
    ensures 0 <= a * b <= c * d
  {
    assert a * b <= c * b;
    assert c * b <= c * d;
  }

  /** The overlap facts ComputeIoU relies on: for non-negative sizes the
      intersection area is at most either area, and once both extents are
      ordered it is zero exactly when the rectangles do not overlap. */
  lemma IntersectionBounds(r1: Rect, r2: Rect)
    requires r1.NonNegative() && r2.NonNegative()
    requires Max(r1.x, r2.x) <= Min(r1.Right(), r2.Right()) && Max(r1.y, r2.y) <= Min(r1.Bottom(), r2.Bottom())
    ensures 0 <= IntersectionArea(r1, r2) <= r1.Area() && IntersectionArea(r1, r2) <= r2.Area()
    ensures IntersectionArea(r1, r2) == 0 <==> !Overlap(r1, r2)
  {
    var w := Min(r1.Right(), r2.Right()) - Max(r1.x, r2.x);
    var h := Min(r1.Bottom(), r2.Bottom()) - Max(r1.y, r2.y);
    assert IntersectionArea(r1, r2) == w * h;
    ProductMonotone(w, h, r1.width, r1.height);
    ProductMonotone(w, h, r2.width, r2.height);
    if w > 0 && h > 0 {
      ProductMonotone(1, 1, w, h);
    } else if w == 0 {
      assert w * h == 0 * h == 0;
    } else {
      assert h == 0;
      assert w * h == w * 0 == 0;
    }
  }

  /** intersection / (total + eps) for 0 <= intersection <= total. */
  function IoURatio(intersection: int, total: int, eps: real): (q: real)
    requires eps > 0.0 && 0 <= intersection <= total
    ensures 0.0 <= q < 1.0
    ensures q == 0.0 <==> intersection == 0
    ensures q == intersection as real / (total as real + eps)
  {
    var n, d := intersection as real, total as real + eps;
    assert 0.0 <= n < d;
    var q := n / d;
    assert q * d == n;
    q
  }

  /** ComputeIoU: the rectangles are sorted by left edge and then by top
      edge, an empty overlap on either axis returns 0 outright, and otherwise
      the overlap area is divided by the union area plus `eps`. The value
      of `eps` is declared in tracker_utils.h; the model only needs eps > 0.
      The result is 0 exactly when the rectangles do not overlap, it
      agrees with the order-free formula IoUFormula, and it is always below
      1 because eps is added even for identical rectangles. */
  function ComputeIoU(r1: Rect, r2: Rect, eps: real): (iou: real)
    requires eps > 0.0
    requires r1.NonNegative() && r2.NonNegative()
    ensures iou == 0.0 <==> !Overlap(r1, r2)
    ensures iou == IoUFormula(r1, r2, eps)
    ensures 0.0 <= iou < 1.0
  {
    if r1.x > r2.x then
      SwapInvariant(r1, r2);
      IoUSortedByX(r2, r1, eps)
    else
      IoUSortedByX(r1, r2, eps)
  }

  /** Overlap, intersection and union do not depend on the order of the
      two rectangles. */
  lemma SwapInvariant(r1: Rect, r2: Rect)
    ensures Overlap(r1, r2) == Overlap(r2, r1)
    ensures IntersectionArea(r1, r2) == IntersectionArea(r2, r1)
    ensures UnionArea(r1, r2) == UnionArea(r2, r1)
  {
    assert Min(r1.Right(), r2.Right()) == Min(r2.Right(), r1.Right());
    assert Max(r1.x, r2.x) == Max(r2.x, r1.x);
    assert Min(r1.Bottom(), r2.Bottom()) == Min(r2.Bottom(), r1.Bottom());
    assert Max(r1.y, r2.y) == Max(r2.y, r1.y);
  }

  /** The part of ComputeIoU after the first swap, with a.x <= b.x. */
  function IoUSortedByX(a: Rect, b: Rect, eps: real): (iou: real)
    requires eps > 0.0
    requires a.NonNegative() && b.NonNegative() && a.x <= b.x
    ensures iou == 0.0 <==> !Overlap(a, b)
    ensures iou == IoUFormula(a, b, eps)
    ensures 0.0 <= iou < 1.0
  {
    if a.Right() <= b.x then 0.0
    else
      var tlX := Max(a.x, b.x);
      var brX := Min(a.Right(), b.Right());
      var (c, d) := if a.y > b.y then (b, a) else (a, b);
      if c.Bottom() <= d.y then 0.0
      else
        var tlY := Max(c.y, d.y);
        var brY := Min(c.Bottom(), d.Bottom());
        var intersection := Abs((brX - tlX) * (brY - tlY));
        var total := c.Area() + d.Area() - intersection;
        IntersectionBounds(a, b);
        assert intersection == IntersectionArea(a, b);
        assert total == UnionArea(a, b);
        IoURatio(intersection, total, eps)
  }

  /** ComputeIoU does not depend on the order of its arguments. */
  lemma IoUSymmetric(r1: Rect, r2: Rect, eps: real)
    requires eps > 0.0
    requires r1.NonNegative() && r2.NonNegative()
    ensures ComputeIoU(r1, r2, eps) == ComputeIoU(r2, r1, eps)
  {
  }

  /** A rectangle against itself: area / (area + eps), which is below 1 for
      every positive eps; a rectangle of zero area gives 0. */
  lemma IoUSelf(r: Rect, eps: real)
    requires eps > 0.0 && r.NonNegative()
    ensures r.Area() > 0 ==> ComputeIoU(r, r, eps) == r.Area() as real / (r.Area() as real + eps)
    ensures r.Area() == 0 ==> ComputeIoU(r, r, eps) == 0.0
  {
    if r.width > 0 && r.height > 0 {
      assert Overlap(r, r);
      assert IntersectionArea(r, r) == r.Area();
    } else {
      assert r.Area() == 0 by {
        if r.width == 0 { assert r.Area() == 0 * r.height; } else { assert r.Area() == r.width * 0; }
      }
    }
  }

  // ---------------------------------------------------------------------
  // BBoxArea
  // ---------------------------------------------------------------------

  /** A vlslam_pb::BoundingBox: two float corners. */
  datatype BoundingBox = BoundingBox(topLeftX: real, topLeftY: real, bottomRightX: real, bottomRightY: real)

  function RAbs(v: real): real { if v < 0.0 then -v else v }

  /** BBoxArea: the absolute value of the product of the corner differences.
      It is never negative, and it is zero exactly when the box is flat in
      one of the two directions. */
  function BBoxArea(b: BoundingBox): (a: real)
    ensures a >= 0.0
    ensures a == 0.0 <==> b.topLeftX == b.bottomRightX || b.topLeftY == b.bottomRightY
  {
    var p := (b.topLeftX - b.bottomRightX) * (b.topLeftY - b.bottomRightY);
    assert p == 0.0 <==> b.topLeftX == b.bottomRightX || b.topLeftY == b.bottomRightY;
    RAbs(p)
  }

  /** The protobuf box drawn from a rectangle's two corners (in either order)
      has the rectangle's area. */
  lemma BBoxAreaOfRect(r: Rect, flip: bool)
    requires r.NonNegative()
    ensures var b := if flip then BoundingBox(r.Right() as real, r.Bottom() as real, r.x as real, r.y as real)
                     else BoundingBox(r.x as real, r.y as real, r.Right() as real, r.Bottom() as real);
      BBoxArea(b) == r.Area() as real
  {
    var w, h := r.width as real, r.height as real;
    assert (-w) * (-h) == w * h;
    assert w * h == (r.width * r.height) as real;
    ProductMonotone(0, 0, r.width, r.height);
  }

  // ---------------------------------------------------------------------
  // RectEnclosedByContour
  // ---------------------------------------------------------------------

  /** The sentinel the source starts its running minima from. */
  const Sentinel: int := 10000

  datatype Axis = Horizontal | Vertical

  function Coord(p: Point, axis: Axis): int
  {
    if axis == Horizontal then p.x else p.y
  }

  /** The smaller of `init` and the `axis` coordinates of ps[0..n). */
  function RunningMin(ps: seq<Point>, n: nat, axis: Axis, init: int): int
    requires n <= |ps|
  {
    if n == 0 then init else Min(RunningMin(ps, n - 1, axis, init), Coord(ps[n - 1], axis))
  }

  /** The larger of `init` and the `axis` coordinates of ps[0..n). */
  function RunningMax(ps: seq<Point>, n: nat, axis: Axis, init: int): int
    requires n <= |ps|
  {
    if n == 0 then init else Max(RunningMax(ps, n - 1, axis, init), Coord(ps[n - 1], axis))
  }

  /** RunningMin is a lower bound of `init` and of every coordinate, and it
      is one of them. */
  lemma {:induction false} RunningMinIsMinimum(ps: seq<Point>, n: nat, axis: Axis, init: int)
    requires n <= |ps|
    ensures RunningMin(ps, n, axis, init) <= init
    ensures forall i :: 0 <= i < n ==> RunningMin(ps, n, axis, init) <= Coord(ps[i], axis)
    ensures RunningMin(ps, n, axis, init) == init
         || exists i :: 0 <= i < n && RunningMin(ps, n, axis, init) == Coord(ps[i], axis)
  {
    if n > 0 {
      RunningMinIsMinimum(ps, n - 1, axis, init);
    }
  }

  /** RunningMax is an upper bound of `init` and of every coordinate, and it
      is one of them. */
  lemma {:induction false} RunningMaxIsMaximum(ps: seq<Point>, n: nat, axis: Axis, init: int)
    requires n <= |ps|
    ensures RunningMax(ps, n, axis, init) >= init
    ensures forall i :: 0 <= i < n ==> RunningMax(ps, n, axis, init) >= Coord(ps[i], axis)
    ensures RunningMax(ps, n, axis, init) == init
         || exists i :: 0 <= i < n && RunningMax(ps, n, axis, init) == Coord(ps[i], axis)
  {
    if n > 0 {
      RunningMaxIsMaximum(ps, n - 1, axis, init);
    }
  }

  /** What RectEnclosedByContour returns: the zero rectangle at the origin
      for an empty list; otherwise the rectangle between the clamped running
      minima (started at the sentinel) and the clamped running maxima
      (started at 0), the maxima taken as the exclusive corner. */
  function EnclosedRect(ps: seq<Point>, rows: int, cols: int): Rect
  {
    var n := |ps|;
    if n == 0 then RectFromPoints(Point(0, 0), Point(0, 0))
    else
      RectFromPoints(Point(Max(0, RunningMin(ps, n, Horizontal, Sentinel)), Max(0, RunningMin(ps, n, Vertical, Sentinel))),
                     Point(Min(cols - 1, RunningMax(ps, n, Horizontal, 0)), Min(rows - 1, RunningMax(ps, n, Vertical, 0))))
  }

  /** The edge pixels lie inside a rows-by-cols image. */
  predicate AllInImage(ps: seq<Point>, rows: int, cols: int)
  {
    forall i :: 0 <= i < |ps| ==> 0 <= ps[i].x < cols && 0 <= ps[i].y < rows
  }

  /** RectEnclosedByContour: a running min/max over the edge pixels, clamped
      to the image and turned into a rectangle by the normalising
      constructor. */
  method RectEnclosedByContour(edgelist: seq<Point>, rows: int, cols: int) returns (r: Rect)
    ensures r == EnclosedRect(edgelist, rows, cols)
    ensures edgelist == [] ==> r == Rect(0, 0, 0, 0)
    ensures r.NonNegative()
  {
    if edgelist == [] {
      r := RectFromPoints(Point(0, 0), Point(0, 0));
      CornerRect(Point(0, 0));
      return;
    }
    var minX, minY, maxX, maxY := Sentinel, Sentinel, 0, 0;
    for n := 0 to |edgelist|
      invariant minX == RunningMin(edgelist, n, Horizontal, Sentinel)
      invariant minY == RunningMin(edgelist, n, Vertical, Sentinel)
      invariant maxX == RunningMax(edgelist, n, Horizontal, 0)
      invariant maxY == RunningMax(edgelist, n, Vertical, 0)
    {
      var e := edgelist[n];
      minX := Min(minX, e.x);
      minY := Min(minY, e.y);
      maxX := Max(maxX, e.x);
      maxY := Max(maxY, e.y);
    }
    minX := Max(0, minX);
    minY := Max(0, minY);
    maxX := Min(cols - 1, maxX);
    maxY := Min(rows - 1, maxY);
    r := RectFromPoints(Point(minX, minY), Point(maxX, maxY));
  }

  /** For edge pixels inside the image with coordinates below the sentinel,
      the enclosing rectangle is tight: its left and top edges are the
      smallest coordinates of the list, its exclusive right and bottom edges
      are the largest ones, every edge pixel lies in the closed box, and it
      lies inside the image. The pixels on the right and bottom extremes are
      therefore not contained in the half-open rectangle. */
  lemma EnclosedRectTight(ps: seq<Point>, rows: int, cols: int)
    requires ps != [] && AllInImage(ps, rows, cols)
    requires forall i :: 0 <= i < |ps| ==> ps[i].x < Sentinel && ps[i].y < Sentinel
    ensures var r := EnclosedRect(ps, rows, cols);
      && r.InImage(rows, cols) && r.Right() < cols && r.Bottom() < rows
      && (forall i :: 0 <= i < |ps| ==>
            r.x <= ps[i].x <= r.Right() && r.y <= ps[i].y <= r.Bottom())
      && (exists i :: 0 <= i < |ps| && ps[i].x == r.x)
      && (exists i :: 0 <= i < |ps| && ps[i].y == r.y)
      && (exists i :: 0 <= i < |ps| && ps[i].x == r.Right())
      && (exists i :: 0 <= i < |ps| && ps[i].y == r.Bottom())
      && (forall i :: 0 <= i < |ps| ==>
            (r.Contains(ps[i]) <==> ps[i].x < r.Right() && ps[i].y < r.Bottom()))
  {
    EnclosedRectCorners(ps, rows, cols);
    EnclosedRectBounds(ps, rows, cols);
    ExtremesAttained(ps, rows, cols);
  }

  /** Every edge pixel lies in the closed box. */
  lemma EnclosedRectBounds(ps: seq<Point>, rows: int, cols: int)
    requires ps != [] && AllInImage(ps, rows, cols)
    requires forall i :: 0 <= i < |ps| ==> ps[i].x < Sentinel && ps[i].y < Sentinel
    ensures var r := EnclosedRect(ps, rows, cols);
      forall i :: 0 <= i < |ps| ==> r.x <= ps[i].x <= r.Right() && r.y <= ps[i].y <= r.Bottom()
  {
    var n := |ps|;
    EnclosedRectCorners(ps, rows, cols);
    RunningMinIsMinimum(ps, n, Horizontal, Sentinel);
    RunningMinIsMinimum(ps, n, Vertical, Sentinel);
    RunningMaxIsMaximum(ps, n, Horizontal, 0);
    RunningMaxIsMaximum(ps, n, Vertical, 0);
    var r := EnclosedRect(ps, rows, cols);
    forall i | 0 <= i < n
      ensures r.x <= ps[i].x <= r.Right() && r.y <= ps[i].y <= r.Bottom()
    {
      assert Coord(ps[i], Horizontal) == ps[i].x && Coord(ps[i], Vertical) == ps[i].y;
    }
  }

  /** Each of the four running extremes is the coordinate of some edge
      pixel. */
  lemma ExtremesAttained(ps: seq<Point>, rows: int, cols: int)
    requires ps != [] && AllInImage(ps, rows, cols)
    requires forall i :: 0 <= i < |ps| ==> ps[i].x < Sentinel && ps[i].y < Sentinel
    ensures var n := |ps|;
      && (exists i :: 0 <= i < n && ps[i].x == RunningMin(ps, n, Horizontal, Sentinel))
      && (exists i :: 0 <= i < n && ps[i].y == RunningMin(ps, n, Vertical, Sentinel))
      && (exists i :: 0 <= i < n && ps[i].x == RunningMax(ps, n, Horizontal, 0))
      && (exists i :: 0 <= i < n && ps[i].y == RunningMax(ps, n, Vertical, 0))
  {
    var n := |ps|;
    RunningMinIsMinimum(ps, n, Horizontal, Sentinel);
    RunningMinIsMinimum(ps, n, Vertical, Sentinel);
    RunningMaxIsMaximum(ps, n, Horizontal, 0);
    RunningMaxIsMaximum(ps, n, Vertical, 0);
    var lx, ly := RunningMin(ps, n, Horizontal, Sentinel), RunningMin(ps, n, Vertical, Sentinel);
    var hx, hy := RunningMax(ps, n, Horizontal, 0), RunningMax(ps, n, Vertical, 0);
    var ix :| 0 <= ix < n && lx == Coord(ps[ix], Horizontal);
    var iy :| 0 <= iy < n && ly == Coord(ps[iy], Vertical);
    assert 0 <= lx <= hx && 0 <= ly <= hy;
    var jx, jy := ix, iy;
    if hx != 0 {
      jx :| 0 <= jx < n && hx == Coord(ps[jx], Horizontal);
    }
    if hy != 0 {
      jy :| 0 <= jy < n && hy == Coord(ps[jy], Vertical);
    }
    assert ps[ix].x == lx && ps[iy].y == ly && ps[jx].x == hx && ps[jy].y == hy;
  }

  /** Under the same conditions the corners are the running extremes
      themselves: no clamping takes effect and the corners are in order. */
  lemma EnclosedRectCorners(ps: seq<Point>, rows: int, cols: int)
    requires ps != [] && AllInImage(ps, rows, cols)
    requires forall i :: 0 <= i < |ps| ==> ps[i].x < Sentinel && ps[i].y < Sentinel
    ensures var r := EnclosedRect(ps, rows, cols);
      var n := |ps|;
      && r.x == RunningMin(ps, n, Horizontal, Sentinel) && r.Right() == RunningMax(ps, n, Horizontal, 0)
      && r.y == RunningMin(ps, n, Vertical, Sentinel) && r.Bottom() == RunningMax(ps, n, Vertical, 0)
      && r.InImage(rows, cols) && r.Right() < cols && r.Bottom() < rows
  {
    var n := |ps|;
    RunningMinIsMinimum(ps, n, Horizontal, Sentinel);
    RunningMinIsMinimum(ps, n, Vertical, Sentinel);
    RunningMaxIsMaximum(ps, n, Horizontal, 0);
    RunningMaxIsMaximum(ps, n, Vertical, 0);
    assert Coord(ps[0], Horizontal) == ps[0].x && Coord(ps[0], Vertical) == ps[0].y;
    var lx, ly := RunningMin(ps, n, Horizontal, Sentinel), RunningMin(ps, n, Vertical, Sentinel);
    var hx, hy := RunningMax(ps, n, Horizontal, 0), RunningMax(ps, n, Vertical, 0);
    assert 0 <= lx <= hx < cols && 0 <= ly <= hy < rows;
    var r := EnclosedRect(ps, rows, cols);
    assert r == RectFromPoints(Point(Max(0, lx), Max(0, ly)), Point(Min(cols - 1, hx), Min(rows - 1, hy)));
    assert r.x == lx && r.Right() == hx && r.y == ly && r.Bottom() == hy;
  }

  /** A non-empty list of edge pixels inside the image gives a rectangle
      inside the image, with or without coordinates beyond the sentinel. */
  lemma EnclosedRectInImage(ps: seq<Point>, rows: int, cols: int)
    requires ps != [] && AllInImage(ps, rows, cols)
    ensures EnclosedRect(ps, rows, cols).InImage(rows, cols)
  {
    var n := |ps|;
    RunningMinIsMinimum(ps, n, Horizontal, Sentinel);
    RunningMinIsMinimum(ps, n, Vertical, Sentinel);
    RunningMaxIsMaximum(ps, n, Horizontal, 0);
    RunningMaxIsMaximum(ps, n, Vertical, 0);
    assert Coord(ps[0], Horizontal) == ps[0].x && Coord(ps[0], Vertical) == ps[0].y;
    var lx, ly := RunningMin(ps, n, Horizontal, Sentinel), RunningMin(ps, n, Vertical, Sentinel);
    var hx, hy := RunningMax(ps, n, Horizontal, 0), RunningMax(ps, n, Vertical, 0);
    assert lx < cols && ly < rows && hx >= 0 && hy >= 0;
    var p1, p2 := Point(Max(0, lx), Max(0, ly)), Point(Min(cols - 1, hx), Min(rows - 1, hy));
    assert 0 <= p1.x < cols && 0 <= p1.y < rows && 0 <= p2.x < cols && 0 <= p2.y < rows;
    assert EnclosedRect(ps, rows, cols) == RectFromPoints(p1, p2);
  }
}
