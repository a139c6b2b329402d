/** Set-up of the per-pixel foreground/background posterior planes. Plane 0
    starts at 0 and plane 1 at the background prior 1 / area_b; the
    per-pixel kernel then rewrites the pixels of the box, row by row. The
    kernel's body is not part of this model: it is a parameter giving the
    pair of plane values it writes at row i, column j. */
module Posterior {
  import opened Geometry
  import opened Images

  const AreaF: real := 500.0
  const AreaB: real := 100.0

  /** The value plane 1 holds wherever the kernel does not write. */
  const BackgroundPrior: real := 1.0 / AreaB

  /** The plane values the set-up leaves at row i, column j: the kernel's
      pair inside the box, the priors (0, 1 / area_b) everywhere else. */
  function PlanesAt(kernel: (int, int) -> (real, real), bbox: Rect, i: int, j: int): (v: (real, real))
    ensures !bbox.Contains(Point(j, i)) ==> v == (0.0, 0.01)
    ensures bbox.Contains(Point(j, i)) ==> v == kernel(i, j)
  {
    if bbox.Contains(Point(j, i)) then kernel(i, j) else (0.0, BackgroundPrior)
  }

  /** The box-restricted overload: allocates both planes at the image's
      size, fills them with the priors and runs the kernel over the rows
      [bbox.y, bbox.y + bbox.height), each over the box's columns. */
  method ComputePixelwisePosteriorInBox(image: Image, kernel: (int, int) -> (real, real), bbox: Rect)
    returns (pf: array2<real>, pb: array2<real>)
    requires image.Valid() && bbox.InImage(image.rows, image.cols)
    ensures fresh(pf) && fresh(pb) && pf != pb
    ensures pf.Length0 == image.rows && pf.Length1 == image.cols
    ensures pb.Length0 == image.rows && pb.Length1 == image.cols
    ensures forall i, j :: 0 <= i < image.rows && 0 <= j < image.cols ==>
      pf[i, j] == PlanesAt(kernel, bbox, i, j).0 && pb[i, j] == PlanesAt(kernel, bbox, i, j).1
  {
    pf := new real[image.rows, image.cols]((i, j) => 0.0);
    pb := new real[image.rows, image.cols]((i, j) => BackgroundPrior);
    for i := bbox.y to bbox.Bottom()
      invariant forall r, c :: 0 <= r < image.rows && 0 <= c < image.cols ==>
        (pf[r, c], pb[r, c]) == if r < i then PlanesAt(kernel, bbox, r, c) else (0.0, BackgroundPrior)
    {
      for j := bbox.x to bbox.Right()
        invariant forall r, c :: 0 <= r < image.rows && 0 <= c < image.cols ==>
          (pf[r, c], pb[r, c]) == if r < i || (r == i && c < j) then PlanesAt(kernel, bbox, r, c) else (0.0, BackgroundPrior)
      {
        var v := kernel(i, j);
        pf[i, j] := v.0;
        pb[i, j] := v.1;
      }
    }
  }

  /** The whole-image overload: the box is the full frame, so the kernel
      writes every pixel. */
  method ComputePixelwisePosterior(image: Image, kernel: (int, int) -> (real, real))
    returns (pf: array2<real>, pb: array2<real>)
    requires image.Valid()
    ensures fresh(pf) && fresh(pb) && pf != pb
    ensures pf.Length0 == image.rows && pf.Length1 == image.cols
    ensures pb.Length0 == image.rows && pb.Length1 == image.cols
    ensures forall i, j :: 0 <= i < image.rows && 0 <= j < image.cols ==>
      (pf[i, j], pb[i, j]) == kernel(i, j)
  {
    pf, pb := ComputePixelwisePosteriorInBox(image, kernel, Rect(0, 0, image.cols, image.rows));
  }
}
