/** The mask-seeded colour histograms: the foreground is every pixel whose
    projection-mask value is 0, and the background is every pixel with a
    positive mask value inside the foreground's extent grown by the
    inflation size. */
module MaskSeed {
  import opened Geometry
  import opened Images
  import opened Sums
  import opened Counting
  import opened Histograms

  /** The foreground extent tracked while scanning a mask: smallest and
      largest column and row of a pixel with mask value 0 (inclusive). */
  datatype Extent = Extent(minX: int, minY: int, maxX: int, maxY: int)

  /** The value the scan starts from: columns and rows past the image for
      the minima, 0 for the maxima. */
  function Start(mask: Mask): Extent
  {
    Extent(mask.cols, mask.rows, 0, 0)
  }

  predicate IsForeground(mask: Mask, i: int, j: int)
    requires mask.Valid() && 0 <= i < mask.rows && 0 <= j < mask.cols
  {
    mask.At(i, j) == 0
  }

  predicate HasForeground(mask: Mask)
    requires mask.Valid()
  {
    exists i, j :: 0 <= i < mask.rows && 0 <= j < mask.cols && IsForeground(mask, i, j)
  }

  /** The four comparisons made for a foreground pixel in row i, column j. */
  function Absorb(e: Extent, i: int, j: int): (r: Extent)
    ensures r.minX == Min(e.minX, j) && r.maxX == Max(e.maxX, j)
    ensures r.minY == Min(e.minY, i) && r.maxY == Max(e.maxY, i)
  {
    Extent(if j < e.minX then j else e.minX, if i < e.minY then i else e.minY,
           if j > e.maxX then j else e.maxX, if i > e.maxY then i else e.maxY)
  }

  /** The extent after scanning columns [0, n) of row i. */
  function ScanRow(mask: Mask, e: Extent, i: int, n: int): (r: Extent)
    requires mask.Valid() && 0 <= i < mask.rows && 0 <= n <= mask.cols
    ensures r.minX <= e.minX && r.minY <= e.minY && r.maxX >= e.maxX && r.maxY >= e.maxY
  {
    if n == 0 then e
    else
      var r := ScanRow(mask, e, i, n - 1);
      if IsForeground(mask, i, n - 1) then Absorb(r, i, n - 1) else r
  }

  /** The extent after scanning rows [0, n). */
  function ScanRows(mask: Mask, n: int): (r: Extent)
    requires mask.Valid() && 0 <= n <= mask.rows
    ensures r.minX <= mask.cols && r.minY <= mask.rows && r.maxX >= 0 && r.maxY >= 0
  {
    if n == 0 then Start(mask) else ScanRow(mask, ScanRows(mask, n - 1), n - 1, mask.cols)
  }

  function ForegroundExtent(mask: Mask): Extent
    requires mask.Valid()
  {
    ScanRows(mask, mask.rows)
  }

  /** The background box: the foreground extent grown by `pad` on every
      side and clamped to the image, through the normalising constructor. */
  function MaskSeedBox(mask: Mask, pad: int): (r: Rect)
    requires mask.Valid()
    ensures r.NonNegative()
  {
    var e := ForegroundExtent(mask);
    RectFromPoints(Point(Max(0, e.minX - pad), Max(0, e.minY - pad)),
                   Point(Min(mask.cols, e.maxX + pad), Min(mask.rows, e.maxY + pad)))
  }

  /** Scanning part of a row widens the extent to cover the foreground
      pixels seen, and leaves it alone when there are none. */
  lemma {:induction false} ScanRowCover(mask: Mask, e: Extent, i: int, n: int)
    requires mask.Valid() && 0 <= i < mask.rows && 0 <= n <= mask.cols
    ensures var r := ScanRow(mask, e, i, n);
      (forall j :: 0 <= j < n && IsForeground(mask, i, j) ==> r.minX <= j <= r.maxX && r.minY <= i <= r.maxY) &&
      ((forall j :: 0 <= j < n ==> !IsForeground(mask, i, j)) ==> r == e)
  {
    if n > 0 {
      ScanRowCover(mask, e, i, n - 1);
    }
  }

  /** Every change a row scan makes to the extent comes from one of the
      row's foreground pixels. */
  lemma {:induction false} ScanRowAttained(mask: Mask, e: Extent, i: int, n: int)
    requires mask.Valid() && 0 <= i < mask.rows && 0 <= n <= mask.cols
    ensures var r := ScanRow(mask, e, i, n);
      (r.minX == e.minX || exists j :: 0 <= j < n && IsForeground(mask, i, j) && r.minX == j) &&
      (r.maxX == e.maxX || exists j :: 0 <= j < n && IsForeground(mask, i, j) && r.maxX == j) &&
      (r.minY == e.minY || (r.minY == i && exists j :: 0 <= j < n && IsForeground(mask, i, j))) &&
      (r.maxY == e.maxY || (r.maxY == i && exists j :: 0 <= j < n && IsForeground(mask, i, j)))
  {
    if n > 0 {
      ScanRowAttained(mask, e, i, n - 1);
    }
  }

  /** The same over the first n rows, from the start value: every
      foreground pixel seen is covered, and with none the start value is
      kept. */
  lemma {:induction false} ScanRowsCover(mask: Mask, n: int)
    requires mask.Valid() && 0 <= n <= mask.rows
    ensures var r := ScanRows(mask, n);
      (forall i, j :: 0 <= i < n && 0 <= j < mask.cols && IsForeground(mask, i, j) ==>
         r.minX <= j <= r.maxX && r.minY <= i <= r.maxY) &&
      ((forall i, j :: 0 <= i < n && 0 <= j < mask.cols ==> !IsForeground(mask, i, j)) ==> r == Start(mask))
  {
    if n > 0 {
      ScanRowsCover(mask, n - 1);
      ScanRowCover(mask, ScanRows(mask, n - 1), n - 1, mask.cols);
    }
  }

  /** Each edge of the extent after n rows is the start value or a
      coordinate of a foreground pixel seen. */
  lemma {:induction false} ScanRowsAttained(mask: Mask, n: int)
    requires mask.Valid() && 0 <= n <= mask.rows
    ensures var r := ScanRows(mask, n);
      (r.minX == mask.cols || exists i, j :: 0 <= i < n && 0 <= j < mask.cols && IsForeground(mask, i, j) && r.minX == j) &&
      (r.maxX == 0 || exists i, j :: 0 <= i < n && 0 <= j < mask.cols && IsForeground(mask, i, j) && r.maxX == j) &&
      (r.minY == mask.rows || exists i, j :: 0 <= i < n && 0 <= j < mask.cols && IsForeground(mask, i, j) && r.minY == i) &&
      (r.maxY == 0 || exists i, j :: 0 <= i < n && 0 <= j < mask.cols && IsForeground(mask, i, j) && r.maxY == i)
  {
    if n > 0 {
      ScanRowsAttained(mask, n - 1);
      ScanRowAttained(mask, ScanRows(mask, n - 1), n - 1, mask.cols);
    }
  }

  /** The extent is exact: with a foreground, its four edges are the
      smallest and largest foreground column and row; without one, it is
      the start value. */
  lemma ForegroundExtentIsTight(mask: Mask)
    requires mask.Valid()
    ensures var e := ForegroundExtent(mask);
      (HasForeground(mask) ==>
         0 <= e.minX <= e.maxX < mask.cols && 0 <= e.minY <= e.maxY < mask.rows &&
         (forall i, j :: 0 <= i < mask.rows && 0 <= j < mask.cols && IsForeground(mask, i, j) ==>
            e.minX <= j <= e.maxX && e.minY <= i <= e.maxY) &&
         (exists i, j :: 0 <= i < mask.rows && 0 <= j < mask.cols && IsForeground(mask, i, j) && e.minX == j) &&
         (exists i, j :: 0 <= i < mask.rows && 0 <= j < mask.cols && IsForeground(mask, i, j) && e.maxX == j) &&
         (exists i, j :: 0 <= i < mask.rows && 0 <= j < mask.cols && IsForeground(mask, i, j) && e.minY == i) &&
         (exists i, j :: 0 <= i < mask.rows && 0 <= j < mask.cols && IsForeground(mask, i, j) && e.maxY == i)) &&
      (!HasForeground(mask) ==> e == Start(mask))
  {
    ScanRowsCover(mask, mask.rows);
    ScanRowsAttained(mask, mask.rows);
    var e := ForegroundExtent(mask);
    if HasForeground(mask) {
      var i0, j0 :| 0 <= i0 < mask.rows && 0 <= j0 < mask.cols && IsForeground(mask, i0, j0);
      if e.maxX == 0 {
        assert IsForeground(mask, i0, j0) && e.maxX == j0;
      }
      if e.maxY == 0 {
        assert IsForeground(mask, i0, j0) && e.maxY == i0;
      }
    }
  }

  /** The background box lies inside the image whenever the inflation size
      is not negative, so every background read is in bounds. With a
      foreground its corners are the clamped grown extent in order, and an
      inflation of at least one covers every foreground pixel. */
  lemma MaskSeedBoxFacts(mask: Mask, pad: int)
    requires mask.Valid() && pad >= 0
    ensures var r := MaskSeedBox(mask, pad);
      var e := ForegroundExtent(mask);
      r.InImage(mask.rows, mask.cols) &&
      (HasForeground(mask) ==>
         r.x == Max(0, e.minX - pad) && r.Right() == Min(mask.cols, e.maxX + pad) &&
         r.y == Max(0, e.minY - pad) && r.Bottom() == Min(mask.rows, e.maxY + pad)) &&
      (HasForeground(mask) && pad >= 1 ==>
         forall i, j :: 0 <= i < mask.rows && 0 <= j < mask.cols && IsForeground(mask, i, j) ==> r.Contains(Point(j, i)))
  {
    MaskSeedBoxInImage(mask, pad);
    if HasForeground(mask) {
      MaskSeedBoxCovers(mask, pad);
    }
  }

  /** For a non-negative inflation both clamped corners lie in the image,
      whatever the extent. */
  lemma MaskSeedBoxInImage(mask: Mask, pad: int)
    requires mask.Valid() && pad >= 0
    ensures MaskSeedBox(mask, pad).InImage(mask.rows, mask.cols)
  {
    var e := ForegroundExtent(mask);
    var p1 := Point(Max(0, e.minX - pad), Max(0, e.minY - pad));
    var p2 := Point(Min(mask.cols, e.maxX + pad), Min(mask.rows, e.maxY + pad));
    assert MaskSeedBox(mask, pad) == RectFromPoints(p1, p2);
    assert 0 <= p1.x <= mask.cols && 0 <= p2.x <= mask.cols;
    assert 0 <= p1.y <= mask.rows && 0 <= p2.y <= mask.rows;
  }

  /** With a foreground the clamped corners come in order, and an inflation
      of at least one puts every foreground pixel strictly before the far
      corner. */
  lemma MaskSeedBoxCovers(mask: Mask, pad: int)
    requires mask.Valid() && pad >= 0 && HasForeground(mask)
    ensures var r := MaskSeedBox(mask, pad);
      var e := ForegroundExtent(mask);
      r.x == Max(0, e.minX - pad) && r.Right() == Min(mask.cols, e.maxX + pad) &&
      r.y == Max(0, e.minY - pad) && r.Bottom() == Min(mask.rows, e.maxY + pad) &&
      (pad >= 1 ==>
         forall i, j :: 0 <= i < mask.rows && 0 <= j < mask.cols && IsForeground(mask, i, j) ==> r.Contains(Point(j, i)))
  {
    var e := ForegroundExtent(mask);
    var p1 := Point(Max(0, e.minX - pad), Max(0, e.minY - pad));
    var p2 := Point(Min(mask.cols, e.maxX + pad), Min(mask.rows, e.maxY + pad));
    assert MaskSeedBox(mask, pad) == RectFromPoints(p1, p2);
    ScanRowsCover(mask, mask.rows);
    var i0, j0 :| 0 <= i0 < mask.rows && 0 <= j0 < mask.cols && IsForeground(mask, i0, j0);
    assert e.minX <= j0 <= e.maxX && e.minY <= i0 <= e.maxY;
    assert p1.x <= p2.x && p1.y <= p2.y;
  }

  /** Without inflation the box misses the foreground pixels of the last
      foreground column: the extent's maxima are inclusive but the
      rectangle's far corner is exclusive. */
  lemma UninflatedBoxMissesLastColumn(mask: Mask)
    requires mask.Valid() && HasForeground(mask)
    ensures exists i, j :: 0 <= i < mask.rows && 0 <= j < mask.cols && IsForeground(mask, i, j) &&
                           !MaskSeedBox(mask, 0).Contains(Point(j, i))
  {
    ForegroundExtentIsTight(mask);
    MaskSeedBoxFacts(mask, 0);
    var e := ForegroundExtent(mask);
    var i, j :| 0 <= i < mask.rows && 0 <= j < mask.cols && IsForeground(mask, i, j) && e.maxX == j;
    assert !MaskSeedBox(mask, 0).Contains(Point(j, i));
  }

  /** Without a foreground the scan keeps its start value, so the box runs
      between (cols - pad, rows - pad) and (pad, pad), clamped; with no
      inflation that is the whole image. */
  lemma EmptyForegroundBox(mask: Mask, pad: int)
    requires mask.Valid() && pad >= 0 && !HasForeground(mask)
    ensures MaskSeedBox(mask, pad) == RectFromPoints(Point(Max(0, mask.cols - pad), Max(0, mask.rows - pad)),
                                                     Point(Min(mask.cols, pad), Min(mask.rows, pad)))
    ensures pad == 0 ==> MaskSeedBox(mask, pad) == Rect(0, 0, mask.cols, mask.rows)
  {
    ForegroundExtentIsTight(mask);
  }

  /** One pixel of the foreground pass: a pixel with mask value 0 casts its
      votes and is absorbed into the extent by the four comparisons; any
      other pixel changes nothing. */
  method VisitPixel(image: Image, mask: Mask, histogramSize: int, h: seq<seq<int>>, e: Extent, i: int, j: int)
    returns (h': seq<seq<int>>, e': Extent)
    requires Fits(MaskZero(mask), image) && ValidHistogramSize(histogramSize) && IsHistogram(h, histogramSize)
    requires 0 <= i < image.rows && 0 <= j < image.cols
    ensures IsHistogram(h', histogramSize)
    ensures forall k, b :: 0 <= k < 3 && 0 <= b < histogramSize ==>
      h'[k][b] == h[k][b] + Vote(image, MaskZero(mask), InBin(k, b, histogramSize), i, j)
    ensures e' == if IsForeground(mask, i, j) then Absorb(e, i, j) else e
  {
    h', e' := h, e;
    if mask.At(i, j) == 0 {
      h' := AddPixel(h, image.At(i, j), histogramSize);
      var topLeftX, topLeftY, bottomRightX, bottomRightY := e.minX, e.minY, e.maxX, e.maxY;
      if i < topLeftY { topLeftY := i; }
      if i > bottomRightY { bottomRightY := i; }
      if j < topLeftX { topLeftX := j; }
      if j > bottomRightX { bottomRightX := j; }
      e' := Extent(topLeftX, topLeftY, bottomRightX, bottomRightY);
    }
  }

  /** One row of the foreground pass, column by column. */
  method ScanImageRow(image: Image, mask: Mask, histogramSize: int, h: seq<seq<int>>, e: Extent, i: int)
    returns (h': seq<seq<int>>, e': Extent)
    requires Fits(MaskZero(mask), image) && ValidHistogramSize(histogramSize) && IsHistogram(h, histogramSize)
    requires 0 <= i < image.rows
    ensures IsHistogram(h', histogramSize)
    ensures forall k, b :: 0 <= k < 3 && 0 <= b < histogramSize ==>
      h'[k][b] == h[k][b] + RowCount(image, MaskZero(mask), InBin(k, b, histogramSize), i, 0, image.cols)
    ensures e' == ScanRow(mask, e, i, image.cols)
  {
    h', e' := h, e;
    for j := 0 to image.cols
      invariant IsHistogram(h', histogramSize)
      invariant forall k, b :: 0 <= k < 3 && 0 <= b < histogramSize ==>
        h'[k][b] == h[k][b] + RowCount(image, MaskZero(mask), InBin(k, b, histogramSize), i, 0, j)
      invariant e' == ScanRow(mask, e, i, j)
    {
      h', e' := VisitPixel(image, mask, histogramSize, h', e', i, j);
    }
  }

  /** The single pass over the whole image: counts the colours of the
      foreground pixels and tracks their extent. */
  method ScanForeground(image: Image, mask: Mask, histogramSize: int)
    returns (rawf: seq<seq<int>>, extent: Extent)
    requires Fits(MaskZero(mask), image) && ValidHistogramSize(histogramSize)
    ensures IsHistogram(rawf, histogramSize)
    ensures forall k :: 0 <= k < 3 ==> rawf[k] == Histogram(image, MaskZero(mask), Whole(image), k, histogramSize)
    ensures extent == ForegroundExtent(mask)
  {
    var sel := MaskZero(mask);
    rawf := [Zeros(histogramSize), Zeros(histogramSize), Zeros(histogramSize)];
    extent := Extent(image.cols, image.rows, 0, 0);
    for i := 0 to image.rows
      invariant IsHistogram(rawf, histogramSize)
      invariant forall k, b :: 0 <= k < 3 && 0 <= b < histogramSize ==>
        rawf[k][b] == RowsCount(image, sel, InBin(k, b, histogramSize), 0, i, 0, image.cols)
      invariant extent == ScanRows(mask, i)
    {
      rawf, extent := ScanImageRow(image, mask, histogramSize, rawf, extent, i);
    }
    forall k | 0 <= k < 3 ensures rawf[k] == Histogram(image, sel, Whole(image), k, histogramSize) {
      assert rawf[k] == Histogram(image, sel, Whole(image), k, histogramSize);
    }
  }

  /** Colour histograms seeded by a projection mask of the image's size.
      The background reads the mask inside the box, so the box must lie in
      the image, which a non-negative inflation guarantees
      (MaskSeedBoxFacts). */
  method ComputeColorHistogramsMask(image: Image, mask: Mask, histogramSize: int, inflateSize: int)
    returns (bbox: Rect, histf: seq<seq<real>>, histb: seq<seq<real>>)
    requires image.Valid() && mask.Valid() && mask.rows == image.rows && mask.cols == image.cols
    requires ValidHistogramSize(histogramSize)
    requires MaskSeedBox(mask, inflateSize).InImage(image.rows, image.cols)
    ensures bbox == MaskSeedBox(mask, inflateSize)
    ensures |histf| == 3 && |histb| == 3
    ensures forall k :: 0 <= k < 3 ==>
      histf[k] == Normalize(Histogram(image, MaskZero(mask), Whole(image), k, histogramSize)) &&
      histb[k] == Normalize(Histogram(image, MaskPositive(mask), bbox, k, histogramSize))
  {
    var rawf, extent := ScanForeground(image, mask, histogramSize);
    bbox := RectFromPoints(Point(Max(0, extent.minX - inflateSize), Max(0, extent.minY - inflateSize)),
                           Point(Min(image.cols, extent.maxX + inflateSize), Min(image.rows, extent.maxY + inflateSize)));
    var rawb := CountBox(image, MaskPositive(mask), bbox, histogramSize);
    histb := NormalizeChannels(rawb);
    histf := NormalizeChannels(rawf);
  }
}
