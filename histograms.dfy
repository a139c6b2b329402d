/** The two colour-histogram builders of the tracker: one seeded by a
    bounding box (foreground inside it, background in the ring an inflated
    box adds around it), one seeded by a projection mask (foreground where
    the mask is 0, background where it is positive inside the inflated
    extent of the foreground). Each builds raw per-channel bin counts in
    nested pixel loops and then normalises them. */
module Histograms {
  import opened Geometry
  import opened Images
  import opened Sums
  import opened Counting

  /** Three channels of `histogramSize` bins each. */
  predicate IsHistogram(h: seq<seq<int>>, histogramSize: int)
  {
    |h| == 3 && forall k :: 0 <= k < 3 ==> |h[k]| == histogramSize
  }

  /** The cleared histogram of one channel: n bins holding no votes. */
  function Zeros(n: nat): (z: seq<int>)
    ensures |z| == n && forall b :: 0 <= b < n ==> z[b] == 0
    ensures NonNegative(z) && Sum(z) == 0
  {
    var z := seq(n, b => 0);
    SumZero(z);
    z
  }

  /** The whole image as a region. */
  function Whole(image: Image): (r: Rect)
    ensures r.InImage(image.rows, image.cols) && r.Area() == image.rows * image.cols
  {
    Rect(0, 0, image.cols, image.rows)
  }

  /** One vote per channel: bin BinIndex(c(k)) of channel k goes up by one. */
  method AddPixel(h: seq<seq<int>>, c: Pixel, histogramSize: int) returns (h': seq<seq<int>>)
    requires ValidHistogramSize(histogramSize) && IsHistogram(h, histogramSize)
    ensures IsHistogram(h', histogramSize)
    ensures forall k, b :: 0 <= k < 3 && 0 <= b < histogramSize ==>
      h'[k][b] == h[k][b] + (if BinIndex(c.At(k), histogramSize) == b then 1 else 0)
  {
    h' := h;
    for k := 0 to 3
      invariant IsHistogram(h', histogramSize)
      invariant forall n, b :: 0 <= n < 3 && 0 <= b < histogramSize ==>
        h'[n][b] == h[n][b] + (if n < k && BinIndex(c.At(n), histogramSize) == b then 1 else 0)
    {
      var index := BinIndex(c.At(k), histogramSize);
      BinInRange(histogramSize, c.At(k));
      h' := h'[k := h'[k][index := h'[k][index] + 1]];
    }
  }

  /** Adds the colour of every selected pixel of `box`, row by row. */
  method AccumulateBox(image: Image, sel: Selector, box: Rect, histogramSize: int, h0: seq<seq<int>>) returns (h: seq<seq<int>>)
    requires Fits(sel, image) && box.InImage(image.rows, image.cols)
    requires ValidHistogramSize(histogramSize) && IsHistogram(h0, histogramSize)
    ensures IsHistogram(h, histogramSize)
    ensures forall k, b :: 0 <= k < 3 && 0 <= b < histogramSize ==>
      h[k][b] == h0[k][b] + BoxCount(image, sel, InBin(k, b, histogramSize), box)
  {
    h := h0;
    for i := box.y to box.Bottom()
      invariant IsHistogram(h, histogramSize)
      invariant forall k, b :: 0 <= k < 3 && 0 <= b < histogramSize ==>
        h[k][b] == h0[k][b] + RowsCount(image, sel, InBin(k, b, histogramSize), box.y, i, box.x, box.Right())
    {
      for j := box.x to box.Right()
        invariant IsHistogram(h, histogramSize)
        invariant forall k, b :: 0 <= k < 3 && 0 <= b < histogramSize ==>
          h[k][b] == h0[k][b] + RowsCount(image, sel, InBin(k, b, histogramSize), box.y, i, box.x, box.Right())
                              + RowCount(image, sel, InBin(k, b, histogramSize), i, box.x, j)
      {
        if Picks(sel, image, i, j) {
          h := AddPixel(h, image.At(i, j), histogramSize);
        }
      }
    }
  }

  /** The raw histograms of the selected pixels of `box`, from zero. */
  method CountBox(image: Image, sel: Selector, box: Rect, histogramSize: int) returns (h: seq<seq<int>>)
    requires Fits(sel, image) && box.InImage(image.rows, image.cols)
    requires ValidHistogramSize(histogramSize)
    ensures IsHistogram(h, histogramSize)
    ensures forall k :: 0 <= k < 3 ==> h[k] == Histogram(image, sel, box, k, histogramSize)
  {
    var zeros := [Zeros(histogramSize), Zeros(histogramSize), Zeros(histogramSize)];
    h := AccumulateBox(image, sel, box, histogramSize, zeros);
    forall k | 0 <= k < 3 ensures h[k] == Histogram(image, sel, box, k, histogramSize) {
      assert h[k] == Histogram(image, sel, box, k, histogramSize);
    }
  }

  /** The raw channel histograms of a seeded pass and its normalisation. */
  method NormalizeChannels(raw: seq<seq<int>>) returns (hist: seq<seq<real>>)
    requires |raw| == 3
    ensures |hist| == 3 && forall k :: 0 <= k < 3 ==> hist[k] == Normalize(raw[k])
  {
    hist := [];
    for k := 0 to 3
      invariant |hist| == k && forall n :: 0 <= n < k ==> hist[n] == Normalize(raw[n])
    {
      hist := hist + [Normalize(raw[k])];
    }
  }

  /** The two counting passes of the box seed: the box itself, then the
      box inflated by `inflateSize` and clamped to the image. */
  method CountRectSeed(image: Image, bbox: Rect, histogramSize: int, inflateSize: int)
    returns (inflatedBbox: Rect, rawf: seq<seq<int>>, rawb: seq<seq<int>>)
    requires image.Valid() && ValidHistogramSize(histogramSize)
    requires bbox.InImage(image.rows, image.cols)
    requires ClampedInflate(bbox, image.rows, image.cols, inflateSize).InImage(image.rows, image.cols)
    ensures inflatedBbox == ClampedInflate(bbox, image.rows, image.cols, inflateSize)
    ensures IsHistogram(rawf, histogramSize) && IsHistogram(rawb, histogramSize)
    ensures forall k :: 0 <= k < 3 ==>
      rawf[k] == Histogram(image, Every, bbox, k, histogramSize) &&
      rawb[k] == Histogram(image, Every, inflatedBbox, k, histogramSize)
  {
    rawf := CountBox(image, Every, bbox, histogramSize);
    inflatedBbox := RectFromPoints(Point(Max(0, bbox.x - inflateSize), Max(0, bbox.y - inflateSize)),
                                   Point(Min(bbox.x + bbox.width + inflateSize, image.cols),
                                         Min(bbox.y + bbox.height + inflateSize, image.rows)));
    assert Max(0, bbox.x - inflateSize) == Max(bbox.x - inflateSize, 0) && Max(0, bbox.y - inflateSize) == Max(bbox.y - inflateSize, 0);
    rawb := CountBox(image, Every, inflatedBbox, histogramSize);
  }

  /** Colour histograms seeded by a bounding box. The foreground is every
      pixel of `bbox`; the background is the box inflated by `inflateSize`
      and clamped to the image, less the foreground counts. Both regions
      are image ROIs, so both must lie inside the image. */
  method ComputeColorHistogramsRect(image: Image, bbox: Rect, histogramSize: int, inflateSize: int)
    returns (inflatedBbox: Rect, histf: seq<seq<real>>, histb: seq<seq<real>>)
    requires image.Valid() && ValidHistogramSize(histogramSize)
    requires bbox.InImage(image.rows, image.cols)
    requires ClampedInflate(bbox, image.rows, image.cols, inflateSize).InImage(image.rows, image.cols)
    ensures inflatedBbox == ClampedInflate(bbox, image.rows, image.cols, inflateSize)
    ensures inflatedBbox == InflateRect(bbox, image.rows, image.cols, inflateSize)
    ensures inflateSize >= 0 ==> bbox.Within(inflatedBbox)
    ensures |histf| == 3 && |histb| == 3
    ensures forall k :: 0 <= k < 3 ==>
      histf[k] == Normalize(Histogram(image, Every, bbox, k, histogramSize)) &&
      histb[k] == Normalize(VSub(Histogram(image, Every, inflatedBbox, k, histogramSize), Histogram(image, Every, bbox, k, histogramSize)))
    ensures inflateSize >= 0 ==> forall k :: 0 <= k < 3 ==>
      histb[k] == Normalize(Histogram(image, Outside(bbox), inflatedBbox, k, histogramSize))
  {
    var rawf, rawb;
    inflatedBbox, rawf, rawb := CountRectSeed(image, bbox, histogramSize, inflateSize);
    var diff := [VSub(rawb[0], rawf[0]), VSub(rawb[1], rawf[1]), VSub(rawb[2], rawf[2])];
    histb := NormalizeChannels(diff);
    histf := NormalizeChannels(rawf);
    if inflateSize >= 0 {
      ClampedInflateIsInflateRect(bbox, image.rows, image.cols, inflateSize);
      RingOfBox(image, bbox, inflatedBbox, histogramSize);
    }
    assert inflatedBbox == InflateRect(bbox, image.rows, image.cols, inflateSize);
  }

  /** The background of a box seed is the ring between the box and its
      inflation, once the inflation contains the box. */
  lemma RingOfBox(image: Image, bbox: Rect, inflated: Rect, histogramSize: int)
    requires image.Valid() && ValidHistogramSize(histogramSize)
    requires bbox.InImage(image.rows, image.cols) && inflated.InImage(image.rows, image.cols)
    requires bbox.Within(inflated)
    ensures forall k :: 0 <= k < 3 ==>
      VSub(Histogram(image, Every, inflated, k, histogramSize), Histogram(image, Every, bbox, k, histogramSize))
        == Histogram(image, Outside(bbox), inflated, k, histogramSize)
  {
    forall k | 0 <= k < 3
      ensures VSub(Histogram(image, Every, inflated, k, histogramSize), Histogram(image, Every, bbox, k, histogramSize))
           == Histogram(image, Outside(bbox), inflated, k, histogramSize)
    {
      RingHistogram(image, bbox, inflated, k, histogramSize);
    }
  }

  /** A normalised channel histogram sums to S / (S + 1e-4), where S is the
      number of selected pixels; every bin lies in [0, 1], and an empty
      selection leaves every bin at zero. */
  lemma NormalizedHistogramMass(image: Image, sel: Selector, box: Rect, k: nat, histogramSize: int)
    requires Fits(sel, image) && box.InImage(image.rows, image.cols)
    requires k < 3 && ValidHistogramSize(histogramSize)
    ensures var h := Normalize(Histogram(image, sel, box, k, histogramSize));
      RSum(h) == Share(BoxCount(image, sel, AnyBin, box)) &&
      (forall b :: 0 <= b < histogramSize ==> 0.0 <= h[b] <= 1.0) &&
      (BoxCount(image, sel, AnyBin, box) == 0 ==> forall b :: 0 <= b < histogramSize ==> h[b] == 0.0)
  {
    HistogramTotal(image, sel, box, k, histogramSize);
  }

  /** For a box seed, the raw foreground of each channel holds one vote per
      pixel of the box and the raw background one per pixel of the ring;
      normalised, they sum to the corresponding share. */
  lemma RectSeedMass(image: Image, bbox: Rect, inflated: Rect, k: nat, histogramSize: int)
    requires image.Valid() && k < 3 && ValidHistogramSize(histogramSize)
    requires bbox.InImage(image.rows, image.cols) && inflated.InImage(image.rows, image.cols)
    requires bbox.Within(inflated)
    ensures Sum(Histogram(image, Every, bbox, k, histogramSize)) == BoxCount(image, Every, AnyBin, bbox) == bbox.Area()
    ensures Sum(Histogram(image, Outside(bbox), inflated, k, histogramSize))
         == BoxCount(image, Outside(bbox), AnyBin, inflated) == inflated.Area() - bbox.Area()
    ensures RSum(Normalize(Histogram(image, Every, bbox, k, histogramSize))) == Share(bbox.Area())
    ensures RSum(Normalize(Histogram(image, Outside(bbox), inflated, k, histogramSize))) == Share(inflated.Area() - bbox.Area())
  {
    EveryCountIsArea(image, bbox);
    EveryCountIsArea(image, inflated);
    RingCount(image, AnyBin, bbox, inflated);
    HistogramTotal(image, Every, bbox, k, histogramSize);
    HistogramTotal(image, Outside(bbox), inflated, k, histogramSize);
    NormalizedHistogramMass(image, Every, bbox, k, histogramSize);
    NormalizedHistogramMass(image, Outside(bbox), inflated, k, histogramSize);
  }
}
