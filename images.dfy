/** 8-bit three-channel images and single-channel masks as row-major grids,
    and the colour binning shared by both histogram builders. */
module Images {

  /** An 8-bit channel value (uint8_t). */
  type Byte = v: int | 0 <= v < 256

  /** A cv::Vec3b pixel. */
  datatype Pixel = Pixel(c0: Byte, c1: Byte, c2: Byte)
  {
    function At(k: nat): Byte
      requires k < 3
    {
      if k == 0 then c0 else if k == 1 then c1 else c2
    }
  }

  /** A rows-by-cols cv::Mat, row i being cells[i]. */
  datatype Grid<T> = Grid(rows: nat, cols: nat, cells: seq<seq<T>>)
  {
    predicate Valid()
    {
      |cells| == rows && forall i :: 0 <= i < rows ==> |cells[i]| == cols
    }

    function At(i: int, j: int): T
      requires Valid() && 0 <= i < rows && 0 <= j < cols
    {
      cells[i][j]
    }
  }

  type Image = Grid<Pixel>
  type Mask = Grid<Byte>

  /** The histogram sizes the builders accept: 256 / histogram_size is the
      bin width, and the bin index of every channel value is in range only
      when the size divides 256 (BinIndexInRangeIffDivides), which also
      bounds it by 256. */
  predicate ValidHistogramSize(histogramSize: int)
  {
    0 < histogramSize <= 256 && 256 % histogramSize == 0
  }

  /** floor(c / (256 / histogram_size)) in integer arithmetic: bin `index`
      holds the 256 / histogram_size consecutive values starting at
      index * (256 / histogram_size). */
  function BinIndex(c: Byte, histogramSize: int): (index: int)
    requires 0 < histogramSize <= 256
    ensures 0 <= index
    ensures index * (256 / histogramSize) <= c < (index + 1) * (256 / histogramSize)
  {
    var q := 256 / histogramSize;
    var index := c / q;
    assert c == index * q + c % q;
    assert (index + 1) * q == index * q + q;
    index
  }

  /** Multiplying by a positive q keeps order. */
  lemma MulMonotone(a: int, b: int, q: int)
    requires q > 0
    ensures a <= b <==> a * q <= b * q
  {
    assert b * q - a * q == (b - a) * q;
  }

  /** For q > 0 and v >= 0: v / q < h exactly when v < q * h. */
  lemma DivBelow(v: int, q: int, h: int)
    requires v >= 0 && q > 0
    ensures v / q < h <==> v < q * h
  {
    var d, r := v / q, v % q;
    assert v == d * q + r && 0 <= r < q;
    MulMonotone(d, h - 1, q);
    MulMonotone(h, d, q);
    assert (h - 1) * q == h * q - q;
  }

  /** Every channel value falls into a valid bin exactly when the histogram
      size divides 256; other sizes send the top values past the last bin. */
  lemma BinIndexInRangeIffDivides(histogramSize: int)
    requires 0 < histogramSize <= 256
    ensures (forall c: Byte :: 0 <= BinIndex(c, histogramSize) < histogramSize) <==> 256 % histogramSize == 0
  {
    var q := 256 / histogramSize;
    var r := 256 % histogramSize;
    assert 256 == q * histogramSize + r && q > 0;
    DivBelow(255, q, histogramSize);
    if r == 0 {
      forall c: Byte ensures 0 <= BinIndex(c, histogramSize) < histogramSize {
        DivBelow(c, q, histogramSize);
        assert c < q * histogramSize;
      }
    } else {
      assert BinIndex(255, histogramSize) >= histogramSize;
    }
  }

  /** With a valid size every channel value has a bin in range. */
  lemma BinInRange(histogramSize: int, c: Byte)
    requires ValidHistogramSize(histogramSize)
    ensures 0 <= BinIndex(c, histogramSize) < histogramSize
  {
    BinIndexInRangeIffDivides(histogramSize);
  }
}
