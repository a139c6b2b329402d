/** Reference definitions of what a colour-histogram pass counts: for a
    region of the image, a selection of its pixels and a bin, the number of
    selected pixels whose channel value falls into that bin. The histogram
    builders are proved to compute these counts; the lemmas here relate the
    counts of different regions and selections. */
module Counting {
  import opened Geometry
  import opened Images
  import opened Sums

  /** Which pixels of a region a pass counts. */
  datatype Selector =
    | Every                    // every pixel of the region
    | Outside(hole: Rect)      // the pixels not in `hole`
    | MaskZero(mask: Mask)     // the pixels whose mask value is 0
    | MaskPositive(mask: Mask) // the pixels whose mask value is positive

  /** The selector can be evaluated on every pixel of the image. */
  predicate Fits(sel: Selector, image: Image)
  {
    image.Valid() &&
    ((sel.MaskZero? || sel.MaskPositive?) ==>
       sel.mask.Valid() && sel.mask.rows == image.rows && sel.mask.cols == image.cols)
  }

  /** Whether the pixel in row i, column j is selected. */
  predicate Picks(sel: Selector, image: Image, i: int, j: int)
    requires Fits(sel, image) && 0 <= i < image.rows && 0 <= j < image.cols
  {
    match sel
    case Every => true
    case Outside(hole) => !hole.Contains(Point(j, i))
    case MaskZero(m) => m.At(i, j) == 0
    case MaskPositive(m) => m.At(i, j) > 0
  }

  /** Either every selected pixel, or those whose value in one channel lies
      in one bin of a histogram of the given size. */
  datatype Query = AnyBin | InBin(channel: nat, bin: int, size: int)
  {
    predicate Valid()
    {
      InBin? ==> channel < 3 && 0 < size <= 256
    }
  }

  predicate Hit(image: Image, sel: Selector, q: Query, i: int, j: int)
    requires Fits(sel, image) && q.Valid() && 0 <= i < image.rows && 0 <= j < image.cols
  {
    Picks(sel, image, i, j) &&
    (q.InBin? ==> BinIndex(image.At(i, j).At(q.channel), q.size) == q.bin)
  }

  function Vote(image: Image, sel: Selector, q: Query, i: int, j: int): int
    requires Fits(sel, image) && q.Valid() && 0 <= i < image.rows && 0 <= j < image.cols
  {
    if Hit(image, sel, q, i, j) then 1 else 0
  }

  /** Hits in row i over the columns [left, right). */
  function RowCount(image: Image, sel: Selector, q: Query, i: int, left: int, right: int): (c: int)
    requires Fits(sel, image) && q.Valid()
    requires 0 <= i < image.rows && 0 <= left <= right <= image.cols
    ensures 0 <= c <= right - left
    decreases right - left
  {
    if right == left then 0
    else RowCount(image, sel, q, i, left, right - 1) + Vote(image, sel, q, i, right - 1)
  }

  /** Hits over the rows [top, bottom) and the columns [left, right). */
  function RowsCount(image: Image, sel: Selector, q: Query, top: int, bottom: int, left: int, right: int): (c: int)
    requires Fits(sel, image) && q.Valid()
    requires 0 <= top <= bottom <= image.rows && 0 <= left <= right <= image.cols
    ensures c >= 0
    decreases bottom - top
  {
    if bottom == top then 0
    else RowsCount(image, sel, q, top, bottom - 1, left, right) + RowCount(image, sel, q, bottom - 1, left, right)
  }

  /** Hits inside an image region. */
  function BoxCount(image: Image, sel: Selector, q: Query, box: Rect): int
    requires Fits(sel, image) && q.Valid() && box.InImage(image.rows, image.cols)
  {
    RowsCount(image, sel, q, box.y, box.Bottom(), box.x, box.Right())
  }

  /** Channel k's histogram of the selected pixels of a region: bin b holds
      the number of them whose value falls into bin b. */
  function Histogram(image: Image, sel: Selector, box: Rect, k: nat, histogramSize: int): (h: seq<int>)
    requires Fits(sel, image) && box.InImage(image.rows, image.cols)
    requires k < 3 && ValidHistogramSize(histogramSize)
    ensures |h| == histogramSize
    ensures forall b :: 0 <= b < histogramSize ==> h[b] == BoxCount(image, sel, InBin(k, b, histogramSize), box)
    ensures NonNegative(h)
  {
    BinCounts(image, sel, k, histogramSize, box.y, box.Bottom(), box.x, box.Right())
  }

  /** The three channel histograms. */
  function Histograms(image: Image, sel: Selector, box: Rect, histogramSize: int): (hs: seq<seq<int>>)
    requires Fits(sel, image) && box.InImage(image.rows, image.cols)
    requires ValidHistogramSize(histogramSize)
    ensures |hs| == 3
    ensures forall k :: 0 <= k < 3 ==> hs[k] == Histogram(image, sel, box, k, histogramSize)
  {
    seq(3, k requires 0 <= k < 3 => Histogram(image, sel, box, k, histogramSize))
  }

  function BinCounts(image: Image, sel: Selector, k: nat, histogramSize: int, top: int, bottom: int, left: int, right: int): seq<int>
    requires Fits(sel, image) && k < 3 && ValidHistogramSize(histogramSize)
    requires 0 <= top <= bottom <= image.rows && 0 <= left <= right <= image.cols
  {
    seq(histogramSize, b => RowsCount(image, sel, InBin(k, b, histogramSize), top, bottom, left, right))
  }

  function RowBinCounts(image: Image, sel: Selector, k: nat, histogramSize: int, i: int, left: int, right: int): seq<int>
    requires Fits(sel, image) && k < 3 && ValidHistogramSize(histogramSize)
    requires 0 <= i < image.rows && 0 <= left <= right <= image.cols
  {
    seq(histogramSize, b => RowCount(image, sel, InBin(k, b, histogramSize), i, left, right))
  }

  // ---- Splitting and comparing counts ----

  lemma {:induction false} RowSplit(image: Image, sel: Selector, q: Query, i: int, left: int, mid: int, right: int)
    requires Fits(sel, image) && q.Valid()
    requires 0 <= i < image.rows && 0 <= left <= mid <= right <= image.cols
    ensures RowCount(image, sel, q, i, left, right) == RowCount(image, sel, q, i, left, mid) + RowCount(image, sel, q, i, mid, right)
    decreases right - mid
  {
    if right > mid {
      RowSplit(image, sel, q, i, left, mid, right - 1);
    }
  }

  /** Two passes that hit the same pixels of a row count the same. */
  lemma {:induction false} RowAgree(image: Image, s1: Selector, q1: Query, s2: Selector, q2: Query, i: int, left: int, right: int)
    requires Fits(s1, image) && q1.Valid() && Fits(s2, image) && q2.Valid()
    requires 0 <= i < image.rows && 0 <= left <= right <= image.cols
    requires forall j :: left <= j < right ==> Hit(image, s1, q1, i, j) == Hit(image, s2, q2, i, j)
    ensures RowCount(image, s1, q1, i, left, right) == RowCount(image, s2, q2, i, left, right)
    decreases right - left
  {
    if right > left {
      RowAgree(image, s1, q1, s2, q2, i, left, right - 1);
    }
  }

  /** A pass that hits nothing in a row counts zero there. */
  lemma {:induction false} RowVanish(image: Image, sel: Selector, q: Query, i: int, left: int, right: int)
    requires Fits(sel, image) && q.Valid()
    requires 0 <= i < image.rows && 0 <= left <= right <= image.cols
    requires forall j :: left <= j < right ==> !Hit(image, sel, q, i, j)
    ensures RowCount(image, sel, q, i, left, right) == 0
    decreases right - left
  {
    if right > left {
      RowVanish(image, sel, q, i, left, right - 1);
    }
  }

  lemma {:induction false} RowsSplit(image: Image, sel: Selector, q: Query, top: int, mid: int, bottom: int, left: int, right: int)
    requires Fits(sel, image) && q.Valid()
    requires 0 <= top <= mid <= bottom <= image.rows && 0 <= left <= right <= image.cols
    ensures RowsCount(image, sel, q, top, bottom, left, right) == RowsCount(image, sel, q, top, mid, left, right) + RowsCount(image, sel, q, mid, bottom, left, right)
    decreases bottom - mid
  {
    if bottom > mid {
      RowsSplit(image, sel, q, top, mid, bottom - 1, left, right);
    }
  }

  // ---- What the counts add up to ----

  /** Counting every pixel of a region counts its area. */
  lemma EveryCountIsArea(image: Image, box: Rect)
    requires image.Valid() && box.InImage(image.rows, image.cols)
    ensures BoxCount(image, Every, AnyBin, box) == box.Area()
  {
    EveryRows(image, box.y, box.Bottom(), box.x, box.Right());
  }

  lemma {:induction false} EveryRows(image: Image, top: int, bottom: int, left: int, right: int)
    requires image.Valid()
    requires 0 <= top <= bottom <= image.rows && 0 <= left <= right <= image.cols
    ensures RowsCount(image, Every, AnyBin, top, bottom, left, right) == (bottom - top) * (right - left)
    decreases bottom - top
  {
    if bottom > top {
      EveryRows(image, top, bottom - 1, left, right);
      EveryRow(image, bottom - 1, left, right);
      assert (bottom - top) * (right - left) == (bottom - 1 - top) * (right - left) + (right - left);
    }
  }

  lemma {:induction false} EveryRow(image: Image, i: int, left: int, right: int)
    requires image.Valid()
    requires 0 <= i < image.rows && 0 <= left <= right <= image.cols
    ensures RowCount(image, Every, AnyBin, i, left, right) == right - left
    decreases right - left
  {
    if right > left {
      EveryRow(image, i, left, right - 1);
    }
  }

  /** Every selected pixel votes into exactly one bin of a row's histogram. */
  lemma {:induction false} RowTotal(image: Image, sel: Selector, k: nat, histogramSize: int, i: int, left: int, right: int)
    requires Fits(sel, image) && k < 3 && ValidHistogramSize(histogramSize)
    requires 0 <= i < image.rows && 0 <= left <= right <= image.cols
    ensures Sum(RowBinCounts(image, sel, k, histogramSize, i, left, right)) == RowCount(image, sel, AnyBin, i, left, right)
    decreases right - left
  {
    if right > left {
      var j := right - 1;
      RowTotal(image, sel, k, histogramSize, i, left, j);
      var c := image.At(i, j).At(k);
      BinInRange(histogramSize, c);
      var vote := if Picks(sel, image, i, j) then BinIndex(c, histogramSize) else -1;
      var cur := RowBinCounts(image, sel, k, histogramSize, i, left, right);
      var prev := RowBinCounts(image, sel, k, histogramSize, i, left, j);
      var one := Indicator(histogramSize, vote);
      forall b | 0 <= b < histogramSize ensures cur[b] == prev[b] + one[b] {
        assert Hit(image, sel, InBin(k, b, histogramSize), i, j) <==> b == vote;
      }
      assert cur == VAdd(prev, one);
      SumAdd(prev, one);
      SumIndicator(histogramSize, vote);
      assert RowCount(image, sel, AnyBin, i, left, right) == RowCount(image, sel, AnyBin, i, left, j) + (if 0 <= vote then 1 else 0);
    } else {
      SumZero(RowBinCounts(image, sel, k, histogramSize, i, left, right));
    }
  }

  lemma {:induction false} RowsTotal(image: Image, sel: Selector, k: nat, histogramSize: int, top: int, bottom: int, left: int, right: int)
    requires Fits(sel, image) && k < 3 && ValidHistogramSize(histogramSize)
    requires 0 <= top <= bottom <= image.rows && 0 <= left <= right <= image.cols
    ensures Sum(BinCounts(image, sel, k, histogramSize, top, bottom, left, right)) == RowsCount(image, sel, AnyBin, top, bottom, left, right)
    decreases bottom - top
  {
    if bottom > top {
      RowsTotal(image, sel, k, histogramSize, top, bottom - 1, left, right);
      RowTotal(image, sel, k, histogramSize, bottom - 1, left, right);
      var cur := BinCounts(image, sel, k, histogramSize, top, bottom, left, right);
      var prev := BinCounts(image, sel, k, histogramSize, top, bottom - 1, left, right);
      var row := RowBinCounts(image, sel, k, histogramSize, bottom - 1, left, right);
      forall b | 0 <= b < histogramSize ensures cur[b] == prev[b] + row[b] {}
      assert cur == VAdd(prev, row);
      SumAdd(prev, row);
    } else {
      SumZero(BinCounts(image, sel, k, histogramSize, top, bottom, left, right));
    }
  }

  /** Each channel histogram of a region holds exactly one vote per selected
      pixel. */
  lemma HistogramTotal(image: Image, sel: Selector, box: Rect, k: nat, histogramSize: int)
    requires Fits(sel, image) && box.InImage(image.rows, image.cols)
    requires k < 3 && ValidHistogramSize(histogramSize)
    ensures Sum(Histogram(image, sel, box, k, histogramSize)) == BoxCount(image, sel, AnyBin, box)
  {
    RowsTotal(image, sel, k, histogramSize, box.y, box.Bottom(), box.x, box.Right());
  }

  /** The pixels of a region are those of a sub-region plus those outside
      it: the counts over `outer` split into the counts over `inner` and the
      counts of the ring around it. */
  lemma RingCount(image: Image, q: Query, inner: Rect, outer: Rect)
    requires image.Valid() && q.Valid()
    requires inner.InImage(image.rows, image.cols) && outer.InImage(image.rows, image.cols)
    requires inner.Within(outer)
    ensures BoxCount(image, Every, q, outer) == BoxCount(image, Every, q, inner) + BoxCount(image, Outside(inner), q, outer)
  {
    var ring := Outside(inner);
    var (t, b, l, r) := (outer.y, outer.Bottom(), outer.x, outer.Right());
    var (it, ib) := (inner.y, inner.Bottom());
    RowsSplit(image, Every, q, t, it, b, l, r);
    RowsSplit(image, Every, q, it, ib, b, l, r);
    RowsSplit(image, ring, q, t, it, b, l, r);
    RowsSplit(image, ring, q, it, ib, b, l, r);
    BandBesideHole(image, q, inner, t, it, l, r);
    BandBesideHole(image, q, inner, ib, b, l, r);
    BandAcrossHole(image, q, inner, it, ib, l, r);
  }

  /** Rows that miss the hole count the same with or without it. */
  lemma {:induction false} BandBesideHole(image: Image, q: Query, inner: Rect, top: int, bottom: int, l: int, r: int)
    requires image.Valid() && q.Valid()
    requires 0 <= top <= bottom <= image.rows && 0 <= l <= r <= image.cols
    requires bottom <= inner.y || inner.Bottom() <= top
    ensures RowsCount(image, Every, q, top, bottom, l, r) == RowsCount(image, Outside(inner), q, top, bottom, l, r)
    decreases bottom - top
  {
    if bottom > top {
      BandBesideHole(image, q, inner, top, bottom - 1, l, r);
      RowAgree(image, Every, q, Outside(inner), q, bottom - 1, l, r);
    }
  }

  /** Rows that cross the hole split into the hole's part and the ring's. */
  lemma {:induction false} BandAcrossHole(image: Image, q: Query, inner: Rect, top: int, bottom: int, l: int, r: int)
    requires image.Valid() && q.Valid()
    requires inner.InImage(image.rows, image.cols)
    requires inner.y <= top <= bottom <= inner.Bottom() && 0 <= l <= inner.x && inner.Right() <= r <= image.cols
    ensures RowsCount(image, Every, q, top, bottom, l, r)
         == RowsCount(image, Every, q, top, bottom, inner.x, inner.Right()) + RowsCount(image, Outside(inner), q, top, bottom, l, r)
    decreases bottom - top
  {
    if bottom > top {
      BandAcrossHole(image, q, inner, top, bottom - 1, l, r);
      RingRow(image, q, inner, bottom - 1, l, r);
    }
  }

  /** One row of the band that crosses the hole. */
  lemma RingRow(image: Image, q: Query, inner: Rect, i: int, l: int, r: int)
    requires image.Valid() && q.Valid()
    requires inner.InImage(image.rows, image.cols)
    requires inner.y <= i < inner.Bottom() && 0 <= l <= inner.x && inner.Right() <= r <= image.cols
    ensures RowCount(image, Every, q, i, l, r) == RowCount(image, Every, q, i, inner.x, inner.Right()) + RowCount(image, Outside(inner), q, i, l, r)
  {
    var ring := Outside(inner);
    var (il, ir) := (inner.x, inner.Right());
    RowSplit(image, Every, q, i, l, il, r);
    RowSplit(image, Every, q, i, il, ir, r);
    RowSplit(image, ring, q, i, l, il, r);
    RowSplit(image, ring, q, i, il, ir, r);
    RowAgree(image, Every, q, ring, q, i, l, il);
    RowAgree(image, Every, q, ring, q, i, ir, r);
    RowVanish(image, ring, q, i, il, ir);
  }

  /** Hence the histogram of the ring is the histogram of the outer region
      minus that of the inner one, bin by bin. */
  lemma RingHistogram(image: Image, inner: Rect, outer: Rect, k: nat, histogramSize: int)
    requires image.Valid() && k < 3 && ValidHistogramSize(histogramSize)
    requires inner.InImage(image.rows, image.cols) && outer.InImage(image.rows, image.cols)
    requires inner.Within(outer)
    ensures Histogram(image, Outside(inner), outer, k, histogramSize)
         == VSub(Histogram(image, Every, outer, k, histogramSize), Histogram(image, Every, inner, k, histogramSize))
  {
    var ring := Histogram(image, Outside(inner), outer, k, histogramSize);
    var whole := Histogram(image, Every, outer, k, histogramSize);
    var hole := Histogram(image, Every, inner, k, histogramSize);
    forall b | 0 <= b < histogramSize ensures ring[b] == whole[b] - hole[b] {
      RingCount(image, InBin(k, b, histogramSize), inner, outer);
    }
    assert ring == VSub(whole, hole);
  }
}
