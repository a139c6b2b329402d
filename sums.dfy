/** Bin vectors: their sums and the normalisation by the bin total plus the
    1e-4 guard used when the colour histograms are turned into
    distributions. */
module Sums {

  /** The 1e-4 added to the divisor so that an empty histogram divides by a
      positive number. */
  const NormEps: real := 0.0001

  function Sum(s: seq<int>): int
  {
    if |s| == 0 then 0 else Sum(s[..|s| - 1]) + s[|s| - 1]
  }

  function RSum(s: seq<real>): real
  {
    if |s| == 0 then 0.0 else RSum(s[..|s| - 1]) + s[|s| - 1]
  }

  predicate NonNegative(s: seq<int>)
  {
    forall b :: 0 <= b < |s| ==> s[b] >= 0
  }

  /** Entry-wise sum of two bin vectors of the same length. */
  function VAdd(u: seq<int>, v: seq<int>): (w: seq<int>)
    requires |u| == |v|
    ensures |w| == |u| && forall b :: 0 <= b < |w| ==> w[b] == u[b] + v[b]
  {
    seq(|u|, b requires 0 <= b < |u| => u[b] + v[b])
  }

  /** Entry-wise difference, as Eigen's `-=` on two vectors: it takes the
      counts of v out of u bin by bin, so the total drops by v's total. */
  function VSub(u: seq<int>, v: seq<int>): (w: seq<int>)
    requires |u| == |v|
    ensures |w| == |u| && forall b :: 0 <= b < |w| ==> w[b] == u[b] - v[b]
    ensures Sum(w) == Sum(u) - Sum(v)
  {
    var w := seq(|u|, b requires 0 <= b < |u| => u[b] - v[b]);
    DifferenceSum(u, v, w);
    w
  }

  /** The one-hot vector of a single vote into bin c (all zeros when c is
      out of range). */
  function Indicator(n: nat, c: int): (w: seq<int>)
    ensures |w| == n && forall b :: 0 <= b < n ==> w[b] == (if b == c then 1 else 0)
  {
    seq(n, b => if b == c then 1 else 0)
  }

  /** h / (h.sum() + 1e-4), entry-wise. An integer total never cancels the
      guard, so the divisor is never zero, even for a negative total. For
      counts the result is a distribution up to the guard: it sums to
      Share(total), every bin lies in [0, 1], and nothing counted gives all
      zeros. */
  function Normalize(h: seq<int>): (w: seq<real>)
    ensures |w| == |h|
    ensures forall b :: 0 <= b < |h| ==> w[b] * (Sum(h) as real + NormEps) == h[b] as real
    ensures NonNegative(h) ==> Sum(h) >= 0 && RSum(w) == Share(Sum(h))
    ensures NonNegative(h) ==> forall b :: 0 <= b < |h| ==> 0.0 <= w[b] <= 1.0
    ensures NonNegative(h) && Sum(h) == 0 ==> forall b :: 0 <= b < |h| ==> w[b] == 0.0
  {
    var d := Sum(h) as real + NormEps;
    var w := seq(|h|, b requires 0 <= b < |h| => h[b] as real / d);
    NormalizedMass(h, d, w);
    w
  }

  /** The total mass of a histogram with bin total s once normalised. */
  function Share(s: int): (r: real)
    requires s >= 0
    ensures 0.0 <= r < 1.0
    ensures r == 0.0 <==> s == 0
  {
    DivUnit(s as real, s as real + NormEps);
    s as real / (s as real + NormEps)
  }

  /** 0 <= a <= d with d > 0 gives a quotient in [0, 1], below 1 when a < d,
      and zero exactly when a is. */
  lemma DivUnit(a: real, d: real)
    requires 0.0 <= a <= d && d > 0.0
    ensures 0.0 <= a / d <= 1.0
    ensures a < d ==> a / d < 1.0
    ensures a / d == 0.0 <==> a == 0.0
  {
    var q := a / d;
    assert q * d == a;
    MulStrict(q, 1.0, d);
    MulStrict(0.0, q, d);
    MulStrict(1.0, q, d);
    MulStrict(q, 0.0, d);
  }

  /** Multiplying by a positive d keeps strict order. */
  lemma MulStrict(x: real, y: real, d: real)
    requires d > 0.0
    ensures x < y <==> x * d < y * d
  {
    assert y * d - x * d == (y - x) * d;
  }

  lemma {:induction false} SumAdd(u: seq<int>, v: seq<int>)
    requires |u| == |v|
    ensures Sum(VAdd(u, v)) == Sum(u) + Sum(v)
  {
    if |u| > 0 {
      var n := |u| - 1;
      assert VAdd(u, v)[..n] == VAdd(u[..n], v[..n]);
      SumAdd(u[..n], v[..n]);
    }
  }

  /** A bin-wise difference w of u and v totals Sum(u) - Sum(v). */
  lemma {:induction false} DifferenceSum(u: seq<int>, v: seq<int>, w: seq<int>)
    requires |u| == |v| == |w|
    requires forall b :: 0 <= b < |w| ==> w[b] == u[b] - v[b]
    ensures Sum(w) == Sum(u) - Sum(v)
  {
    if |w| > 0 {
      var n := |w| - 1;
      DifferenceSum(u[..n], v[..n], w[..n]);
    }
  }

  lemma {:induction false} SumZero(s: seq<int>)
    requires forall b :: 0 <= b < |s| ==> s[b] == 0
    ensures Sum(s) == 0
  {
    if |s| > 0 {
      SumZero(s[..|s| - 1]);
    }
  }

  /** A single vote adds exactly one to the total when its bin is in range. */
  lemma {:induction false} SumIndicator(n: nat, c: int)
    ensures Sum(Indicator(n, c)) == if 0 <= c < n then 1 else 0
  {
    if n > 0 {
      assert Indicator(n, c)[..n - 1] == Indicator(n - 1, c);
      SumIndicator(n - 1, c);
    }
  }

  lemma {:induction false} SumNonNegative(h: seq<int>)
    requires NonNegative(h)
    ensures Sum(h) >= 0
    ensures Sum(h) == 0 ==> forall b :: 0 <= b < |h| ==> h[b] == 0
  {
    if |h| > 0 {
      SumNonNegative(h[..|h| - 1]);
    }
  }

  /** Dividing every bin by d divides the total by d. */
  lemma {:induction false} RSumScaled(h: seq<int>, d: real, w: seq<real>)
    requires d > 0.0 && |w| == |h|
    requires forall b :: 0 <= b < |h| ==> w[b] == h[b] as real / d
    ensures RSum(w) == Sum(h) as real / d
  {
    if |h| > 0 {
      var n := |h| - 1;
      RSumScaled(h[..n], d, w[..n]);
      assert RSum(w) == Sum(h[..n]) as real / d + h[n] as real / d;
    }
  }

  /** Counts divided bin by bin by their total plus the guard sum to
      Share(total), lie in [0, 1], and are all zero when the total is. */
  lemma NormalizedMass(h: seq<int>, d: real, w: seq<real>)
    requires d == Sum(h) as real + NormEps && |w| == |h|
    requires forall b :: 0 <= b < |h| ==> w[b] == h[b] as real / d
    ensures forall b :: 0 <= b < |h| ==> w[b] * d == h[b] as real
    ensures NonNegative(h) ==> Sum(h) >= 0 && RSum(w) == Share(Sum(h))
    ensures NonNegative(h) ==> forall b :: 0 <= b < |h| ==> 0.0 <= w[b] <= 1.0
    ensures NonNegative(h) && Sum(h) == 0 ==> forall b :: 0 <= b < |h| ==> w[b] == 0.0
  {
    forall b | 0 <= b < |h| ensures w[b] * d == h[b] as real {
      assert w[b] == h[b] as real / d;
    }
    if NonNegative(h) {
      SumNonNegative(h);
      RSumScaled(h, d, w);
      forall b | 0 <= b < |h| ensures 0.0 <= w[b] <= 1.0 {
        BinBelowSum(h, b);
        DivUnit(h[b] as real, d);
      }
    }
  }

  lemma {:induction false} BinBelowSum(h: seq<int>, b: int)
    requires NonNegative(h) && 0 <= b < |h|
    ensures h[b] <= Sum(h)
  {
    var n := |h| - 1;
    SumNonNegative(h[..n]);
    if b < n {
      BinBelowSum(h[..n], b);
    }
  }
}
