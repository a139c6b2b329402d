/** Discretised viewing heading: the azimuth bin of a radian angle (with the
    flipped sign convention that tracker_utils.cpp compiles in), its inverse,
    and the normalisation of an angle into [0, 2 pi). */
module Azimuth {

  /** M_PI to the precision of a double; the model computes with it exactly. */
  const Pi: real := 3.141592653589793
  const TwoPi: real := 2.0 * Pi

  /** The flipped heading in whole degrees, floor(-rad / pi * 180), before
      wrapping. */
  function FlippedDegrees(rad: real): (degrees: int)
    ensures degrees as real <= -rad / Pi * 180.0 < degrees as real + 1.0
  {
    (-rad / Pi * 180.0).Floor
  }

  /** The azimuth bin of an angle: the flipped degrees wrapped into [0, 360). */
  function AzimuthBin(rad: real): (index: int)
    ensures 0 <= index < 360
    ensures (index - FlippedDegrees(rad)) % 360 == 0
  {
    FlippedDegrees(rad) % 360
  }

  /** AzimuthIndexFromRadian: repeated subtraction or addition of 360 (the
      source never takes a remainder) followed by the range checks the
      source asserts. */
  method AzimuthIndexFromRadian(rad: real) returns (index: int)
    ensures 0 <= index < 360
    ensures index == AzimuthBin(rad)
  {
    index := FlippedDegrees(rad);
    ghost var degrees := index;
    if index >= 360 {
      while index >= 360
        invariant index >= 0 && index % 360 == degrees % 360
        decreases index
      {
        index := index - 360;
      }
    } else if index < 0 {
      while index < 0
        invariant index < 360 && index % 360 == degrees % 360
        decreases -index
      {
        index := index + 360;
      }
    }
    assert 0 <= index < 360;
  }

  /** An angle shifted by a whole number of turns. */
  function Turns(angle: real, n: int): real
  {
    angle - n as real * TwoPi
  }

  /** The representative of an angle in [0, 2 pi). */
  function Warp(angle: real): (w: real)
    ensures 0.0 <= w < TwoPi
    ensures w == Turns(angle, (angle / TwoPi).Floor)
  {
    var n := (angle / TwoPi).Floor;
    assert n as real <= angle / TwoPi < n as real + 1.0;
    Turns(angle, n)
  }

  /** An angle has one representative in [0, 2 pi): any whole-turn shift of
      it that lands there is Warp of it. */
  lemma {:induction false} WarpUnique(angle: real, n: int)
    requires 0.0 <= Turns(angle, n) < TwoPi
    ensures Warp(angle) == Turns(angle, n)
  {
    var m := (angle / TwoPi).Floor;
    assert -TwoPi < (n - m) as real * TwoPi < TwoPi;
  }

  /** WarpAngle: subtract 2 pi while the angle is at least 2 pi, then add
      2 pi while it is negative. The result lies in [0, 2 pi) and differs
      from the input by whole turns. */
  method WarpAngle(angle: real) returns (r: real)
    ensures 0.0 <= r < TwoPi
    ensures r == Warp(angle)
  {
    r := angle;
    ghost var n: int := 0;
    while r >= TwoPi
      invariant r == Turns(angle, n)
      decreases r.Floor
    {
      r := r - TwoPi;
      n := n + 1;
    }
    while r < 0.0
      invariant r < TwoPi
      invariant r == Turns(angle, n)
      decreases -r.Floor
    {
      r := r + TwoPi;
      n := n - 1;
    }
    WarpUnique(angle, n);
  }

  /** Warp leaves angles in [0, 2 pi) alone, so it is idempotent. */
  lemma WarpIdempotent(angle: real)
    ensures 0.0 <= angle < TwoPi ==> Warp(angle) == angle
    ensures Warp(Warp(angle)) == Warp(angle)
  {
    if 0.0 <= angle < TwoPi {
      WarpUnique(angle, 0);
    }
    WarpUnique(Warp(angle), 0);
  }

  /** Whole turns do not change Warp. */
  lemma WarpPeriodic(angle: real, k: int)
    ensures Warp(Turns(angle, k)) == Warp(angle)
  {
    var m := (angle / TwoPi).Floor;
    assert Turns(Turns(angle, k), m - k) == Turns(angle, m);
    WarpUnique(Turns(angle, k), m - k);
  }

  /** RadianFromAzimuthIndex: 2 pi minus the index in radians. A bin index
      gives an angle in (0, 2 pi]; index 0 gives 2 pi itself. */
  function RadianFromAzimuthIndex(index: int): (rad: real)
    ensures 0 <= index < 360 ==> 0.0 < rad <= TwoPi
    ensures index == 0 ==> rad == TwoPi
  {
    2.0 * Pi - index as real / 180.0 * Pi
  }

  /** The forward map inverts the backward map on every bin, in exact
      arithmetic. */
  lemma AzimuthRoundTrip(k: int)
    requires 0 <= k < 360
    ensures AzimuthBin(RadianFromAzimuthIndex(k)) == k
  {
    var rad := RadianFromAzimuthIndex(k);
    assert -rad / Pi * 180.0 == (k - 360) as real;
    assert FlippedDegrees(rad) == k - 360;
  }

  /** The other way round the map is lossy by less than one degree: the
      angle of an angle's bin is the bin's closed upper edge (bin k covers
      the angles in (359 - k, 360 - k] degrees), so it lies within
      [0, pi/180) ahead of the angle, modulo whole turns. */
  lemma AzimuthWithinOneDegree(rad: real)
    ensures var delta := Warp(RadianFromAzimuthIndex(AzimuthBin(rad)) - rad);
            0.0 <= delta < Pi / 180.0
  {
    var d := -rad / Pi * 180.0;
    var f := d.Floor;
    var k := AzimuthBin(rad);
    var m := (f - k) / 360;
    assert f == k + 360 * m;
    var delta := (d - f as real) * Pi / 180.0;
    assert 0.0 <= delta < Pi / 180.0;
    assert RadianFromAzimuthIndex(k) - rad == Turns(delta, -(m + 1));
    WarpPeriodic(delta, -(m + 1));
    WarpIdempotent(delta);
  }
}
