/** Positions are three.js `Vector3` values; the scalar helpers are the
    `Math` functions the game applies to their components. Coordinates are
    modelled as exact reals. */
module Geometry {

  datatype Vec3 = Vec3(x: real, y: real, z: real)

  /** `Math.abs` */
  function Abs(v: real): (r: real)
    ensures r >= 0.0
    ensures r == v || r == -v
  {
    if v < 0.0 then -v else v
  }

  /** `Math.max` of two numbers */
  function Max(a: real, b: real): (r: real)
    ensures r >= a && r >= b
    ensures r == a || r == b
  {
    if a >= b then a else b
  }

  /** `Math.min` of two numbers */
  function Min(a: real, b: real): (r: real)
    ensures r <= a && r <= b
    ensures r == a || r == b
  {
    if a <= b then a else b
  }

  /** `Math.max(lo, Math.min(hi, v))`: the nearest point of [lo, hi] to v. */
  function Clamp(lo: real, hi: real, v: real): (r: real)
    requires lo <= hi
    ensures lo <= r <= hi
    ensures lo <= v <= hi ==> r == v
    ensures v < lo ==> r == lo
    ensures v > hi ==> r == hi
  {
    Max(lo, Min(hi, v))
  }

  /** The square of `a.distanceTo(b)`: all three axes count, y included. */
  function SqDistance(a: Vec3, b: Vec3): (r: real)
    ensures r >= 0.0
  {
    var dx, dy, dz := a.x - b.x, a.y - b.y, a.z - b.z;
    SquareNonNegative(dx);
    SquareNonNegative(dy);
    SquareNonNegative(dz);
    dx * dx + dy * dy + dz * dz
  }

  lemma SquareNonNegative(d: real)
    ensures d * d >= 0.0
  {
    if d < 0.0 {
      assert d * d == (-d) * (-d);
    }
  }

  /** Comparing a non-negative distance with a radius is the same as comparing
      its square with the radius squared, so `distanceTo(...) < 0.75` can be
      decided on the squared distance without a square root. */
  lemma DistanceBelowIffSquareBelow(d: real, radius: real)
    requires d >= 0.0 && radius >= 0.0
    ensures d < radius <==> d * d < radius * radius
  {
    if d < radius {
      SquareMonotone(d, radius);
    } else {
      SquareMonotone(radius, d);
    }
  }

  /** Squaring is monotone on the non-negative reals. */
  lemma SquareMonotone(lo: real, hi: real)
    requires 0.0 <= lo <= hi
    ensures lo * lo <= hi * hi
    ensures lo < hi ==> lo * lo < hi * hi
  {
    var a, b, c := lo * lo, lo * hi, hi * hi;
    assert a <= b by { assert b - a == lo * (hi - lo); }
    assert b <= c by { assert c - b == hi * (hi - lo); }
    if lo < hi {
      assert b < c by { assert c - b == hi * (hi - lo); assert hi > 0.0; }
    }
  }
}
