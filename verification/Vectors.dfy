/** Points of the plane over the reals; lengths are compared through their squares. */
module Vectors {
  import opened Wrappers

  datatype Vec = Vec(x: real, y: real)

  function Add(a: Vec, b: Vec): Vec {
    Vec(a.x + b.x, a.y + b.y)
  }

  function Sub(a: Vec, b: Vec): Vec {
    Vec(a.x - b.x, a.y - b.y)
  }

  function Scale(a: Vec, t: real): Vec {
    Vec(a.x * t, a.y * t)
  }

  function Dot(a: Vec, b: Vec): real {
    a.x * b.x + a.y * b.y
  }

  lemma SquareIsNonNegative(a: real)
    ensures 0.0 <= a * a
  {
  }

  /** The squared distance. */
  function Dist2(a: Vec, b: Vec): (d: real)
    ensures 0.0 <= d
  {
    SquareIsNonNegative(a.x - b.x);
    SquareIsNonNegative(a.y - b.y);
    (a.x - b.x) * (a.x - b.x) + (a.y - b.y) * (a.y - b.y)
  }

  /** The distance of two points is that of Pythagoras. */
  lemma Dist2Is(a: Vec, b: Vec)
    ensures Dist2(a, b) == (a.x - b.x) * (a.x - b.x) + (a.y - b.y) * (a.y - b.y)
  {
  }

  function Clamp(t: real, lo: real, hi: real): real {
    if t < lo then lo else if t > hi then hi else t
  }

  function Abs(r: real): real {
    if r < 0.0 then -r else r
  }

  /** `closest_point_on_line`; a line of length zero has no closest point. */
  function ClosestPoint(a: Vec, b: Vec, target: Vec): Option<Vec> {
    var ab := Sub(b, a);
    if Dot(ab, ab) > 0.0 then
      Some(Add(a, Scale(ab, Clamp(Dot(Sub(target, a), ab) / Dot(ab, ab), 0.0, 1.0))))
    else None
  }

  /** The squared distance from the target along the line, as a parabola in `t`. */
  function Parabola(s: real, p: real, q: real, t: real): real {
    q - 2.0 * t * p + t * t * s
  }

  lemma DistIsParabola(a: Vec, b: Vec, target: Vec, t: real)
    ensures var ab, ap := Sub(b, a), Sub(target, a);
            Dist2(target, Add(a, Scale(ab, t))) == Parabola(Dot(ab, ab), Dot(ap, ab), Dot(ap, ap), t)
  {
    var ab, ap := Sub(b, a), Sub(target, a);
    var e := Add(a, Scale(ab, t));
    var x := ExpandSquare(target.x - e.x, ap.x, ab.x, t);
    var y := ExpandSquare(target.y - e.y, ap.y, ab.y, t);
    Distribute(ap.x * ab.x, ap.y * ab.y, 2.0 * t);
    Distribute(ab.x * ab.x, ab.y * ab.y, t * t);
    assert Dist2(target, e) == x + y;
  }

  lemma ExpandSquare(d: real, p: real, q: real, t: real) returns (s: real)
    requires d == p - q * t
    ensures s == d * d && s == p * p - 2.0 * t * (p * q) + t * t * (q * q)
  {
    s := d * d;
    assert s == p * p - 2.0 * t * (p * q) + t * t * (q * q);
  }

  lemma Distribute(a: real, b: real, c: real)
    ensures c * (a + b) == c * a + c * b
  {
  }

  lemma ParabolaMinimum(s: real, p: real, q: real, t: real)
    requires 0.0 < s && 0.0 <= t <= 1.0
    ensures Parabola(s, p, q, Clamp(p / s, 0.0, 1.0)) <= Parabola(s, p, q, t)
  {
    var u := Clamp(p / s, 0.0, 1.0);
    var v := p / s;
    assert p == v * s;
    assert Parabola(s, p, q, t) - Parabola(s, p, q, u) == (t - u) * ((t + u) * s - 2.0 * p);
    assert (t + u) * s - 2.0 * p == (t + u - 2.0 * v) * s;
    assert (t - u) * (t + u - 2.0 * v) >= 0.0;
    assert (t - u) * ((t + u - 2.0 * v) * s) == (t - u) * (t + u - 2.0 * v) * s;
  }

  /** No point of the segment is closer than the one found. */
  lemma ClosestIsClosest(a: Vec, b: Vec, target: Vec, t: real)
    requires ClosestPoint(a, b, target).Some? && 0.0 <= t <= 1.0
    ensures Dist2(target, ClosestPoint(a, b, target).value) <= Dist2(target, Add(a, Scale(Sub(b, a), t)))
  {
    var ab, ap := Sub(b, a), Sub(target, a);
    var u := Clamp(Dot(ap, ab) / Dot(ab, ab), 0.0, 1.0);
    DistIsParabola(a, b, target, t);
    DistIsParabola(a, b, target, u);
    ParabolaMinimum(Dot(ab, ab), Dot(ap, ab), Dot(ap, ap), t);
  }

  /** The point found lies on the segment, and there is one unless the segment has no length. */
  lemma ClosestIsOnSegment(a: Vec, b: Vec, target: Vec)
    ensures ClosestPoint(a, b, target).Some? <==> a != b
    ensures ClosestPoint(a, b, target).Some? ==>
      exists t: real :: 0.0 <= t <= 1.0 && ClosestPoint(a, b, target).value == OnSegment(a, b, t)
  {
    hide Dot;
    HasLength(a, b);
    if a != b {
      var ab := Sub(b, a);
      var t := Clamp(Dot(Sub(target, a), ab) / Dot(ab, ab), 0.0, 1.0);
      assert ClosestPoint(a, b, target).value == OnSegment(a, b, t);
    }
  }

  lemma HasLength(a: Vec, b: Vec)
    ensures 0.0 < Dot(Sub(b, a), Sub(b, a)) <==> a != b
  {
    SquareIsPositive(b.x - a.x);
    SquareIsPositive(b.y - a.y);
  }

  function OnSegment(a: Vec, b: Vec, t: real): Vec {
    Vec(a.x + (b.x - a.x) * t, a.y + (b.y - a.y) * t)
  }

  lemma SquareIsPositive(a: real)
    ensures 0.0 <= a * a && (a * a == 0.0 <==> a == 0.0)
  {
    if a != 0.0 {
      assert a * a / a == a;
    }
  }
}
