/**
  The sub-stepped movement of a box: it never enters a wall, never gains speed, and never goes
  further along an axis than its velocity says. Also the sampling of a line for the first solid point.
 */
module BoxMover {
  import opened Vectors
  import opened Rounding
  import opened Collision

  /** What a sub-step changes; `grounded` is set, never cleared. */
  datatype Motion = Motion(pos: Vec, vel: Vec, grounded: bool)

  /** The velocity along an axis after hitting something. */
  function Bounced(v: real, e: real): real {
    v * -e
  }

  /** One sub-step: move if the way is free, otherwise bounce off the axes that are blocked. */
  function SubStep(m: Map, s: Motion, fraction: real, size: Vec, ex: real, ey: real): Motion
    requires Loaded(m)
  {
    var to := Add(s.pos, Scale(s.vel, fraction));
    if !TestBox(m, to, size) then s.(pos := to)
    else
      var hitY := TestBox(m, Vec(s.pos.x, to.y), size);
      var y := if hitY then s.pos.y else to.y;
      var hitX := TestBox(m, Vec(to.x, s.pos.y), size);
      var corner := !hitY && !hitX;
      Motion(Vec(if hitX || corner then s.pos.x else to.x, if hitY || corner then s.pos.y else to.y),
             Vec(if hitX || corner then Bounced(s.vel.x, ex) else s.vel.x,
                 if hitY || corner then Bounced(s.vel.y, ey) else s.vel.y),
             s.grounded || ((hitY || corner) && ey > 0.0 && s.vel.y > 0.0))
  }

  function SubSteps(m: Map, s: Motion, n: nat, fraction: real, size: Vec, ex: real, ey: real): Motion
    requires Loaded(m)
  {
    if n == 0 then s else SubStep(m, SubSteps(m, s, n - 1, fraction, size, ex, ey), fraction, size, ex, ey)
  }

  lemma ScaledIsSmaller(v: real, e: real)
    requires -1.0 <= e <= 1.0
    ensures Abs(v * -e) <= Abs(v)
  {
    if v >= 0.0 {
      assert v * e <= v * 1.0 && v * -1.0 <= v * e;
    } else {
      assert v * 1.0 <= v * e && v * e <= v * -1.0;
    }
  }

  lemma ScaledLength(v: real, f: real)
    requires 0.0 <= f
    ensures Abs(v * f) == Abs(v) * f
  {
  }

  /** Each axis either moves with its velocity kept, or stays and bounces; the end is free space. */
  lemma SubStepShape(m: Map, s: Motion, fraction: real, size: Vec, ex: real, ey: real)
    requires Loaded(m) && !TestBox(m, s.pos, size)
    ensures var t := SubStep(m, s, fraction, size, ex, ey);
      && !TestBox(m, t.pos, size)
      && (t.pos.x == s.pos.x || t.pos.x == Add(s.pos, Scale(s.vel, fraction)).x)
      && (t.pos.y == s.pos.y || t.pos.y == Add(s.pos, Scale(s.vel, fraction)).y)
      && (t.vel.x == s.vel.x || t.vel.x == Bounced(s.vel.x, ex))
      && (t.vel.y == s.vel.y || t.vel.y == Bounced(s.vel.y, ey))
  {
    hide TestBox, Add, Scale, Bounced;
    var to := Add(s.pos, Scale(s.vel, fraction));
    assert to == Vec(to.x, to.y) && s.pos == Vec(s.pos.x, s.pos.y);
  }

  /** A sub-step from free space ends in free space, and no component of the velocity grows. */
  lemma SubStepKeeps(m: Map, s: Motion, fraction: real, size: Vec, ex: real, ey: real)
    requires Loaded(m) && 0.0 <= fraction && -1.0 <= ex <= 1.0 && -1.0 <= ey <= 1.0
    requires !TestBox(m, s.pos, size)
    ensures var t := SubStep(m, s, fraction, size, ex, ey);
      && !TestBox(m, t.pos, size)
      && Abs(t.vel.x) <= Abs(s.vel.x) && Abs(t.vel.y) <= Abs(s.vel.y)
      && Abs(t.pos.x - s.pos.x) <= Abs(s.vel.x) * fraction && Abs(t.pos.y - s.pos.y) <= Abs(s.vel.y) * fraction
  {
    hide SubStep, TestBox, Abs, Bounced;
    SubStepShape(m, s, fraction, size, ex, ey);
    var t := SubStep(m, s, fraction, size, ex, ey);
    AxisStep(s.pos.x, t.pos.x, s.vel.x, t.vel.x, fraction, ex);
    AxisStep(s.pos.y, t.pos.y, s.vel.y, t.vel.y, fraction, ey);
  }

  lemma AxisStep(p: real, q: real, v: real, w: real, fraction: real, e: real)
    requires 0.0 <= fraction && -1.0 <= e <= 1.0
    requires (q == p || q == p + v * fraction) && (w == v || w == Bounced(v, e))
    ensures Abs(w) <= Abs(v) && Abs(q - p) <= Abs(v) * fraction
  {
    ScaledIsSmaller(v, e);
    ScaledLength(v, fraction);
    ScaledLength(Abs(v), fraction);
  }

  // ---------------------------------------------------------------- a whole move

  lemma AbsTriangle(a: real, b: real, c: real)
    ensures Abs(c - a) <= Abs(b - a) + Abs(c - b)
  {
  }

  lemma MulMonotone(a: real, b: real, f: real)
    requires a <= b && 0.0 <= f
    ensures a * f <= b * f
  {
  }

  lemma NextMultiple(n: nat, p: real)
    ensures n as real * p + p == (n + 1) as real * p
  {
  }

  /** After any number of sub-steps from free space. */
  lemma {:induction false} SubStepsKeep(m: Map, s: Motion, n: nat, fraction: real, size: Vec, ex: real, ey: real)
    requires Loaded(m) && 0.0 <= fraction && -1.0 <= ex <= 1.0 && -1.0 <= ey <= 1.0
    requires !TestBox(m, s.pos, size)
    ensures var t := SubSteps(m, s, n, fraction, size, ex, ey);
      && !TestBox(m, t.pos, size)
      && Abs(t.vel.x) <= Abs(s.vel.x) && Abs(t.vel.y) <= Abs(s.vel.y)
      && Abs(t.pos.x - s.pos.x) <= n as real * (Abs(s.vel.x) * fraction)
      && Abs(t.pos.y - s.pos.y) <= n as real * (Abs(s.vel.y) * fraction)
  {
    hide SubStep, TestBox, Abs;
    if n == 0 {
      AbsOfZero();
    } else {
      var r := SubSteps(m, s, n - 1, fraction, size, ex, ey);
      var t := SubStep(m, r, fraction, size, ex, ey);
      SubStepsKeep(m, s, n - 1, fraction, size, ex, ey);
      SubStepKeeps(m, r, fraction, size, ex, ey);
      AbsTriangle(s.pos.x, r.pos.x, t.pos.x);
      AbsTriangle(s.pos.y, r.pos.y, t.pos.y);
      MulMonotone(Abs(r.vel.x), Abs(s.vel.x), fraction);
      MulMonotone(Abs(r.vel.y), Abs(s.vel.y), fraction);
      NextMultiple(n - 1, Abs(s.vel.x) * fraction);
      NextMultiple(n - 1, Abs(s.vel.y) * fraction);
    }
  }

  lemma AbsOfZero()
    ensures forall a: real {:trigger Abs(a - a)} :: Abs(a - a) == 0.0
  {
  }

  /** `1.0f / (Max + 1)` for a velocity of length `distance`. */
  function Fraction(distance: real): real
    requires 0.0 <= distance
  {
    1.0 / (distance.Floor + 1) as real
  }

  /** All sub-steps together make the whole. */
  lemma FractionsAddUp(distance: real)
    requires 0.0 <= distance
    ensures 0.0 < Fraction(distance)
    ensures (distance.Floor + 1) as real * Fraction(distance) == 1.0
  {
  }

  lemma LessThanWhole(d: real, k: real, f: real)
    requires 0.0 <= d < k && 0.0 < f && k * f == 1.0
    ensures 0.0 <= d * f < 1.0
  {
    StrictlyMonotone(d, k, f);
    BelowBound(d * f, k * f, 1.0);
    MulMonotone(0.0, d, f);
  }

  lemma BelowBound(p: real, q: real, r: real)
    requires p <= q && q <= r && (p < q || q < r)
    ensures p < r
  {
  }

  lemma StrictlyMonotone(a: real, b: real, f: real)
    requires a < b && 0.0 < f
    ensures a * f < b * f
  {
  }

  lemma WholeOf(k: real, p: real, f: real)
    requires k * f == 1.0
    ensures k * (p * f) == p
  {
    Reorder(k, p, f);
    assert (k * f) * p == 1.0 * p;
  }

  lemma Reorder(a: real, b: real, c: real)
    ensures a * (b * c) == (a * c) * b
  {
  }

  lemma SquareMonotone(a: real, b: real)
    requires Abs(a) <= b
    ensures a * a <= b * b
  {
    if a >= 0.0 {
      assert a * a <= a * b <= b * b;
    } else {
      assert a * a == (-a) * (-a) && (-a) * (-a) <= (-a) * b && (-a) * b <= b * b;
    }
  }

  /** Every sub-step of the move is shorter than one unit. */
  lemma SubStepIsShort(m: Map, s: Motion, n: nat, distance: real, size: Vec, ex: real, ey: real)
    requires Loaded(m) && -1.0 <= ex <= 1.0 && -1.0 <= ey <= 1.0 && !TestBox(m, s.pos, size)
    requires 0.0 <= distance && distance * distance == Dot(s.vel, s.vel)
    ensures var f := Fraction(distance);
      Dist2(SubSteps(m, s, n, f, size, ex, ey).pos, SubSteps(m, s, n + 1, f, size, ex, ey).pos) < 1.0
  {
    hide SubStep, TestBox, Abs, Fraction;
    var f := Fraction(distance);
    var r := SubSteps(m, s, n, f, size, ex, ey);
    var t := SubStep(m, r, f, size, ex, ey);
    FractionsAddUp(distance);
    LessThanWhole(distance, (distance.Floor + 1) as real, f);
    SubStepsKeep(m, s, n, f, size, ex, ey);
    SubStepKeeps(m, r, f, size, ex, ey);
    MulMonotone(Abs(r.vel.x), Abs(s.vel.x), f);
    MulMonotone(Abs(r.vel.y), Abs(s.vel.y), f);
    ShortVector(r.pos.x - t.pos.x, r.pos.y - t.pos.y, s.vel, f, distance);
  }

  lemma ShortVector(dx: real, dy: real, v: Vec, f: real, d: real)
    requires 0.0 <= f && 0.0 <= d * f < 1.0 && d * d == Dot(v, v)
    requires Abs(-dx) <= Abs(v.x) * f && Abs(-dy) <= Abs(v.y) * f
    ensures dx * dx + dy * dy < 1.0
  {
    hide Abs;
    ShortAxis(dx, v.x, f);
    ShortAxis(dy, v.y, f);
    var w := ShortWhole(d, f, v.x * v.x + v.y * v.y);
    SumBelowOne(dx * dx, dy * dy, v.x * v.x, v.y * v.y, f * f, w);
  }

  lemma ShortAxis(dx: real, v: real, f: real)
    requires 0.0 <= f && Abs(-dx) <= Abs(v) * f
    ensures dx * dx <= f * f * (v * v)
  {
    SquareMonotone(dx, Abs(v) * f);
    SquareOfScaled(v, f);
  }

  lemma ShortWhole(d: real, f: real, dd: real) returns (w: real)
    requires 0.0 <= d * f < 1.0 && dd == d * d
    ensures w == f * f * dd && w < 1.0
  {
    w := f * f * dd;
    SquareOfProduct(d, f, dd);
    BelowOne(d * f, w);
  }

  lemma SumBelowOne(a: real, b: real, x: real, y: real, ff: real, w: real)
    requires a <= ff * x && b <= ff * y && w == ff * (x + y) && w < 1.0
    ensures a + b < 1.0
  {
    Distribute(x, y, ff);
    BelowBound(a + b, w, 1.0);
  }

  lemma SquareOfProduct(d: real, f: real, dd: real)
    requires dd == d * d
    ensures f * f * dd == (d * f) * (d * f)
  {
  }

  lemma BelowOne(a: real, p: real)
    requires 0.0 <= a < 1.0 && p == a * a
    ensures p < 1.0
  {
    MulMonotone(a, 1.0, a);
    BelowBound(p, a, 1.0);
  }

  lemma SquareOfScaled(v: real, f: real)
    ensures (Abs(v) * f) * (Abs(v) * f) == f * f * (v * v)
  {
    if v < 0.0 {
      assert (-v * f) * (-v * f) == f * f * (v * v);
    }
  }

  /** The position after `k` sub-steps straight on. */
  function Way(s: Motion, k: nat, fraction: real): Vec {
    Add(s.pos, Scale(s.vel, k as real * fraction))
  }

  /** After `k` sub-steps straight on the box would still be in free space. */
  predicate FreeAt(m: Map, s: Motion, k: nat, fraction: real, size: Vec)
    requires Loaded(m)
  {
    !TestBox(m, Way(s, k, fraction), size)
  }

  /** A way along which the box meets nothing is gone to the end with the velocity unchanged. */
  lemma {:induction false} FreeWay(m: Map, s: Motion, n: nat, fraction: real, size: Vec, ex: real, ey: real)
    requires Loaded(m)
    requires forall k: nat :: 1 <= k <= n ==> FreeAt(m, s, k, fraction, size)
    ensures SubSteps(m, s, n, fraction, size, ex, ey) == s.(pos := Way(s, n, fraction))
  {
    hide TestBox, SubStep, Way;
    if n == 0 {
      NoWay(s, fraction);
    } else {
      FreeWay(m, s, n - 1, fraction, size, ex, ey);
      NextOnWay(s, n, fraction);
      assert FreeAt(m, s, n, fraction, size);
      FreeStep(m, SubSteps(m, s, n - 1, fraction, size, ex, ey), fraction, size, ex, ey);
    }
  }

  lemma NextOnWay(s: Motion, n: nat, f: real)
    requires 0 < n
    ensures Add(Way(s, n - 1, f), Scale(s.vel, f)) == Way(s, n, f)
  {
    AlongWay(s.pos.x, s.vel.x, n, f);
    AlongWay(s.pos.y, s.vel.y, n, f);
  }

  lemma NoWay(s: Motion, f: real)
    ensures Way(s, 0, f) == s.pos
  {
  }

  lemma FreeStep(m: Map, s: Motion, fraction: real, size: Vec, ex: real, ey: real)
    requires Loaded(m) && !TestBox(m, Add(s.pos, Scale(s.vel, fraction)), size)
    ensures SubStep(m, s, fraction, size, ex, ey) == s.(pos := Add(s.pos, Scale(s.vel, fraction)))
  {
  }

  lemma AlongWay(p: real, v: real, n: nat, f: real)
    requires 0 < n
    ensures p + v * ((n - 1) as real * f) + v * f == p + v * (n as real * f)
  {
    NextMultiple(n - 1, f);
    Distribute((n - 1) as real * f, f, v);
  }

  lemma ZeroTimes(v: real, f: real)
    requires v == 0.0
    ensures v * f == 0.0
  {
  }

  lemma StandsStep(m: Map, s: Motion, fraction: real, size: Vec, ex: real, ey: real)
    requires Loaded(m) && s.vel == Vec(0.0, 0.0)
    ensures SubStep(m, s, fraction, size, ex, ey) == s
  {
    hide TestBox;
    ZeroTimes(s.vel.x, fraction);
    ZeroTimes(s.vel.y, fraction);
    ZeroTimes(s.vel.x, -ex);
    ZeroTimes(s.vel.y, -ey);
    assert Add(s.pos, Scale(s.vel, fraction)) == s.pos;
  }

  /** A box that has lost all its speed stays where it is: stopping the loop early changes nothing. */
  lemma {:induction false} StandsStill(m: Map, s: Motion, n: nat, fraction: real, size: Vec, ex: real, ey: real)
    requires Loaded(m) && s.vel == Vec(0.0, 0.0)
    ensures SubSteps(m, s, n, fraction, size, ex, ey) == s
  {
    hide SubStep;
    if n > 0 {
      StandsStill(m, s, n - 1, fraction, size, ex, ey);
      StandsStep(m, s, fraction, size, ex, ey);
    }
  }

  lemma {:induction false} StepsAdd(m: Map, s: Motion, a: nat, b: nat, fraction: real, size: Vec, ex: real, ey: real)
    requires Loaded(m)
    ensures SubSteps(m, s, a + b, fraction, size, ex, ey) ==
            SubSteps(m, SubSteps(m, s, a, fraction, size, ex, ey), b, fraction, size, ex, ey)
  {
    hide SubStep;
    if b > 0 {
      StepsAdd(m, s, a, b - 1, fraction, size, ex, ey);
    }
  }

  // ---------------------------------------------------------------- along a wall

  /** All walls are vertical: whether a point is solid depends on its column alone. */
  ghost predicate VerticalWalls(m: Map)
    requires Loaded(m)
  {
    forall x: real, y: real, z: real :: CheckPoint(m, Vec(x, y)) == CheckPoint(m, Vec(x, z))
  }

  ghost predicate HorizontalWalls(m: Map)
    requires Loaded(m)
  {
    forall x: real, y: real, z: real :: CheckPoint(m, Vec(y, x)) == CheckPoint(m, Vec(z, x))
  }

  lemma VerticalBox(m: Map, x: real, y: real, z: real, size: Vec)
    requires Loaded(m) && VerticalWalls(m)
    ensures TestBox(m, Vec(x, y), size) == TestBox(m, Vec(x, z), size)
  {
    hide CheckPoint;
    var hx, hy := size.x * 0.5, size.y * 0.5;
    assert CheckPoint(m, Vec(x - hx, y - hy)) == CheckPoint(m, Vec(x - hx, z - hy));
    assert CheckPoint(m, Vec(x + hx, y - hy)) == CheckPoint(m, Vec(x + hx, z - hy));
    assert CheckPoint(m, Vec(x - hx, y + hy)) == CheckPoint(m, Vec(x - hx, z + hy));
    assert CheckPoint(m, Vec(x + hx, y + hy)) == CheckPoint(m, Vec(x + hx, z + hy));
  }

  lemma HorizontalBox(m: Map, x: real, y: real, z: real, size: Vec)
    requires Loaded(m) && HorizontalWalls(m)
    ensures TestBox(m, Vec(y, x), size) == TestBox(m, Vec(z, x), size)
  {
    hide CheckPoint;
    var hx, hy := size.x * 0.5, size.y * 0.5;
    assert CheckPoint(m, Vec(y - hx, x - hy)) == CheckPoint(m, Vec(z - hx, x - hy));
    assert CheckPoint(m, Vec(y + hx, x - hy)) == CheckPoint(m, Vec(z + hx, x - hy));
    assert CheckPoint(m, Vec(y - hx, x + hy)) == CheckPoint(m, Vec(z - hx, x + hy));
    assert CheckPoint(m, Vec(y + hx, x + hy)) == CheckPoint(m, Vec(z + hx, x + hy));
  }

  /** A vertical wall does not touch the vertical motion, nor does it count as ground. */
  lemma {:induction false} SlidesAlongWall(m: Map, s: Motion, n: nat, fraction: real, size: Vec, ex: real, ey: real)
    requires Loaded(m) && VerticalWalls(m) && !TestBox(m, s.pos, size)
    ensures var t := SubSteps(m, s, n, fraction, size, ex, ey);
      && !TestBox(m, t.pos, size) && t.grounded == s.grounded
      && t.vel.y == s.vel.y && t.pos.y == Way(s, n, fraction).y
  {
    hide TestBox, SubStep, Way, VerticalWalls;
    if n == 0 {
      NoWay(s, fraction);
    } else {
      SlidesAlongWall(m, s, n - 1, fraction, size, ex, ey);
      var r := SubSteps(m, s, n - 1, fraction, size, ex, ey);
      WallStep(m, r, fraction, size, ex, ey);
      NextOnWay(s, n, fraction);
    }
  }

  /** In one sub-step the box bounces off sideways with the elasticity, and keeps its vertical motion. */
  lemma WallStep(m: Map, s: Motion, fraction: real, size: Vec, ex: real, ey: real)
    requires Loaded(m) && VerticalWalls(m) && !TestBox(m, s.pos, size)
    ensures var t := SubStep(m, s, fraction, size, ex, ey);
      && !TestBox(m, t.pos, size) && t.grounded == s.grounded
      && t.vel.y == s.vel.y && t.pos.y == Add(s.pos, Scale(s.vel, fraction)).y
      && (TestBox(m, Add(s.pos, Scale(s.vel, fraction)), size) ==>
            t.pos.x == s.pos.x && t.vel.x == s.vel.x * -ex)
  {
    hide TestBox, Add, Scale, VerticalWalls;
    var to := Add(s.pos, Scale(s.vel, fraction));
    VerticalBox(m, s.pos.x, s.pos.y, to.y, size);
    VerticalBox(m, to.x, s.pos.y, to.y, size);
    assert to == Vec(to.x, to.y) && s.pos == Vec(s.pos.x, s.pos.y);
  }

  /** A floor or ceiling does not touch the horizontal motion. */
  lemma {:induction false} SlidesAlongFloor(m: Map, s: Motion, n: nat, fraction: real, size: Vec, ex: real, ey: real)
    requires Loaded(m) && HorizontalWalls(m) && !TestBox(m, s.pos, size)
    ensures var t := SubSteps(m, s, n, fraction, size, ex, ey);
      && !TestBox(m, t.pos, size)
      && t.vel.x == s.vel.x && t.pos.x == Way(s, n, fraction).x
  {
    hide TestBox, SubStep, Way, HorizontalWalls;
    if n == 0 {
      NoWay(s, fraction);
    } else {
      SlidesAlongFloor(m, s, n - 1, fraction, size, ex, ey);
      var r := SubSteps(m, s, n - 1, fraction, size, ex, ey);
      FloorStep(m, r, fraction, size, ex, ey);
      NextOnWay(s, n, fraction);
    }
  }

  /** In one sub-step the box bounces off the floor or ceiling, and stands on the floor if that is elastic at all. */
  lemma FloorStep(m: Map, s: Motion, fraction: real, size: Vec, ex: real, ey: real)
    requires Loaded(m) && HorizontalWalls(m) && !TestBox(m, s.pos, size)
    ensures var t := SubStep(m, s, fraction, size, ex, ey);
      && !TestBox(m, t.pos, size)
      && t.vel.x == s.vel.x && t.pos.x == Add(s.pos, Scale(s.vel, fraction)).x
      && (TestBox(m, Add(s.pos, Scale(s.vel, fraction)), size) ==>
            && t.pos.y == s.pos.y && t.vel.y == s.vel.y * -ey
            && t.grounded == (s.grounded || (0.0 < ey && 0.0 < s.vel.y)))
  {
    hide TestBox, Add, Scale, HorizontalWalls;
    var to := Add(s.pos, Scale(s.vel, fraction));
    HorizontalBox(m, s.pos.y, s.pos.x, to.x, size);
    HorizontalBox(m, to.y, s.pos.x, to.x, size);
    assert to == Vec(to.x, to.y) && s.pos == Vec(s.pos.x, s.pos.y);
  }

  /** So a whole move between vertical walls rises or falls by exactly its velocity. */
  lemma MovesAlongWall(m: Map, s: Motion, distance: real, size: Vec, elasticity: Vec)
    requires Loaded(m) && 0.00001 < distance && VerticalWalls(m) && !TestBox(m, s.pos, size)
    ensures var t := Moved(m, s, distance, size, elasticity);
      t.pos.y == s.pos.y + s.vel.y && t.vel.y == s.vel.y && t.grounded == s.grounded
  {
    hide TestBox, SubSteps, Fraction, VerticalWalls;
    var n := distance.Floor + 1;
    SlidesAlongWall(m, s, n, Fraction(distance), size, Clamp(elasticity.x, -1.0, 1.0), Clamp(elasticity.y, -1.0, 1.0));
    FractionsAddUp(distance);
    WholeWay(s, n, Fraction(distance));
  }

  /** And one between floor and ceiling goes sideways by exactly its velocity. */
  lemma MovesAlongFloor(m: Map, s: Motion, distance: real, size: Vec, elasticity: Vec)
    requires Loaded(m) && 0.00001 < distance && HorizontalWalls(m) && !TestBox(m, s.pos, size)
    ensures var t := Moved(m, s, distance, size, elasticity); t.pos.x == s.pos.x + s.vel.x && t.vel.x == s.vel.x
  {
    hide TestBox, SubSteps, Fraction, HorizontalWalls;
    var n := distance.Floor + 1;
    SlidesAlongFloor(m, s, n, Fraction(distance), size, Clamp(elasticity.x, -1.0, 1.0), Clamp(elasticity.y, -1.0, 1.0));
    FractionsAddUp(distance);
    WholeWay(s, n, Fraction(distance));
  }

  // ---------------------------------------------------------------- the rules of a move

  /**
    What a sub-step does: a free box moves on. A blocked one stops and bounces along each axis that is
    blocked by itself, and along both if neither is; bouncing off something below is standing on it.
   */
  predicate Rule(m: Map, a: Motion, b: Motion, fraction: real, size: Vec, ex: real, ey: real)
    requires Loaded(m)
  {
    var x, y := a.pos.x + a.vel.x * fraction, a.pos.y + a.vel.y * fraction;
    if !TestBox(m, Vec(x, y), size) then b == Motion(Vec(x, y), a.vel, a.grounded)
    else
      var alongX, alongY := TestBox(m, Vec(x, a.pos.y), size), TestBox(m, Vec(a.pos.x, y), size);
      if !alongX && !alongY then
        && b.pos == a.pos && b.vel == Vec(a.vel.x * -ex, a.vel.y * -ey)
        && (b.grounded <==> a.grounded || (ey > 0.0 && a.vel.y > 0.0))
      else
        && b.pos.x == (if alongX then a.pos.x else x) && b.vel.x == (if alongX then a.vel.x * -ex else a.vel.x)
        && b.pos.y == (if alongY then a.pos.y else y) && b.vel.y == (if alongY then a.vel.y * -ey else a.vel.y)
        && (b.grounded <==> a.grounded || (alongY && ey > 0.0 && a.vel.y > 0.0))
  }

  lemma SubStepFollowsRule(m: Map, s: Motion, fraction: real, size: Vec, ex: real, ey: real)
    requires Loaded(m)
    ensures Rule(m, s, SubStep(m, s, fraction, size, ex, ey), fraction, size, ex, ey)
  {
    hide TestBox;
    var to := Add(s.pos, Scale(s.vel, fraction));
    assert to == Vec(s.pos.x + s.vel.x * fraction, s.pos.y + s.vel.y * fraction) && s.pos == Vec(s.pos.x, s.pos.y);
  }

  /** The box at every stage of a move by `|path| - 1` equal parts of its velocity. */
  predicate Path(m: Map, path: seq<Motion>, size: Vec, elasticity: Vec)
    requires Loaded(m)
  {
    && 2 <= |path|
    && var fraction := 1.0 / (|path| - 1) as real;
       var ex := if elasticity.x < -1.0 then -1.0 else if elasticity.x > 1.0 then 1.0 else elasticity.x;
       var ey := if elasticity.y < -1.0 then -1.0 else if elasticity.y > 1.0 then 1.0 else elasticity.y;
       forall k :: 0 <= k < |path| - 1 ==> Rule(m, path[k], path[k + 1], fraction, size, ex, ey)
  }

  /** A whole move follows the rule at every stage, and has one stage more than whole units of distance. */
  lemma MoveHasPath(m: Map, s: Motion, distance: real, size: Vec, elasticity: Vec) returns (path: seq<Motion>)
    requires Loaded(m) && 0.00001 < distance
    ensures |path| == distance.Floor + 2 && path[0] == s && path[|path| - 1] == Moved(m, s, distance, size, elasticity)
    ensures Path(m, path, size, elasticity)
  {
    hide Rule, SubStep;
    var n := distance.Floor + 1;
    var f := Fraction(distance);
    var ex, ey := Clamp(elasticity.x, -1.0, 1.0), Clamp(elasticity.y, -1.0, 1.0);
    path := seq(n + 1, k requires 0 <= k <= n => SubSteps(m, s, k, f, size, ex, ey));
    forall k | 0 <= k < n
      ensures Rule(m, path[k], path[k + 1], f, size, ex, ey)
    {
      SubStepFollowsRule(m, path[k], f, size, ex, ey);
    }
  }

  // ---------------------------------------------------------------- MoveBox

  /** The whole move of a box whose velocity has length `distance`. */
  function Moved(m: Map, s: Motion, distance: real, size: Vec, elasticity: Vec): Motion
    requires Loaded(m) && 0.0 <= distance
  {
    if distance > 0.00001 then
      SubSteps(m, s, distance.Floor + 1, Fraction(distance), size,
               Clamp(elasticity.x, -1.0, 1.0), Clamp(elasticity.y, -1.0, 1.0))
    else s
  }

  /** What every move from free space keeps, for any map, velocity and elasticity. */
  predicate Sound(m: Map, s: Motion, t: Motion, size: Vec)
    requires Loaded(m)
  {
    && !TestBox(m, t.pos, size)
    && Abs(t.vel.x) <= Abs(s.vel.x) && Abs(t.vel.y) <= Abs(s.vel.y)
    && Abs(t.pos.x - s.pos.x) <= Abs(s.vel.x) && Abs(t.pos.y - s.pos.y) <= Abs(s.vel.y)
  }

  lemma NoStepIsSound(m: Map, s: Motion, size: Vec)
    requires Loaded(m) && !TestBox(m, s.pos, size)
    ensures Sound(m, s, s, size)
  {
    hide TestBox;
  }

  lemma SubStepsAreSound(m: Map, s: Motion, n: nat, f: real, size: Vec, ex: real, ey: real)
    requires Loaded(m) && 0.0 < f && n as real * f == 1.0 && -1.0 <= ex <= 1.0 && -1.0 <= ey <= 1.0
    requires !TestBox(m, s.pos, size)
    ensures Sound(m, s, SubSteps(m, s, n, f, size, ex, ey), size)
  {
    hide TestBox, SubSteps, Abs;
    SubStepsKeep(m, s, n, f, size, ex, ey);
    WholeOf(n as real, Abs(s.vel.x), f);
    WholeOf(n as real, Abs(s.vel.y), f);
  }

  lemma MovedIsSound(m: Map, s: Motion, distance: real, size: Vec, elasticity: Vec)
    requires Loaded(m) && 0.0 <= distance && !TestBox(m, s.pos, size)
    ensures Sound(m, s, Moved(m, s, distance, size, elasticity), size)
  {
    hide TestBox, SubSteps, Fraction, Abs;
    if distance > 0.00001 {
      FractionsAddUp(distance);
      SubStepsAreSound(m, s, distance.Floor + 1, Fraction(distance), size,
                       Clamp(elasticity.x, -1.0, 1.0), Clamp(elasticity.y, -1.0, 1.0));
    } else {
      NoStepIsSound(m, s, size);
    }
  }

  /** If nothing is in the way, the box arrives at its position plus its velocity, velocity unchanged. */
  lemma UnobstructedMove(m: Map, s: Motion, distance: real, size: Vec, elasticity: Vec)
    requires Loaded(m) && 0.00001 < distance
    requires forall k: nat :: 1 <= k <= distance.Floor + 1 ==> FreeAt(m, s, k, Fraction(distance), size)
    ensures Moved(m, s, distance, size, elasticity) == s.(pos := Add(s.pos, s.vel))
  {
    hide TestBox, SubSteps, Fraction, FreeAt;
    var n := distance.Floor + 1;
    FreeWay(m, s, n, Fraction(distance), size, Clamp(elasticity.x, -1.0, 1.0), Clamp(elasticity.y, -1.0, 1.0));
    FractionsAddUp(distance);
    WholeWay(s, n, Fraction(distance));
  }

  lemma WholeWay(s: Motion, n: nat, f: real)
    requires n as real * f == 1.0
    ensures Way(s, n, f) == Add(s.pos, s.vel)
  {
  }

  lemma NothingMoves(m: Map, s: Motion, n: nat, fraction: real, size: Vec, ex: real, ey: real)
    requires Loaded(m) && 0.0 < fraction && Add(s.pos, Scale(s.vel, fraction)) == s.pos
    ensures SubSteps(m, s, n, fraction, size, ex, ey) == s
  {
    NoProduct(s.vel.x, fraction);
    NoProduct(s.vel.y, fraction);
    StandsStill(m, s, n, fraction, size, ex, ey);
  }

  lemma NoProduct(v: real, f: real)
    requires v * f == 0.0 && 0.0 < f
    ensures v == 0.0
  {
  }

  /** There is a path by the rules from `s` to `t`, with one stage more than whole units of distance. */
  ghost predicate Arrives(m: Map, s: Motion, t: Motion, distance: real, size: Vec, elasticity: Vec)
    requires Loaded(m) && 0.0 <= distance
  {
    exists path: seq<Motion> ::
      |path| == distance.Floor + 2 && path[0] == s && path[|path| - 1] == t && Path(m, path, size, elasticity)
  }

  /** `MoveBox`; `distance` stands for the length of the velocity, which the square root computes. */
  method MoveBox(m: Map, inoutPos: Vec, inoutVel: Vec, distance: real, size: Vec, elasticity: Vec, wasGrounded: bool)
    returns (pos: Vec, vel: Vec, grounded: bool)
    requires Loaded(m) && 0.0 <= distance && distance * distance == Dot(inoutVel, inoutVel)
    ensures Motion(pos, vel, grounded) == Moved(m, Motion(inoutPos, inoutVel, wasGrounded), distance, size, elasticity)
    ensures if distance <= 0.00001 then (pos, vel, grounded) == (inoutPos, inoutVel, wasGrounded)
      else Arrives(m, Motion(inoutPos, inoutVel, wasGrounded), Motion(pos, vel, grounded), distance, size, elasticity)
    ensures !TestBox(m, inoutPos, size) ==>
      Sound(m, Motion(inoutPos, inoutVel, wasGrounded), Motion(pos, vel, grounded), size)
  {
    hide TestBox, SubSteps, SubStep, Fraction, Sound, Add, Scale, Path;
    ghost var s := Motion(inoutPos, inoutVel, wasGrounded);
    pos, vel, grounded := inoutPos, inoutVel, wasGrounded;
    var max := distance.Floor;
    if distance > 0.00001 {
      var fraction := Fraction(distance);
      FractionsAddUp(distance);
      var ex, ey := Clamp(elasticity.x, -1.0, 1.0), Clamp(elasticity.y, -1.0, 1.0);
      var i := 0;
      NoSteps(m, s, fraction, size, ex, ey);
      while i <= max
        invariant 0 <= i <= max + 1
        invariant SubSteps(m, s, i, fraction, size, ex, ey) == Motion(pos, vel, grounded)
      {
        StepsAdd(m, s, i, max + 1 - i, fraction, size, ex, ey);
        if vel == Vec(0.0, 0.0) {
          StandsStill(m, Motion(pos, vel, grounded), max + 1 - i, fraction, size, ex, ey);
          break;
        }
        var newPos := Add(pos, Scale(vel, fraction));
        if newPos == pos {
          NothingMoves(m, Motion(pos, vel, grounded), max + 1 - i, fraction, size, ex, ey);
          break;
        }
        NextStep(m, s, i, fraction, size, ex, ey);
        newPos, vel, grounded := Collide(m, pos, newPos, vel, grounded, fraction, size, ex, ey);
        pos := newPos;
        i := i + 1;
      }
    }
    if distance > 0.00001 {
      ghost var path := MoveHasPath(m, s, distance, size, elasticity);
    }
    if !TestBox(m, inoutPos, size) {
      MovedIsSound(m, s, distance, size, elasticity);
    }
  }

  /** The collision tests of one sub-step. */
  method Collide(m: Map, pos: Vec, to: Vec, oldVel: Vec, wasGrounded: bool, ghost fraction: real,
                 size: Vec, ex: real, ey: real)
    returns (newPos: Vec, vel: Vec, grounded: bool)
    requires Loaded(m) && to == Add(pos, Scale(oldVel, fraction))
    ensures Motion(newPos, vel, grounded) == SubStep(m, Motion(pos, oldVel, wasGrounded), fraction, size, ex, ey)
  {
    hide TestBox, Add, Scale, Bounced;
    newPos, vel, grounded := to, oldVel, wasGrounded;
    if TestBox(m, Vec(newPos.x, newPos.y), size) {
      var hits := 0;
      if TestBox(m, Vec(pos.x, newPos.y), size) {
        if ey > 0.0 && vel.y > 0.0 {
          grounded := true;
        }
        newPos := newPos.(y := pos.y);
        vel := vel.(y := Bounced(vel.y, ey));
        hits := hits + 1;
      }
      if TestBox(m, Vec(newPos.x, pos.y), size) {
        newPos := newPos.(x := pos.x);
        vel := vel.(x := Bounced(vel.x, ex));
        hits := hits + 1;
      }
      if hits == 0 {
        if ey > 0.0 && vel.y > 0.0 {
          grounded := true;
        }
        newPos := newPos.(y := pos.y);
        vel := vel.(y := Bounced(vel.y, ey));
        newPos := newPos.(x := pos.x);
        vel := vel.(x := Bounced(vel.x, ex));
      }
    }
  }

  lemma NoSteps(m: Map, s: Motion, fraction: real, size: Vec, ex: real, ey: real)
    requires Loaded(m)
    ensures SubSteps(m, s, 0, fraction, size, ex, ey) == s
  {
  }

  lemma NextStep(m: Map, s: Motion, n: nat, fraction: real, size: Vec, ex: real, ey: real)
    requires Loaded(m)
    ensures SubSteps(m, s, n + 1, fraction, size, ex, ey) ==
            SubStep(m, SubSteps(m, s, n, fraction, size, ex, ey), fraction, size, ex, ey)
  {
  }

  // ---------------------------------------------------------------- a line

  /** `int End(Distance + 1)` */
  function SampleCount(distance: real): int {
    (distance + 1.0).Floor
  }

  /** Sample `i` of `end` on the way from `a` to `b`. */
  function Sample(a: Vec, b: Vec, i: int, end: int): Vec
    requires 0 < end
  {
    Add(a, Scale(Sub(b, a), i as real / end as real))
  }

  /** The samples lead from one end to the other, in more parts than the distance has units, but one more at most. */
  lemma SampleEnds(a: Vec, b: Vec, distance: real)
    requires 0.0 <= distance
    ensures var end := SampleCount(distance);
      && distance < end as real <= distance + 1.0 && Sample(a, b, 0, end) == a && Sample(a, b, end, end) == b
  {
    var end := SampleCount(distance);
    assert 0 as real / end as real == 0.0 && end as real / end as real == 1.0;
  }

  /** Neighbouring samples are less than one unit apart. */
  lemma SamplesAreClose(a: Vec, b: Vec, i: nat, distance: real)
    requires 0.0 <= distance && distance * distance == Dot(Sub(b, a), Sub(b, a))
    ensures var end := SampleCount(distance); 0 < end && Dist2(Sample(a, b, i, end), Sample(a, b, i + 1, end)) < 1.0
  {
    hide Abs, Sub, Sample, Dot, Dist2;
    var end := SampleCount(distance);
    var f := EndIsFar(distance, end);
    SampleVector(a, b, i, end, f);
    CloseTogether(Sample(a, b, i, end), Sample(a, b, i + 1, end), Sub(b, a), f, distance);
  }

  lemma CloseTogether(p: Vec, q: Vec, v: Vec, f: real, distance: real)
    requires 0.0 <= f && 0.0 <= distance * f < 1.0 && distance * distance == Dot(v, v)
    requires Abs(-(p.x - q.x)) <= Abs(v.x) * f && Abs(-(p.y - q.y)) <= Abs(v.y) * f
    ensures Dist2(p, q) < 1.0
  {
    hide Abs;
    ShortVector(p.x - q.x, p.y - q.y, v, f, distance);
  }

  lemma EndIsFar(distance: real, end: int) returns (f: real)
    requires 0.0 <= distance && end == SampleCount(distance)
    ensures 0 < end && f == 1.0 / end as real && 0.0 < f && 0.0 <= distance * f < 1.0
  {
    assert distance < end as real;
    f := 1.0 / end as real;
    assert end as real * f == 1.0;
    LessThanWhole(distance, end as real, f);
  }

  lemma SampleVector(a: Vec, b: Vec, i: nat, end: int, f: real)
    requires 0 < end && f == 1.0 / end as real && 0.0 < f
    ensures var v, p, q := Sub(b, a), Sample(a, b, i, end), Sample(a, b, i + 1, end);
      Abs(-(p.x - q.x)) <= Abs(v.x) * f && Abs(-(p.y - q.y)) <= Abs(v.y) * f
  {
    var v := Sub(b, a);
    var p, q := Sample(a, b, i, end), Sample(a, b, i + 1, end);
    SampleStep(a.x, v.x, i, end, f, p.x, q.x);
    SampleStep(a.y, v.y, i, end, f, p.y, q.y);
  }

  lemma SampleStep(a: real, v: real, i: nat, end: int, f: real, p: real, q: real)
    requires 0 < end && f == 1.0 / end as real && 0.0 < f
    requires p == a + v * (i as real / end as real) && q == a + v * ((i + 1) as real / end as real)
    ensures Abs(-(p - q)) <= Abs(v) * f
  {
    var j, k := i as real / end as real, (i + 1) as real / end as real;
    assert k == j + f;
    Distribute(j, f, v);
    ScaledLength(v, f);
    var d := v * f;
    assert q == p + d;
  }

  /** `p` is sample `at`, the first solid one, and `q` the one before it. */
  ghost predicate FirstSolid(m: Map, a: Vec, b: Vec, end: int, at: int, p: Vec, q: Vec)
    requires Loaded(m) && 0 < end
  {
    && 0 <= at <= end && p == Sample(a, b, at, end) && CheckPoint(m, p)
    && q == (if at == 0 then a else Sample(a, b, at - 1, end))
    && forall i :: 0 <= i < at ==> !CheckPoint(m, Sample(a, b, i, end))
  }

  ghost predicate NoneSolid(m: Map, a: Vec, b: Vec, end: int)
    requires Loaded(m) && 0 < end
  {
    forall i :: 0 <= i <= end ==> !CheckPoint(m, Sample(a, b, i, end))
  }

  /** The first solid sample on the way, with the sample before it; the end point if there is none. */
  method IntersectLine(m: Map, pos0: Vec, pos1: Vec, distance: real) returns (hit: int, collision: Vec, before: Vec)
    requires Loaded(m) && 0.0 <= distance && distance * distance == Dot(Sub(pos1, pos0), Sub(pos1, pos0))
    ensures 0 < SampleCount(distance)
    ensures hit == 0 ==> collision == pos1 && before == pos1 && NoneSolid(m, pos0, pos1, SampleCount(distance))
    ensures hit != 0 ==>
      && hit == GetTile(m, RoundToInt(collision.x), RoundToInt(collision.y))
      && (hit == TILE_SOLID || hit == TILE_NOHOOK)
      && exists at :: FirstSolid(m, pos0, pos1, SampleCount(distance), at, collision, before)
  {
    hide GetTile, RoundToInt, Sample;
    var end := SampleCount(distance);
    var last := pos0;
    var i := 0;
    while i <= end
      invariant 0 <= i <= end + 1
      invariant forall k :: 0 <= k < i ==> !CheckPoint(m, Sample(pos0, pos1, k, end))
      invariant last == if i == 0 then pos0 else Sample(pos0, pos1, i - 1, end)
    {
      var pos := Sample(pos0, pos1, i, end);
      if CheckPoint(m, pos) {
        assert FirstSolid(m, pos0, pos1, end, i, pos, last);
        return GetTile(m, RoundToInt(pos.x), RoundToInt(pos.y)), pos, last;
      }
      last := pos;
      i := i + 1;
    }
    return 0, pos1, pos1;
  }
}
