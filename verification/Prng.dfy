/**
  The PCG generator: the 64-bit linear congruential state and the permuted 32-bit output, as a
  class, with the full period of the state recurrence.
 */
module Prng {
  import opened Bytes
  import opened Powers

  const MULTIPLIER := 6364136223846793005

  /** One step of the state recurrence in 64-bit arithmetic. */
  function Next(x: nat, inc: nat): (r: nat)
    ensures r < U64_LIMIT
  {
    (x * MULTIPLIER + inc) % U64_LIMIT
  }

  function Iterate(x: nat, inc: nat, n: nat): (r: nat)
    ensures 0 < n ==> r < U64_LIMIT
  {
    if n == 0 then x else Next(Iterate(x, inc, n - 1), inc)
  }

  lemma {:induction false} IterateAdds(x: nat, inc: nat, m: nat, n: nat)
    ensures Iterate(x, inc, m + n) == Iterate(Iterate(x, inc, m), inc, n)
  {
    if 0 < n {
      IterateAdds(x, inc, m, n - 1);
      assert m + n - 1 == m + (n - 1);
    }
  }

  // ---------------------------------------------------------------- congruence

  /** `a` and `b` agree in their low `k` bits. */
  ghost predicate Same(a: int, b: int, k: nat) {
    (a - b) % Pow2(k) == 0
  }

  lemma SameFrom(a: int, b: int, k: nat, q: int)
    requires a - b == Pow2(k) * q
    ensures Same(a, b, k)
  {
    DivisionIs(a - b, Pow2(k), q, 0);
  }

  lemma SameQuotient(a: int, b: int, k: nat) returns (q: int)
    requires Same(a, b, k)
    ensures a - b == Pow2(k) * q
  {
    q := (a - b) / Pow2(k);
  }

  lemma SameTrans(a: int, b: int, c: int, k: nat)
    requires Same(a, b, k) && Same(b, c, k)
    ensures Same(a, c, k)
  {
    var p := SameQuotient(a, b, k);
    var q := SameQuotient(b, c, k);
    assert Pow2(k) * p + Pow2(k) * q == Pow2(k) * (p + q);
    SameFrom(a, c, k, p + q);
  }

  lemma SameSymmetric(a: int, b: int, k: nat)
    requires Same(a, b, k)
    ensures Same(b, a, k)
  {
    var q := SameQuotient(a, b, k);
    assert -(Pow2(k) * q) == Pow2(k) * -q;
    SameFrom(b, a, k, -q);
  }

  lemma SameShift(a: int, b: int, d: int, k: nat)
    requires Same(a, b, k)
    ensures Same(a + d, b + d, k)
  {
    assert (a + d) - (b + d) == a - b;
  }

  lemma SameLower(a: int, b: int, k: nat, j: nat)
    requires Same(a, b, k) && j <= k
    ensures Same(a, b, j)
  {
    var q := SameQuotient(a, b, k);
    Pow2Adds(j, k - j);
    assert Pow2(j) * Pow2(k - j) * q == Pow2(j) * (Pow2(k - j) * q);
    SameFrom(a, b, j, Pow2(k - j) * q);
  }

  /** Agreeing in the low `k` bits leaves two cases for the low `k + 1` bits. */
  lemma SameOrFlipped(a: int, b: int, k: nat)
    requires Same(a, b, k)
    ensures Same(a, b, k + 1) || Same(a + Pow2(k), b, k + 1)
  {
    var q := SameQuotient(a, b, k);
    var h := q / 2;
    if q == 2 * h {
      assert Pow2(k) * (2 * h) == Pow2(k + 1) * h;
      SameFrom(a, b, k + 1, h);
    } else {
      assert Pow2(k) * (2 * h + 1) + Pow2(k) == Pow2(k + 1) * (h + 1);
      SameFrom(a + Pow2(k), b, k + 1, h + 1);
    }
  }

  lemma SameBelow(a: nat, b: nat, k: nat)
    requires Same(a, b, k) && a < Pow2(k) && b < Pow2(k)
    ensures a == b
  {
    var q := SameQuotient(a, b, k);
    if q != 0 {
      MultipleAtLeast(Pow2(k), q);
    }
  }

  lemma ReducedIsSame(x: int, k: nat)
    requires k <= 64
    ensures Same(x % U64_LIMIT, x, k)
  {
    Pow2At64();
    assert x % U64_LIMIT - x == U64_LIMIT * -(x / U64_LIMIT);
    SameFrom(x % U64_LIMIT, x, 64, -(x / U64_LIMIT));
    SameLower(x % U64_LIMIT, x, 64, k);
  }

  /** An affine map takes numbers that agree to numbers that agree. */
  lemma SameAffine(a: int, b: int, m: int, c: int, k: nat)
    requires Same(a, b, k)
    ensures Same(a * m + c, b * m + c, k)
  {
    var q := SameQuotient(a, b, k);
    assert (a * m + c) - (b * m + c) == (a - b) * m == Pow2(k) * q * m == Pow2(k) * (q * m);
    SameFrom(a * m + c, b * m + c, k, q * m);
  }

  lemma {:induction false} IterateSame(x: nat, y: nat, inc: nat, n: nat, k: nat)
    requires k <= 64 && Same(x, y, k)
    ensures Same(Iterate(x, inc, n), Iterate(y, inc, n), k)
    decreases n
  {
    if 0 < n {
      IterateSame(x, y, inc, n - 1, k);
      var x', y' := Iterate(x, inc, n - 1), Iterate(y, inc, n - 1);
      SameAffine(x', y', MULTIPLIER, inc, k);
      NextIsAffine(x', inc, k);
      NextIsAffine(y', inc, k);
      SameSymmetric(Next(y', inc), y' * MULTIPLIER + inc, k);
      SameTrans(Next(x', inc), x' * MULTIPLIER + inc, y' * MULTIPLIER + inc, k);
      SameTrans(Next(x', inc), y' * MULTIPLIER + inc, Next(y', inc), k);
    }
  }

  lemma NextIsAffine(x: nat, inc: nat, k: nat)
    requires k <= 64
    ensures Same(Next(x, inc), x * MULTIPLIER + inc, k)
  {
    ReducedIsSame(x * MULTIPLIER + inc, k);
  }

  // ---------------------------------------------------------------- 2^k steps at a time

  /** 2^k steps multiply by `1 + 4 * 2^k * Slope(k)` and add `2^k * Offset(inc, k)`. */
  function Slope(k: nat): int {
    if k == 0 then (MULTIPLIER - 1) / 4 else Slope(k - 1) + 2 * Pow2(k - 1) * Slope(k - 1) * Slope(k - 1)
  }

  function Offset(inc: nat, k: nat): int {
    if k == 0 then inc else Offset(inc, k - 1) * (1 + 2 * Pow2(k - 1) * Slope(k - 1))
  }

  lemma {:induction false} OffsetIsOdd(inc: nat, k: nat)
    requires inc % 2 == 1
    ensures Offset(inc, k) % 2 == 1
  {
    if 0 < k {
      OffsetIsOdd(inc, k - 1);
      OddTimesOdd(Offset(inc, k - 1), Pow2(k - 1), Slope(k - 1));
    }
  }

  lemma OddTimesOdd(d: int, p: int, a: int)
    requires d % 2 == 1
    ensures (d * (1 + 2 * p * a)) % 2 == 1
  {
    assert d * (1 + 2 * p * a) == d + 2 * (d * (p * a));
  }

  function Jump(x: int, inc: nat, k: nat): int {
    x * (1 + 4 * Pow2(k) * Slope(k)) + Pow2(k) * Offset(inc, k)
  }

  lemma JumpTwice(x: int, inc: nat, k: nat)
    ensures Jump(Jump(x, inc, k), inc, k) == Jump(x, inc, k + 1)
  {
    var p, a, d := Pow2(k), Slope(k), Offset(inc, k);
    var m := 1 + 4 * p * a;
    assert Pow2(k + 1) == 2 * p && Slope(k + 1) == a + 2 * p * a * a && Offset(inc, k + 1) == d * (1 + 2 * p * a);
    JumpAlgebra(x, p, a, d);
  }

  lemma JumpAlgebra(x: int, p: int, a: int, d: int)
    ensures (x * (1 + 4 * p * a) + p * d) * (1 + 4 * p * a) + p * d
         == x * (1 + 4 * (2 * p) * (a + 2 * p * a * a)) + 2 * p * (d * (1 + 2 * p * a))
  {
  }

  lemma {:induction false} IterateIsJump(x: nat, inc: nat, k: nat)
    requires k <= 64
    ensures Same(Iterate(x, inc, Pow2(k)), Jump(x, inc, k), 64)
    decreases k
  {
    hide Next, Jump, Same;
    if k == 0 {
      OneStep(x, inc);
    } else {
      var y := Iterate(x, inc, Pow2(k - 1));
      IterateIsJump(x, inc, k - 1);
      IterateIsJump(y, inc, k - 1);
      IterateAdds(x, inc, Pow2(k - 1), Pow2(k - 1));
      JumpSame(y, Jump(x, inc, k - 1), inc, k - 1);
      JumpTwice(x, inc, k - 1);
      SameTrans(Iterate(y, inc, Pow2(k - 1)), Jump(y, inc, k - 1), Jump(x, inc, k), 64);
    }
  }

  lemma OneStep(x: nat, inc: nat)
    ensures Same(Iterate(x, inc, 1), Jump(x, inc, 0), 64)
  {
    assert Iterate(x, inc, 1) == Next(Iterate(x, inc, 0), inc);
    hide Same, Next;
    NextIsAffine(x, inc, 64);
    JumpOnce(x, inc);
  }

  lemma JumpOnce(x: int, inc: nat)
    ensures Jump(x, inc, 0) == x * MULTIPLIER + inc
  {
    assert Slope(0) * 4 + 1 == MULTIPLIER;
  }

  lemma JumpSame(y: int, z: int, inc: nat, k: nat)
    requires Same(y, z, 64)
    ensures Same(Jump(y, inc, k), Jump(z, inc, k), 64)
  {
    SameAffine(y, z, 1 + 4 * Pow2(k) * Slope(k), Pow2(k) * Offset(inc, k), 64);
  }

  /** 2^k steps act on the low k + 1 bits of the state as adding 2^k. */
  lemma StepsAddPowerOfTwo(x: nat, inc: nat, k: nat)
    requires k < 64 && inc % 2 == 1
    ensures Same(Iterate(x, inc, Pow2(k)), x + Pow2(k), k + 1)
  {
    hide Pow2, Iterate, Jump, Same, Offset, Slope;
    IterateIsJump(x, inc, k);
    SameLower(Iterate(x, inc, Pow2(k)), Jump(x, inc, k), 64, k + 1);
    var m := JumpIsShift(x, inc, k);
    SameFrom(Jump(x, inc, k), x + Pow2(k), k + 1, m);
    SameTrans(Iterate(x, inc, Pow2(k)), Jump(x, inc, k), x + Pow2(k), k + 1);
  }

  /** Up to a multiple of 2^(k + 1) the jump is a shift by 2^k. */
  lemma JumpIsShift(x: nat, inc: nat, k: nat) returns (m: int)
    requires inc % 2 == 1
    ensures Jump(x, inc, k) - (x + Pow2(k)) == Pow2(k + 1) * m
  {
    OffsetIsOdd(inc, k);
    hide Offset, Slope;
    var h := Offset(inc, k) / 2;
    m := 2 * Slope(k) * x + h;
    assert Pow2(k + 1) == 2 * Pow2(k);
    hide Pow2;
    OddOffset(x, Pow2(k), Slope(k), Offset(inc, k), h);
  }

  lemma OddOffset(x: int, p: int, a: int, d: int, h: int)
    requires d == 2 * h + 1
    ensures x * (1 + 4 * p * a) + p * d - (x + p) == (2 * p) * (2 * a * x + h)
  {
    JumpLowBits(x, p, a, h);
  }

  lemma JumpLowBits(x: int, p: int, a: int, h: int)
    ensures x * (1 + 4 * p * a) + p * (2 * h + 1) - (x + p) == (2 * p) * (2 * a * x + h)
  {
  }

  // ---------------------------------------------------------------- the full period

  /** From any state, some number of steps below 2^k reaches any given low `k` bits. */
  lemma {:induction false} Reaches(x: nat, y: nat, inc: nat, k: nat) returns (n: nat)
    requires k <= 64 && inc % 2 == 1
    ensures n < Pow2(k) && Same(Iterate(x, inc, n), y, k)
  {
    hide Next, Same;
    if k == 0 {
      n := 0;
      SameFrom(x, y, 0, x - y);
    } else {
      n := Reaches(x, y, inc, k - 1);
      var s := Iterate(x, inc, n);
      SameOrFlipped(s, y, k - 1);
      if !Same(s, y, k) {
        StepsAddPowerOfTwo(s, inc, k - 1);
        SameTrans(Iterate(s, inc, Pow2(k - 1)), s + Pow2(k - 1), y, k);
        IterateAdds(x, inc, n, Pow2(k - 1));
        n := n + Pow2(k - 1);
      }
    }
  }

  /** Every step count acts on the low `k` bits as one below 2^k. */
  lemma {:induction false} MultipleSteps(x: nat, inc: nat, k: nat, j: nat)
    requires k < 64 && inc % 2 == 1
    ensures Same(Iterate(x, inc, Pow2(k) * j), x + Pow2(k) * j, k + 1)
    decreases j
  {
    hide Next;
    if j == 0 {
      SameFrom(x, x, k + 1, 0);
    } else {
      var s := Iterate(x, inc, Pow2(k) * (j - 1));
      MultipleSteps(x, inc, k, j - 1);
      assert Pow2(k) * j == Pow2(k) * (j - 1) + Pow2(k);
      IterateAdds(x, inc, Pow2(k) * (j - 1), Pow2(k));
      StepsAddPowerOfTwo(s, inc, k);
      SameShift(s, x + Pow2(k) * (j - 1), Pow2(k), k + 1);
      SameTrans(Iterate(s, inc, Pow2(k)), s + Pow2(k), x + Pow2(k) * j, k + 1);
    }
  }

  /** Coming back to the same low `k` bits takes a multiple of 2^k steps. */
  lemma {:induction false} ReturnIsMultiple(x: nat, inc: nat, n: nat, k: nat) returns (q: nat)
    requires k <= 64 && inc % 2 == 1
    requires Same(Iterate(x, inc, n), x, k)
    ensures n == Pow2(k) * q
    decreases k
  {
    hide Next, Same, Pow2, Iterate;
    if k == 0 {
      FirstPower();
      q := n;
    } else {
      SameLower(Iterate(x, inc, n), x, k, k - 1);
      var h := ReturnIsMultiple(x, inc, n, k - 1);
      MultipleSteps(x, inc, k - 1, h);
      SameSymmetric(Iterate(x, inc, n), x + Pow2(k - 1) * h, k);
      SameTrans(x + Pow2(k - 1) * h, Iterate(x, inc, n), x, k);
      var e := SameQuotient(x + Pow2(k - 1) * h, x, k);
      PowerDoubles(k);
      assert Pow2(k - 1) * h == Pow2(k - 1) * (2 * e);
      CancelFactor(Pow2(k - 1), h, 2 * e);
      q := e;
    }
  }

  lemma FirstPower()
    ensures Pow2(0) == 1
  {
  }

  lemma PowerDoubles(k: nat)
    requires 0 < k
    ensures Pow2(k) == 2 * Pow2(k - 1) && 0 < Pow2(k - 1)
  {
  }

  lemma CancelFactor(p: int, a: int, b: int)
    requires 0 < p && p * a == p * b
    ensures a == b
  {
    assert p * (a - b) == 0;
    if a != b {
      MultipleAtLeast(p, a - b);
    }
  }

  /** Whatever the state, n steps lead back to it exactly when n is a multiple of 2^64. */
  lemma PeriodIff(x: nat, inc: nat, n: nat)
    requires x < U64_LIMIT && inc % 2 == 1
    ensures Iterate(x, inc, n) == x <==> n % U64_LIMIT == 0
  {
    hide Pow2, Iterate, Same;
    Pow2At64();
    if Iterate(x, inc, n) == x {
      SameFrom(x, x, 64, 0);
      var q := ReturnIsMultiple(x, inc, n, 64);
      MultipleIs(n, q);
    }
    if n % U64_LIMIT == 0 {
      FullLaps(x, inc, n / U64_LIMIT);
    }
  }

  lemma MultipleIs(n: nat, q: nat)
    requires n == U64_LIMIT * q
    ensures n % U64_LIMIT == 0
  {
  }

  lemma {:induction false} FullLaps(x: nat, inc: nat, j: nat)
    requires x < U64_LIMIT && inc % 2 == 1
    ensures Iterate(x, inc, Pow2(64) * j) == x
  {
    Pow2At64();
    MultipleSteps(x, inc, 63, 2 * j);
    assert Pow2(63) * (2 * j) == Pow2(64) * j;
    SameFrom(x + Pow2(64) * j, x, 64, j);
    SameTrans(Iterate(x, inc, Pow2(64) * j), x + Pow2(64) * j, x, 64);
    SameBelow(Iterate(x, inc, Pow2(64) * j), x, 64);
  }

  /** Every one of the 2^64 states is reached from every other within one period. */
  lemma FullPeriod(x: nat, y: nat, inc: nat)
    requires x < U64_LIMIT && y < U64_LIMIT && inc % 2 == 1
    ensures exists n: nat :: n < U64_LIMIT && Iterate(x, inc, n) == y
  {
    Pow2At64();
    var n := Reaches(x, y, inc, 64);
    SameBelow(Iterate(x, inc, n), y, 64);
  }
}
