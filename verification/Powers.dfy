/** Powers of two, and division by variable numbers, proved once for the other modules. */
module Powers {

  function Pow2(k: nat): (p: nat)
    ensures 0 < p
  {
    if k == 0 then 1 else 2 * Pow2(k - 1)
  }

  lemma {:induction false} Pow2Monotone(i: nat, j: nat)
    requires i <= j
    ensures Pow2(i) <= Pow2(j)
    decreases j
  {
    if i < j {
      Pow2Monotone(i, j - 1);
    }
  }

  lemma {:induction false} Pow2Adds(i: nat, j: nat)
    ensures Pow2(i + j) == Pow2(i) * Pow2(j)
  {
    if 0 < i {
      Pow2Adds(i - 1, j);
      assert Pow2(i + j) == 2 * Pow2(i - 1 + j);
      assert 2 * (Pow2(i - 1) * Pow2(j)) == (2 * Pow2(i - 1)) * Pow2(j);
    }
  }

  lemma Pow2At31()
    ensures Pow2(31) == 0x8000_0000 && Pow2(32) == 0x1_0000_0000
  {
    assert Pow2(10) == 1024;
    assert Pow2(20) == 1024 * 1024;
    assert Pow2(31) == 2048 * 1024 * 1024;
  }

  lemma Pow2At64()
    ensures Pow2(64) == 0x1_0000_0000_0000_0000
  {
    Pow2At31();
    assert Pow2(42) == Pow2(32) * 1024;
    assert Pow2(52) == Pow2(42) * 1024;
    assert Pow2(62) == Pow2(52) * 1024;
  }

  lemma MultipleAtLeast(d: int, k: int)
    requires 0 < d && k != 0
    ensures d <= d * k || d * k <= -d
  {
  }

  /** Division and remainder are determined by `x == d * q + r`. */
  lemma DivisionIs(x: int, d: nat, q: int, r: int)
    requires 0 < d && x == d * q + r && 0 <= r < d
    ensures x / d == q && x % d == r
  {
    var q' := x / d;
    assert x == d * q' + x % d;
    assert d * (q' - q) == r - x % d;
    if q' != q {
      MultipleAtLeast(d, q' - q);
    }
  }

  lemma MulMonotone(d: int, a: int, b: int)
    requires 0 <= d && a <= b
    ensures d * a <= d * b
  {
  }

  lemma DivideTwice(x: int, d: int, e: int)
    requires 0 < d && 0 < e
    ensures 0 < d * e && (x / d) / e == x / (d * e)
  {
    var q := x / d;
    var r := q / e;
    var low := d * (q % e) + x % d;
    MultipleAtLeast(d, e);
    MulMonotone(d, 0, e);
    MulMonotone(d, 0, q % e);
    MulMonotone(d, q % e, e - 1);
    assert x == d * q + x % d && q == e * r + q % e;
    assert d * (e * r + q % e) == (d * e) * r + d * (q % e);
    assert d * (e - 1) == d * e - d;
    DivisionIs(x, d * e, r, low);
  }
}
