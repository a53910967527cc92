/**
  The output function of the PCG generator: a xor-shift and a rotation by the top five bits,
  proved to spread the states evenly over the outputs, and the generator class itself.
 */
module PrngOutput {
  import opened Bytes
  import opened Powers
  import opened Prng

  // ---------------------------------------------------------------- bit operations on naturals

  function Xor(a: nat, b: nat): (r: nat)
    decreases a + b
  {
    if a == 0 && b == 0 then 0 else 2 * Xor(a / 2, b / 2) + Parity(a + b)
  }

  function Parity(x: int): (r: nat)
    ensures r < 2
  {
    x % 2
  }

  function Or(a: nat, b: nat): (r: nat)
    decreases a + b
  {
    if a == 0 && b == 0 then 0 else 2 * Or(a / 2, b / 2) + if a % 2 == 1 || b % 2 == 1 then 1 else 0
  }

  function Shr(x: nat, k: nat): nat {
    if k == 0 then x else Shr(x / 2, k - 1)
  }

  lemma {:induction false} ShrIsDivision(x: nat, k: nat)
    ensures Shr(x, k) == x / Pow2(k)
    decreases k
  {
    if 0 < k {
      ShrIsDivision(x / 2, k - 1);
      DivideTwice(x, 2, Pow2(k - 1));
    }
  }

  lemma {:induction false} ShrTwice(x: nat, j: nat, k: nat)
    ensures Shr(Shr(x, j), k) == Shr(x, j + k)
    decreases j
  {
    if 0 < j {
      ShrTwice(x / 2, j - 1, k);
    }
  }

  lemma {:induction false} ShrOut(x: nat, j: nat, k: nat)
    requires x < Pow2(j) && j <= k
    ensures Shr(x, k) == 0
    decreases k
  {
    if 0 < k {
      ShrOut(x / 2, if j == 0 then 0 else j - 1, k - 1);
    }
  }

  lemma {:induction false} ShrBound(x: nat, k: nat)
    ensures Shr(x, k) <= x
    decreases k
  {
    if 0 < k {
      ShrBound(x / 2, k - 1);
    }
  }

  /** The exclusive or by its lowest bit and the rest. */
  lemma XorParts(a: nat, b: nat)
    ensures Xor(a, b) == 2 * Xor(a / 2, b / 2) + Parity(a + b)
  {
  }

  lemma {:induction false} XorShr(a: nat, b: nat, k: nat)
    ensures Shr(Xor(a, b), k) == Xor(Shr(a, k), Shr(b, k))
    decreases k
  {
    hide Xor;
    if 0 < k {
      XorParts(a, b);
      XorShr(a / 2, b / 2, k - 1);
    }
  }

  lemma {:induction false} XorZero(a: nat)
    ensures Xor(a, 0) == a
  {
    if 0 < a {
      XorZero(a / 2);
    }
  }

  lemma {:induction false} XorInterchange(a: nat, b: nat, c: nat, d: nat)
    ensures Xor(Xor(a, b), Xor(c, d)) == Xor(Xor(a, c), Xor(b, d))
    decreases a + b + c + d
  {
    hide Xor;
    if a + b + c + d != 0 {
      XorInterchange(a / 2, b / 2, c / 2, d / 2);
      XorOfFour(a, b, c, d);
      XorOfFour(a, c, b, d);
    }
  }

  lemma XorOfFour(a: nat, b: nat, c: nat, d: nat)
    ensures Xor(Xor(a, b), Xor(c, d)) == 2 * Xor(Xor(a / 2, b / 2), Xor(c / 2, d / 2)) + Parity(a + b + c + d)
  {
    hide Xor, Parity;
    XorParts(a, b);
    XorParts(c, d);
    XorOfSums(Xor(a, b), Xor(c, d), Xor(a / 2, b / 2), a + b, Xor(c / 2, d / 2), c + d);
  }

  lemma XorOfSums(u: nat, v: nat, x: nat, s: nat, y: nat, t: nat)
    requires u == 2 * x + Parity(s) && v == 2 * y + Parity(t)
    ensures Xor(u, v) == 2 * Xor(x, y) + Parity(s + t)
  {
    hide Xor, Parity;
    XorFromParts(u, v, x, Parity(s), y, Parity(t));
    ParityAdds(s, t);
  }

  lemma XorFromParts(u: nat, v: nat, x: nat, p: nat, y: nat, q: nat)
    requires p < 2 && q < 2 && u == 2 * x + p && v == 2 * y + q
    ensures Xor(u, v) == 2 * Xor(x, y) + Parity(p + q)
  {
    hide Xor;
    XorParts(u, v);
    assert u / 2 == x && v / 2 == y;
  }

  lemma ParityAdds(x: int, y: int)
    ensures Parity(x + y) == Parity(Parity(x) + Parity(y))
  {
  }

  lemma {:induction false} XorSelf(a: nat)
    ensures Xor(a, a) == 0
  {
    if 0 < a {
      XorSelf(a / 2);
    }
  }

  lemma {:induction false} XorCommutes(a: nat, b: nat)
    ensures Xor(a, b) == Xor(b, a)
    decreases a + b
  {
    if a + b != 0 {
      XorCommutes(a / 2, b / 2);
    }
  }

  /** A middle term cancels. */
  lemma XorCancel(a: nat, b: nat, c: nat)
    ensures Xor(Xor(a, b), Xor(b, c)) == Xor(a, c)
  {
    hide Xor;
    XorCommutes(a, b);
    XorInterchange(b, a, b, c);
    XorSelf(b);
    XorCommutes(0, Xor(a, c));
    XorZero(Xor(a, c));
  }

  lemma {:induction false} XorBound(a: nat, b: nat, k: nat)
    requires a < Pow2(k) && b < Pow2(k)
    ensures Xor(a, b) < Pow2(k)
    decreases k
  {
    if 0 < k && a + b != 0 {
      XorBound(a / 2, b / 2, k - 1);
    }
  }

  // ---------------------------------------------------------------- the xor-shift

  /** `x ^= x >> 18` */
  function Mix(x: nat): nat {
    Xor(x, Shr(x, 18))
  }

  function Unmix(y: nat): nat {
    var z := Mix(y);
    Xor(z, Shr(z, 36))
  }

  /** Twice the xor-shift is a xor-shift by twice as much. */
  lemma MixTwice(x: nat)
    ensures Mix(Mix(x)) == Xor(x, Shr(x, 36))
  {
    hide Xor, Shr;
    XorShr(x, Shr(x, 18), 18);
    ShrTwice(x, 18, 18);
    XorCancel(x, Shr(x, 18), Shr(x, 36));
  }

  lemma DoubleShift(x: nat)
    requires x < Pow2(64)
    ensures var z := Xor(x, Shr(x, 36)); Xor(z, Shr(z, 36)) == x
  {
    hide Xor, Shr;
    XorShr(x, Shr(x, 36), 36);
    ShrTwice(x, 36, 36);
    ShrOut(x, 64, 72);
    XorCancel(x, Shr(x, 36), 0);
    XorZero(x);
  }

  lemma UnmixMix(x: nat)
    requires x < Pow2(64)
    ensures Unmix(Mix(x)) == x
  {
    hide Xor, Shr;
    MixTwice(x);
    DoubleShift(x);
  }

  lemma MixUnmix(y: nat)
    requires y < Pow2(64)
    ensures Mix(Unmix(y)) == y
  {
    hide Xor, Shr;
    var z := Mix(y);
    var w := Xor(y, Shr(y, 36));
    MixTwice(y);
    assert Mix(z) == w;
    XorShr(z, Shr(z, 36), 18);
    ShrTwice(z, 36, 18);
    ShrTwice(z, 18, 36);
    XorShr(z, Shr(z, 18), 36);
    XorInterchange(z, Shr(z, 36), Shr(z, 18), Shr(z, 54));
    assert Mix(Unmix(y)) == Xor(w, Shr(w, 36));
    DoubleShift(y);
  }

  lemma MixKeeps(x: nat)
    requires x < Pow2(64)
    ensures Mix(x) < Pow2(64) && Unmix(x) < Pow2(64) && Shr(Mix(x), 59) == Shr(x, 59)
  {
    hide Xor, Shr;
    ShrBound(x, 18);
    XorBound(x, Shr(x, 18), 64);
    var z := Mix(x);
    ShrBound(z, 36);
    XorBound(z, Shr(z, 36), 64);
    XorShr(x, Shr(x, 18), 59);
    ShrTwice(x, 18, 59);
    ShrOut(x, 64, 77);
    XorZero(Shr(x, 59));
  }

  // ---------------------------------------------------------------- the rotation

  lemma U32IsPower(x: nat)
    ensures U32(x) == x % Pow2(32)
  {
    Pow2At31();
  }

  /** `(x >> Shift) | (x << (-Shift & 31))` on 32 bits. */
  function RotateRight32(x: nat, shift: nat): nat
    requires shift < 32
  {
    Or(Shr(x, shift), U32(x * Pow2((32 - shift) % 32)))
  }

  lemma {:induction false} OrSelf(a: nat)
    ensures Or(a, a) == a
  {
    if 0 < a {
      OrSelf(a / 2);
    }
  }

  /** Numbers without a common bit position are joined by addition. */
  lemma {:induction false} OrDisjoint(a: nat, b: nat, k: nat)
    requires a < Pow2(k)
    ensures Or(a, b * Pow2(k)) == a + b * Pow2(k)
    decreases k
  {
    hide Or;
    if k == 0 {
      assert b * Pow2(0) == b;
      OrZero(b);
    } else {
      var m := b * Pow2(k - 1);
      OrDisjoint(a / 2, b, k - 1);
      assert b * Pow2(k) == 2 * m;
      OrDoubled(a, m);
    }
  }

  lemma OrDoubled(a: nat, m: nat)
    ensures Or(a, 2 * m) == 2 * Or(a / 2, m) + a % 2
  {
  }

  lemma {:induction false} OrZero(b: nat)
    ensures Or(0, b) == b
  {
    if 0 < b {
      OrZero(b / 2);
    }
  }

  /** The arithmetic of exchanging the parts `hi` and `lo` of a number below `p * q`. */
  lemma Exchange(x: nat, hi: nat, lo: nat, p: nat, q: nat)
    requires 0 < p && 0 < q && x == hi * p + lo && lo < p && hi < q
    ensures x < p * q && x / p == hi && 0 < p * q && (x * q) % (p * q) == lo * q
  {
    MulMonotone(p, hi, q - 1);
    assert p * (q - 1) == p * q - p;
    DivisionIs(x, p, hi, lo);
    MulMonotone(q, 0, lo);
    MulMonotone(q, lo, p - 1);
    assert q * (p - 1) == p * q - q;
    assert x * q == (p * q) * hi + lo * q;
    DivisionIs(x * q, p * q, hi, lo * q);
  }

  /** A rotation by `n` exchanges the upper `32 - n` and the lower `n` bits. */
  lemma RotateExchanges(x: nat, hi: nat, lo: nat, n: nat)
    requires n < 32 && x == hi * Pow2(n) + lo && lo < Pow2(n) && hi < Pow2(32 - n)
    ensures RotateRight32(x, n) == lo * Pow2(32 - n) + hi
  {
    hide Pow2, Or, Shr, U32;
    U32IsPower(x * Pow2((32 - n) % 32));
    if n == 0 {
      RotateByNone(x);
      assert hi * 1 == hi && lo == 0;
    } else {
      Exchange(x, hi, lo, Pow2(n), Pow2(32 - n));
      Pow2Adds(n, 32 - n);
      ShrIsDivision(x, n);
      OrDisjoint(hi, lo, 32 - n);
    }
  }

  lemma RotateByNone(x: nat)
    ensures Pow2(0) == 1 && (x < Pow2(32) ==> RotateRight32(x, 0) == x)
  {
    hide Or, U32, Pow2;
    PowZero();
    U32IsPower(x * 1);
    if x < Pow2(32) {
      DivisionIs(x, Pow2(32), 0, x);
    }
    OrSelf(x);
  }

  lemma PowFive()
    ensures Pow2(5) == 32
  {
  }

  lemma PowZero()
    ensures Pow2(0) == 1
  {
  }

  function RotateLeft32(x: nat, n: nat): int
    requires n < 32
  {
    x % Pow2(32 - n) * Pow2(n) + x / Pow2(32 - n)
  }

  lemma SplitAt(x: nat, j: nat, k: nat)
    requires x < Pow2(j + k)
    ensures var hi, lo := x / Pow2(k), x % Pow2(k);
      x == hi * Pow2(k) + lo && 0 <= hi < Pow2(j) && 0 <= lo < Pow2(k)
  {
    var p, q := Pow2(j), Pow2(k);
    Pow2Adds(j, k);
    var hi := x / q;
    assert x == q * hi + x % q;
    if p <= hi {
      MulMonotone(q, p, hi);
    }
    if hi < 0 {
      MulMonotone(q, hi, -1);
    }
  }

  lemma RotateLeftUndone(x: nat, n: nat)
    requires n < 32 && x < Pow2(32)
    ensures 0 <= RotateLeft32(x, n) < Pow2(32) && RotateRight32(RotateLeft32(x, n), n) == x
  {
    hide Pow2, RotateRight32;
    SplitAt(x, n, 32 - n);
    var hi, lo := x / Pow2(32 - n), x % Pow2(32 - n);
    RotateBound(lo, hi, n);
    RotateExchanges(lo * Pow2(n) + hi, lo, hi, n);
  }

  lemma RotateRightUndone(x: nat, n: nat)
    requires n < 32 && x < Pow2(32)
    ensures RotateRight32(x, n) < Pow2(32) && RotateLeft32(RotateRight32(x, n), n) == x
  {
    hide Pow2, RotateRight32;
    SplitAt(x, 32 - n, n);
    var hi, lo := x / Pow2(n), x % Pow2(n);
    RotateExchanges(x, hi, lo, n);
    RotateBound(lo, hi, 32 - n);
    DivisionIs(lo * Pow2(32 - n) + hi, Pow2(32 - n), lo, hi);
  }

  lemma RotateBound(hi: int, lo: int, n: nat)
    requires n <= 32 && 0 <= lo < Pow2(n) && 0 <= hi < Pow2(32 - n)
    ensures 0 <= hi * Pow2(n) + lo < Pow2(32)
  {
    hide Pow2;
    Pow2Adds(32 - n, n);
    MulMonotone(Pow2(n), 0, hi);
    MulMonotone(Pow2(n), hi, Pow2(32 - n) - 1);
    assert Pow2(n) * (Pow2(32 - n) - 1) == Pow2(32 - n) * Pow2(n) - Pow2(n);
  }

  // ---------------------------------------------------------------- the output

  /** The 32 bits that come out of state `x`. */
  function Output(x: nat): nat
    requires x < Pow2(64)
  {
    hide Xor, Or;
    MixKeeps(x);
    ShrIsDivision(x, 59);
    SplitAt(x, 5, 59);
    assert Pow2(5) == 32;
    RotateRight32(U32(Shr(Mix(x), 27)), Shr(x, 59))
  }

  /** Three fields of a 64-bit number: the top 5 bits, the next 32 and the low 27. */
  function Pack(count: int, word: int, low: int): int {
    (count * Pow2(32) + word) * Pow2(27) + low
  }

  lemma PackedWord(count: nat, word: nat, low: nat)
    requires count < 32 && word < Pow2(32) && low < Pow2(27)
    ensures var y := Pack(count, word, low);
      0 <= y < Pow2(64) && Shr(y, 59) == count && Shr(y, 27) % Pow2(32) == word && y % Pow2(27) == low
  {
    hide Pow2, Shr;
    PowFive();
    var mid := count * Pow2(32) + word;
    FieldBound(count, word, 5, 32);
    FieldBound(mid, low, 37, 27);
    DivisionIs(Pack(count, word, low), Pow2(27), mid, low);
    DivisionIs(mid, Pow2(32), count, word);
    ShrIsDivision(Pack(count, word, low), 27);
    ShrIsDivision(mid, 32);
    ShrTwice(Pack(count, word, low), 27, 32);
  }

  lemma PackedFields(count: nat, word: nat, low: nat)
    requires count < 32 && word < Pow2(32) && low < Pow2(27)
    ensures var y := Pack(count, word, low);
      0 <= y < Pow2(64) && Shr(y, 59) == count && U32(Shr(y, 27)) == word && y % Pow2(27) == low
  {
    hide Pow2, Shr, U32, Pack;
    PackedWord(count, word, low);
    U32IsPower(Shr(Pack(count, word, low), 27));
  }

  lemma FieldBound(hi: int, lo: int, j: nat, k: nat)
    requires 0 <= hi < Pow2(j) && 0 <= lo < Pow2(k)
    ensures 0 <= hi * Pow2(k) + lo < Pow2(j + k)
  {
    hide Pow2;
    Pow2Adds(j, k);
    MulMonotone(Pow2(k), 0, hi);
    MulMonotone(Pow2(k), hi, Pow2(j) - 1);
    assert Pow2(k) * (Pow2(j) - 1) == Pow2(j) * Pow2(k) - Pow2(k);
  }

  lemma UnpackedFields(y: nat)
    requires y < Pow2(64)
    ensures Shr(y, 59) < 32 && Pack(Shr(y, 59), U32(Shr(y, 27)), y % Pow2(27)) == y
  {
    hide Pow2, Shr, U32;
    PowFive();
    U32IsPower(Shr(y, 27));
    var mid := y / Pow2(27);
    SplitAt(y, 37, 27);
    SplitAt(mid, 5, 32);
    ShrIsDivision(y, 27);
    ShrIsDivision(mid, 32);
    ShrTwice(y, 27, 32);
  }

  /** The state with the given top five bits, output and low 27 bits behind the xor-shift. */
  function StateOf(count: nat, out: nat, low: nat): (x: nat)
    requires count < 32 && out < Pow2(32) && low < Pow2(27)
    ensures x < Pow2(64)
  {
    hide Xor, Or, Shr;
    RotateLeftUndone(out, count);
    PackedFields(count, RotateLeft32(out, count), low);
    MixKeeps(Pack(count, RotateLeft32(out, count), low));
    Unmix(Pack(count, RotateLeft32(out, count), low))
  }

  /** Every output occurs in the same number of states: the states are in one-to-one
      correspondence with the triples of top bits, output and low bits. */
  lemma StateHasOutput(count: nat, out: nat, low: nat)
    requires count < 32 && out < Pow2(32) && low < Pow2(27)
    ensures var x := StateOf(count, out, low);
      Output(x) == out && Shr(x, 59) == count && Mix(x) % Pow2(27) == low
  {
    hide Xor, Or, Shr, Mix, Unmix, Pack, RotateLeft32, RotateRight32, Pow2;
    var w := RotateLeft32(out, count);
    RotateLeftUndone(out, count);
    PackedFields(count, w, low);
    var y := Pack(count, w, low);
    MixKeeps(y);
    MixUnmix(y);
    MixKeeps(Unmix(y));
  }

  lemma StateFromOutput(x: nat)
    requires x < Pow2(64)
    ensures Output(x) < Pow2(32) && Shr(x, 59) < 32
    ensures StateOf(Shr(x, 59), Output(x), Mix(x) % Pow2(27)) == x
  {
    hide Xor, Or, Shr, Mix, Unmix, Pack, RotateLeft32, RotateRight32, Pow2;
    var y := Mix(x);
    Pow2At31();
    MixKeeps(x);
    UnpackedFields(y);
    UnmixMix(x);
    RotateRightUndone(U32(Shr(y, 27)), Shr(y, 59));
  }

  /** Over one period every 32-bit value comes out equally often: once for each of the 32 * 2^27
      choices of the other bits of the state. */
  lemma EveryOutputOccurs(x: nat, inc: nat, count: nat, out: nat, low: nat) returns (n: nat)
    requires x < U64_LIMIT && inc % 2 == 1
    requires count < 32 && out < Pow2(32) && low < Pow2(27)
    ensures n < U64_LIMIT && Pow2(64) == U64_LIMIT
    ensures var s := Iterate(x, inc, n);
      s < U64_LIMIT && Output(s) == out && Shr(s, 59) == count && Mix(s) % Pow2(27) == low
    ensures forall m: nat :: m < U64_LIMIT && Iterate(x, inc, m) == Iterate(x, inc, n) ==> m == n
  {
    hide Xor, Or, Shr, Mix, Unmix, Pack, Output, Pow2;
    Pow2At64();
    StateHasOutput(count, out, low);
    var s := StateOf(count, out, low);
    FullPeriod(x, s, inc);
    n :| n < U64_LIMIT && Iterate(x, inc, n) == s;
    forall m: nat | m < U64_LIMIT && Iterate(x, inc, m) == s
      ensures m == n
    {
      OnlyOnce(x, inc, m, n);
    }
  }

  lemma OnlyOnce(x: nat, inc: nat, m: nat, n: nat)
    requires x < U64_LIMIT && inc % 2 == 1
    requires m < U64_LIMIT && n < U64_LIMIT && Iterate(x, inc, m) == Iterate(x, inc, n)
    ensures m == n
  {
    hide Next;
    var i, j := if m < n then m else n, if m < n then n else m;
    var s := Iterate(x, inc, i);
    IterateAdds(x, inc, i, j - i);
    PeriodIff(s, inc, j - i);
  }

  /** The draws of one period from state `x` that yield `out`. */
  function DrawsOf(x: nat, inc: nat, out: nat): set<nat>
    requires x < U64_LIMIT
  {
    Pow2At64();
    set n: nat | n < U64_LIMIT && Output(Iterate(x, inc, n)) == out
  }

  /** What a state has besides its output, as one number below 2^32. */
  function Rest(s: nat): (r: nat) {
    Shr(s, 59) * Pow2(27) + Mix(s) % Pow2(27)
  }

  lemma RestBound(s: nat)
    requires s < Pow2(64)
    ensures Rest(s) < U32_LIMIT
  {
    hide Pow2, Shr, Mix, Output;
    StateFromOutput(s);
    PowFive();
    Pow2At31();
    FieldBound(Shr(s, 59), Mix(s) % Pow2(27), 5, 27);
  }

  /** Output and rest determine the state. */
  lemma RestInjective(s: nat, t: nat)
    requires s < Pow2(64) && t < Pow2(64)
    ensures Output(s) == Output(t) && Rest(s) == Rest(t) ==> s == t
  {
    hide Pow2, Shr, Mix, Output, StateOf;
    StateFromOutput(s);
    StateFromOutput(t);
    DivisionIs(Rest(s), Pow2(27), Shr(s, 59), Mix(s) % Pow2(27));
    DivisionIs(Rest(t), Pow2(27), Shr(t, 59), Mix(t) % Pow2(27));
  }

  /** A set whose members are numbered from 0 to `n`, each number once, has `n` members. */
  lemma {:induction false} Numbered(s: set<nat>, number: map<nat, nat>, n: nat)
    requires number.Keys == s && forall m :: m in s ==> number[m] < n
    requires forall i, j :: i in s && j in s && number[i] == number[j] ==> i == j
    requires forall k: nat :: k < n ==> k in number.Values
    ensures |s| == n
    decreases n
  {
    if n == 0 {
      assert s == {};
    } else {
      assert n - 1 in number.Values;
      var last :| last in s && number[last] == n - 1;
      var fewer := number - {last};
      forall k: nat | k < n - 1
        ensures k in fewer.Values
      {
        assert k in number.Values;
        var m :| m in s && number[m] == k;
        assert fewer[m] == k;
      }
      Numbered(s - {last}, fewer, n - 1);
    }
  }

  /** Over one period from any state every 32-bit value comes out exactly 2^32 times. */
  lemma EquallyOften(x: nat, inc: nat, out: nat)
    requires x < U64_LIMIT && inc % 2 == 1 && out < U32_LIMIT
    ensures |DrawsOf(x, inc, out)| == U32_LIMIT
  {
    hide Pow2, Shr, Mix, Output, Rest, Iterate;
    Pow2At31();
    Pow2At64();
    var s := DrawsOf(x, inc, out);
    var number := map n | n in s :: Rest(Iterate(x, inc, n));
    forall n | n in s
      ensures number[n] < U32_LIMIT
    {
      IterateBound(x, inc, n);
      RestBound(Iterate(x, inc, n));
    }
    forall i, j | i in s && j in s && number[i] == number[j]
      ensures i == j
    {
      IterateBound(x, inc, i);
      IterateBound(x, inc, j);
      RestInjective(Iterate(x, inc, i), Iterate(x, inc, j));
      OnlyOnce(x, inc, i, j);
    }
    forall k: nat | k < U32_LIMIT
      ensures k in number.Values
    {
      var m := RestOccurs(x, inc, out, k);
      assert m in s && number[m] == k;
    }
    Numbered(s, number, U32_LIMIT);
  }

  lemma IterateBound(x: nat, inc: nat, n: nat)
    requires x < U64_LIMIT
    ensures Iterate(x, inc, n) < U64_LIMIT
  {
  }

  lemma RestOccurs(x: nat, inc: nat, out: nat, k: nat) returns (n: nat)
    requires x < U64_LIMIT && inc % 2 == 1 && out < U32_LIMIT && k < U32_LIMIT
    ensures n < U64_LIMIT && Pow2(64) == U64_LIMIT
    ensures var s := Iterate(x, inc, n);
      s < U64_LIMIT && Output(s) == out && Rest(s) == k
  {
    hide Pow2, Shr, Mix, Output, Iterate;
    Pow2At31();
    PowFive();
    SplitAt(k, 5, 27);
    n := EveryOutputOccurs(x, inc, k / Pow2(27), out, k % Pow2(27));
  }

  // ---------------------------------------------------------------- the output, bit by bit

  /** The number with these bits, the lowest first. */
  function FromBits(bs: seq<bool>): nat {
    if bs == [] then 0 else (if bs[0] then 1 else 0) + 2 * FromBits(bs[1..])
  }

  lemma {:induction false} FromBitsBound(bs: seq<bool>)
    ensures FromBits(bs) < Pow2(|bs|)
  {
    if bs != [] {
      FromBitsBound(bs[1..]);
    }
  }

  lemma {:induction false} FromBitsSplit(bs: seq<bool>, k: nat)
    requires k <= |bs|
    ensures FromBits(bs) == FromBits(bs[k..]) * Pow2(k) + FromBits(bs[..k])
    decreases k
  {
    if k == 0 {
      assert bs[0..] == bs && bs[..0] == [];
    } else {
      var rest := bs[1..];
      FromBitsSplit(rest, k - 1);
      assert rest[k - 1..] == bs[k..] && rest[..k - 1] == bs[..k][1..] && bs[..k][0] == bs[0];
      TwiceProduct(FromBits(bs[k..]), Pow2(k - 1), Pow2(k));
    }
  }

  lemma TwiceProduct(x: nat, p: nat, q: nat)
    requires q == 2 * p
    ensures x * q == 2 * (x * p)
  {
  }

  /** Shifting right drops the lowest bits, the remainder keeps them. */
  lemma ShiftBits(bs: seq<bool>, k: nat)
    requires k <= |bs|
    ensures Shr(FromBits(bs), k) == FromBits(bs[k..]) && FromBits(bs) % Pow2(k) == FromBits(bs[..k])
  {
    hide FromBits, Shr, Pow2;
    FromBitsSplit(bs, k);
    FromBitsBound(bs[..k]);
    ShrIsDivision(FromBits(bs), k);
    DivisionIs(FromBits(bs), Pow2(k), FromBits(bs[k..]), FromBits(bs[..k]));
  }

  function Different(a: seq<bool>, b: seq<bool>): (r: seq<bool>)
    requires |a| == |b|
    ensures |r| == |a| && forall i :: 0 <= i < |a| ==> (r[i] <==> a[i] != b[i])
  {
    seq(|a|, i requires 0 <= i < |a| => a[i] != b[i])
  }

  /** The exclusive or has the bits in which its operands differ. */
  lemma {:induction false} XorBits(a: seq<bool>, b: seq<bool>)
    requires |a| == |b|
    ensures Xor(FromBits(a), FromBits(b)) == FromBits(Different(a, b))
  {
    if a != [] {
      XorBits(a[1..], b[1..]);
      assert Different(a, b)[1..] == Different(a[1..], b[1..]);
      BitAndRest(FromBits(a), a[0], FromBits(a[1..]));
      BitAndRest(FromBits(b), b[0], FromBits(b[1..]));
      hide Xor;
      XorParts(FromBits(a), FromBits(b));
    }
  }

  lemma BitAndRest(x: nat, bit: bool, rest: nat)
    requires x == (if bit then 1 else 0) + 2 * rest
    ensures x / 2 == rest && Parity(x) == (if bit then 1 else 0)
    ensures forall y: nat :: Parity(x + y) == if bit then 1 - Parity(y) else Parity(y)
  {
  }

  lemma {:induction false} ZeroBits(bs: seq<bool>, k: nat)
    ensures FromBits(bs + seq(k, _ => false)) == FromBits(bs)
    decreases |bs| + k
  {
    var all := bs + seq(k, _ => false);
    if bs != [] {
      ZeroBits(bs[1..], k);
      assert all[1..] == bs[1..] + seq(k, _ => false);
    } else if k != 0 {
      ZeroBits([], k - 1);
      assert all[1..] == [] + seq(k - 1, _ => false);
    }
  }

  /** Rotating right by `n` moves the lowest `n` bits to the top. */
  lemma RotateBits(bs: seq<bool>, n: nat)
    requires |bs| == 32 && n < 32
    ensures RotateRight32(FromBits(bs), n) == FromBits(bs[n..] + bs[..n])
  {
    hide FromBits, RotateRight32, Pow2;
    var hi, lo := bs[n..], bs[..n];
    FromBitsSplit(bs, n);
    FromBitsBound(hi);
    FromBitsBound(lo);
    RotateExchanges(FromBits(bs), FromBits(hi), FromBits(lo), n);
    FromBitsSplit(hi + lo, 32 - n);
    assert (hi + lo)[..32 - n] == hi && (hi + lo)[32 - n..] == lo;
  }

  /** The bits behind the xor-shift: each is compared with the one 18 places up. */
  function Mixed(bs: seq<bool>): (y: seq<bool>)
    requires |bs| == 64
    ensures |y| == 64 && forall i :: 0 <= i < 64 ==> (y[i] <==> bs[i] != (i < 46 && bs[i + 18]))
  {
    Different(bs, bs[18..] + seq(18, _ => false))
  }

  /**
    The output function in terms of bits: of the state xor-shifted by 18, the bits 27 to 58, rotated right
    by the number that the bits 59 to 63 of the state make.
   */
  lemma OutputBits(bs: seq<bool>)
    requires |bs| == 64
    ensures FromBits(bs) < Pow2(64) && FromBits(bs[59..]) < 32
    ensures var n, y := FromBits(bs[59..]), Mixed(bs);
      Output(FromBits(bs)) == FromBits(y[27 + n..59] + y[27..27 + n])
  {
    hide FromBits, Xor, Shr, RotateRight32, Pow2, Different;
    var x, n, y := FromBits(bs), FromBits(bs[59..]), Mixed(bs);
    FromBitsBound(bs);
    FromBitsBound(bs[59..]);
    PowFive();
    ShiftBits(bs, 18);
    ShiftBits(bs, 59);
    ZeroBits(bs[18..], 18);
    XorBits(bs, bs[18..] + seq(18, _ => false));
    ShiftBits(y, 27);
    ShiftBits(y[27..], 32);
    U32IsPower(Shr(Mix(x), 27));
    var word := y[27..][..32];
    RotateBits(word, n);
    assert word[n..] == y[27 + n..59] && word[..n] == y[27..27 + n];
  }

  // ---------------------------------------------------------------- the generator

  /** `(aSeed[1] << 1) | 1` on 64 bits: shifting in a zero leaves room for the one. */
  function OddIncrement(seed: nat): (r: nat)
    ensures r % 2 == 1 && r / 2 == seed % 0x8000_0000_0000_0000 && r < U64_LIMIT
  {
    2 * seed % U64_LIMIT + 1
  }

  /** Two seeds select the same stream if and only if they agree modulo 2^63. */
  lemma SameIncrementIff(seed: nat, other: nat)
    ensures OddIncrement(seed) == OddIncrement(other) <==>
            seed % 0x8000_0000_0000_0000 == other % 0x8000_0000_0000_0000
  {
  }

  class CPrng {
    var seeded: bool
    var state: nat
    var increment: nat

    ghost predicate Valid()
      reads this
    {
      seeded ==> state < U64_LIMIT && increment < U64_LIMIT && increment % 2 == 1
    }

    constructor ()
      ensures Valid() && !seeded
    {
      seeded := false;
    }

    /** Makes the increment odd, which the period rests on, and takes one step. */
    method Seed(seed0: nat, seed1: nat)
      requires seed0 < U64_LIMIT && seed1 < U64_LIMIT
      modifies this
      ensures Valid() && seeded
      ensures increment % 2 == 1 && increment / 2 == seed1 % 0x8000_0000_0000_0000
      ensures state == ((seed0 + increment) % 0x1_0000_0000_0000_0000 * 6364136223846793005 + increment)
                       % 0x1_0000_0000_0000_0000
    {
      hide Output, Pow2, OddIncrement;
      seeded := true;
      increment := OddIncrement(seed1);
      state := (seed0 + increment) % U64_LIMIT;
      var _ := RandomBits();
    }

    method RandomBits() returns (r: nat)
      requires Valid() && seeded
      modifies this`state
      ensures Valid() && Pow2(64) == U64_LIMIT
      ensures r == Output(old(state)) && r < U32_LIMIT
      ensures state == Next(old(state), increment)
      ensures state == (old(state) * 6364136223846793005 + increment) % 0x1_0000_0000_0000_0000
    {
      hide Xor, Or, Pow2, Shr, RotateRight32;
      Pow2At31();
      Pow2At64();
      MixKeeps(state);
      StateFromOutput(state);
      UnpackedFields(state);
      var x := state;
      var count := Shr(x, 59);
      state := (x * MULTIPLIER + increment) % U64_LIMIT;
      x := Xor(x, Shr(x, 18));
      r := RotateRight32(U32(Shr(x, 27)), count);
    }
  }

  /** What a seeded generator yields from now on: the outputs of the iterated states. */
  method Draw(g: CPrng, n: nat) returns (rs: seq<nat>)
    requires g.Valid() && g.seeded
    modifies g`state
    ensures g.Valid() && g.state == Iterate(old(g.state), g.increment, n)
    ensures |rs| == n && Pow2(64) == U64_LIMIT
    ensures forall i :: 0 <= i < n ==>
              var s := Iterate(old(g.state), g.increment, i);
              s < U64_LIMIT && rs[i] == Output(s)
  {
    hide Output, Next, Pow2;
    Pow2At64();
    rs := [];
    for i := 0 to n
      invariant g.Valid() && g.state == Iterate(old(g.state), g.increment, i)
      invariant |rs| == i
      invariant forall k :: 0 <= k < i ==>
                  var s := Iterate(old(g.state), g.increment, k);
                  s < U64_LIMIT && rs[k] == Output(s)
    {
      var r := g.RandomBits();
      rs := rs + [r];
    }
  }
}
