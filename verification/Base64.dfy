/**
  Base64 as in section 4 of RFC 4648: the streaming encoder and the checking decoder, proved to
  be inverse to each other on exactly the canonical encodings of section 3.5.
 */
module Base64 {
  import opened Bytes
  import opened Powers

  // ---------------------------------------------------------------- the format

  /** Table 1 of RFC 4648. */
  function Digit(v: nat): char
    requires v < 64
  {
    if v < 26 then ('A' as int + v) as char
    else if v < 52 then ('a' as int + (v - 26)) as char
    else if v < 62 then ('0' as int + (v - 52)) as char
    else if v == 62 then '+'
    else '/'
  }

  /** The four characters for up to three bytes; missing bytes count as zero bits. */
  function Quad(b: seq<byte>): (q: string)
    requires 1 <= |b| <= 3
    ensures |q| == 4
  {
    var b1: int := if |b| < 2 then 0 else b[1];
    var b2: int := if |b| < 3 then 0 else b[2];
    [Digit(b[0] / 4),
     Digit(b[0] % 4 * 16 + b1 / 16),
     if |b| < 2 then '=' else Digit(b1 % 16 * 4 + b2 / 64),
     if |b| < 3 then '=' else Digit(b2 % 64)]
  }

  /** Group `g` of the data: three bytes, fewer at the end. */
  function Group(data: seq<byte>, g: nat): (b: seq<byte>)
    requires 3 * g < |data|
    ensures 1 <= |b| <= 3
  {
    data[3 * g..Least(|data|, 3 * g + 3)]
  }

  function EncodedLength(n: nat): nat {
    (n + 2) / 3 * 4
  }

  /** Character `k` of the encoding. */
  function CharAt(data: seq<byte>, k: nat): char
    requires k < EncodedLength(|data|)
  {
    Quad(Group(data, k / 4))[k % 4]
  }

  function Encode(data: seq<byte>): (t: string)
    ensures |t| == EncodedLength(|data|)
  {
    seq(EncodedLength(|data|), k requires 0 <= k < EncodedLength(|data|) => CharAt(data, k))
  }

  // ---------------------------------------------------------------- digits

  function DigitValue(digit: char): (v: int)
    ensures -1 <= v < 64
  {
    if 'A' <= digit <= 'Z' then digit as int - 'A' as int
    else if 'a' <= digit <= 'z' then digit as int - 'a' as int + 26
    else if '0' <= digit <= '9' then digit as int - '0' as int + 52
    else if digit == '+' then 62
    else if digit == '/' then 63
    else -1
  }

  /** The table and its inverse. */
  lemma DigitInverse(v: nat, c: char)
    requires v < 64
    ensures DigitValue(Digit(v)) == v && Digit(v) != '='
    ensures DigitValue(c) != -1 ==> Digit(DigitValue(c)) == c
  {
  }

  /** The order of the alphabet. */
  lemma AlphabetInOrder(v: nat)
    requires v < 63
    ensures Digit(0) == 'A' && Digit(26) == 'a' && Digit(52) == '0' && Digit(62) == '+' && Digit(63) == '/'
    ensures v !in {25, 51, 61, 62} ==> Digit(v + 1) as int == Digit(v) as int + 1
    ensures Digit(25) == 'Z' && Digit(51) == 'z' && Digit(61) == '9'
  {
  }

  // ---------------------------------------------------------------- quads

  /** The four digit values of a quad, '=' read as 'A' where the decoder does so. */
  function ValueAt(q: string, k: nat, last: bool): int
    requires |q| == 4 && k < 4
  {
    if last && q[3] == '=' && (k == 3 || (k == 2 && q[2] == '=')) then 0 else DigitValue(q[k])
  }

  /** How many bytes a quad stands for. */
  function Count(q: string, last: bool): nat
    requires |q| == 4
  {
    if last && q[3] == '=' then if q[2] == '=' then 1 else 2 else 3
  }

  predicate AllDigits(q: string, last: bool)
    requires |q| == 4
  {
    forall k :: 0 <= k < 4 ==> ValueAt(q, k, last) != -1
  }

  /** The three bytes a quad of digits spells, padding bits included. */
  function Spelled(q: string, last: bool): (b: seq<byte>)
    requires |q| == 4 && AllDigits(q, last)
    ensures |b| == 3
  {
    var d0, d1, d2, d3 := ValueAt(q, 0, last), ValueAt(q, 1, last), ValueAt(q, 2, last), ValueAt(q, 3, last);
    [d0 * 4 + d1 / 16, d1 % 16 * 16 + d2 / 4, d2 % 4 * 64 + d3]
  }

  /** Only digits, and nothing but zero bits where there is padding. */
  predicate Canonical(q: string, last: bool)
    requires |q| == 4
  {
    AllDigits(q, last) && forall b :: Count(q, last) <= b < 3 ==> Spelled(q, last)[b] == 0
  }

  /** The digits of a quad make the number, in base 64, that its bytes make in base 256, missing bytes being zero. */
  lemma QuadIsNumber(b: seq<byte>)
    requires 1 <= |b| <= 3
    ensures var q := Quad(b);
      var b1: int, b2: int := if |b| < 2 then 0 else b[1], if |b| < 3 then 0 else b[2];
      var d2, d3 := if |b| < 2 then 0 else DigitValue(q[2]), if |b| < 3 then 0 else DigitValue(q[3]);
      && ((DigitValue(q[0]) * 64 + DigitValue(q[1])) * 64 + d2) * 64 + d3 == (b[0] * 256 + b1) * 256 + b2
      && (q[2] == '=' <==> |b| < 2) && (q[3] == '=' <==> |b| < 3)
  {
    hide Digit, DigitValue;
    var b1: int, b2: int := if |b| < 2 then 0 else b[1], if |b| < 3 then 0 else b[2];
    DigitInverse(b[0] / 4, 'A');
    DigitInverse(b[0] % 4 * 16 + b1 / 16, 'A');
    DigitInverse(b1 % 16 * 4 + b2 / 64, 'A');
    DigitInverse(b2 % 64, 'A');
  }

  lemma QuadOfSpelled(q: string, last: bool)
    requires |q| == 4 && Canonical(q, last)
    ensures Quad(Spelled(q, last)[..Count(q, last)]) == q
  {
    var b := Spelled(q, last);
    var d0, d1, d2, d3 := ValueAt(q, 0, last), ValueAt(q, 1, last), ValueAt(q, 2, last), ValueAt(q, 3, last);
    assert b[0] / 4 == d0 && b[0] % 4 == d1 / 16;
    assert b[1] / 16 == d1 % 16 && b[1] % 16 == d2 / 4;
    assert b[2] / 64 == d2 % 4 && b[2] % 64 == d3;
    DigitInverse(0, q[0]);
    DigitInverse(0, q[1]);
    DigitInverse(0, q[2]);
    DigitInverse(0, q[3]);
  }

  lemma ValuesOfQuad(b: seq<byte>, last: bool)
    requires 1 <= |b| <= 3 && (|b| == 3 || last)
    ensures var q := Quad(b); var b1: int := if |b| < 2 then 0 else b[1]; var b2: int := if |b| < 3 then 0 else b[2];
            && ValueAt(q, 0, last) == b[0] / 4 && ValueAt(q, 1, last) == b[0] % 4 * 16 + b1 / 16
            && ValueAt(q, 2, last) == b1 % 16 * 4 + b2 / 64 && ValueAt(q, 3, last) == b2 % 64
            && Count(q, last) == |b|
  {
    hide Digit, DigitValue, Quad;
    QuadDigits(b);
  }

  /** Four digits hold 24 bits. */
  lemma Reassemble(b0: byte, b1: byte, b2: byte)
    ensures var d1, d2 := b0 % 4 * 16 + b1 / 16, b1 % 16 * 4 + b2 / 64;
            b0 / 4 * 4 + d1 / 16 == b0 && d1 % 16 * 16 + d2 / 4 == b1 && d2 % 4 * 64 + b2 % 64 == b2
  {
    DivisionIs(b0 % 4 * 16 + b1 / 16, 16, b0 % 4, b1 / 16);
    DivisionIs(b1 % 16 * 4 + b2 / 64, 4, b1 % 16, b2 / 64);
  }

  lemma SpelledOfQuad(b: seq<byte>, last: bool)
    requires 1 <= |b| <= 3 && (|b| == 3 || last)
    ensures Count(Quad(b), last) == |b|
    ensures Canonical(Quad(b), last) && Spelled(Quad(b), last)[..|b|] == b
  {
    hide Quad, ValueAt, Count;
    ValuesOfQuad(b, last);
    var b1: byte := if |b| < 2 then 0 else b[1];
    var b2: byte := if |b| < 3 then 0 else b[2];
    Reassemble(b[0], b1, b2);
    assert Spelled(Quad(b), last) == [b[0], b1, b2];
  }

  lemma QuadDigits(b: seq<byte>)
    requires 1 <= |b| <= 3
    ensures var q := Quad(b); var b1: int := if |b| < 2 then 0 else b[1]; var b2: int := if |b| < 3 then 0 else b[2];
            && DigitValue(q[0]) == b[0] / 4 && DigitValue(q[1]) == b[0] % 4 * 16 + b1 / 16
            && (if |b| < 2 then q[2] == '=' && b1 == 0 else q[2] != '=' && DigitValue(q[2]) == b1 % 16 * 4 + b2 / 64)
            && (if |b| < 3 then q[3] == '=' && b2 == 0 else q[3] != '=' && DigitValue(q[3]) == b2 % 64)
  {
    hide Digit, DigitValue;
    var b1: int := if |b| < 2 then 0 else b[1];
    var b2: int := if |b| < 3 then 0 else b[2];
    DigitInverse(b[0] / 4, '=');
    DigitInverse(b[0] % 4 * 16 + b1 / 16, '=');
    DigitInverse(b1 % 16 * 4 + b2 / 64, '=');
    DigitInverse(b2 % 64, '=');
  }

  // ---------------------------------------------------------------- whole texts

  /** Quad `g` of a text. */
  function QuadAt(t: string, g: nat): (q: string)
    requires 4 * g + 4 <= |t|
    ensures |q| == 4
  {
    t[4 * g..4 * g + 4]
  }

  lemma QuadOfEncode(data: seq<byte>, g: nat)
    requires 3 * g < |data|
    ensures 4 * g + 4 <= |Encode(data)|
    ensures QuadAt(Encode(data), g) == Quad(Group(data, g))
  {
    hide Quad, Group;
    var q := QuadAt(Encode(data), g);
    forall k | 0 <= k < 4
      ensures q[k] == Quad(Group(data, g))[k]
    {
      assert q[k] == Encode(data)[4 * g + k] == CharAt(data, 4 * g + k);
    }
  }

  /** A text is the encoding of the data exactly when their quads agree. */
  lemma IsEncode(data: seq<byte>, t: string)
    requires |t| == EncodedLength(|data|)
    requires forall g :: 0 <= g && 3 * g < |data| ==> QuadAt(t, g) == Quad(Group(data, g))
    ensures Encode(data) == t
  {
    hide Quad, Group, QuadAt;
    forall k | 0 <= k < |t|
      ensures CharAt(data, k) == t[k]
    {
      InQuad(t, |data|, k);
    }
  }

  lemma InQuad(t: string, n: nat, k: nat)
    requires k < |t| == EncodedLength(n)
    ensures 3 * (k / 4) < n && 4 * (k / 4) + 4 <= |t| && QuadAt(t, k / 4)[k % 4] == t[k]
  {
  }

  /** Two byte strings with the same encoding are the same. */
  lemma EncodeInjective(a: seq<byte>, b: seq<byte>)
    requires Encode(a) == Encode(b)
    ensures a == b
  {
    hide Quad, Group, Encode, Spelled, QuadAt;
    forall g: nat | 3 * g < |a| && 3 * g < |b|
      ensures Group(a, g) == Group(b, g)
    {
      QuadOfEncode(a, g);
      QuadOfEncode(b, g);
      SpelledOfQuad(Group(a, g), true);
      SpelledOfQuad(Group(b, g), true);
    }
    if a != [] && b != [] {
      SameLength(a, b, (|a| - 1) / 3);
    }
    SameGroups(a, b);
  }

  lemma SameLength(a: seq<byte>, b: seq<byte>, g: nat)
    requires 3 * g < |a| <= 3 * g + 3 && EncodedLength(|a|) == EncodedLength(|b|)
    requires 3 * g < |b| ==> Group(a, g) == Group(b, g)
    ensures |a| == |b|
  {
  }

  lemma SameGroups(a: seq<byte>, b: seq<byte>)
    requires |a| == |b|
    requires forall g: nat :: 3 * g < |a| ==> Group(a, g) == Group(b, g)
    ensures a == b
  {
    forall i | 0 <= i < |a|
      ensures a[i] == b[i]
    {
      assert Group(a, i / 3)[i % 3] == a[i];
      assert Group(b, i / 3)[i % 3] == b[i];
    }
  }

  // ---------------------------------------------------------------- the encoder

  /** Shifts of a 32-bit `unsigned`. */
  function Shl(v: nat, k: nat): (r: int) {
    v * Pow2(k) % 0x1_0000_0000
  }

  function Shr(v: nat, k: nat): (r: int) {
    v / Pow2(k)
  }

  /** `(value << 8) | d`: the low eight bits are free for the new byte. */
  function Load(value: nat, d: byte): (v: int) {
    Shl(value, 8) + d
  }

  /** The six bits the encoder writes next. */
  function Padded(value: nat, numBits: int): (p: int)
    requires 0 < numBits
  {
    (if numBits >= 6 then Shr(value, numBits - 6) else Shl(value, 6 - numBits)) % 64
  }

  lemma SmallPowers()
    ensures Pow2(0) == 1 && Pow2(2) == 4 && Pow2(4) == 16 && Pow2(6) == 64 && Pow2(8) == 256
  {
    assert Pow2(3) == 8 && Pow2(5) == 32 && Pow2(7) == 128;
  }

  /** Reducing modulo a multiple of `d` keeps the remainder by `d`. */
  lemma ModOfMod(v: nat, d: nat, e: nat)
    requires 0 < d && 0 < e
    ensures 0 < d * e && v % (d * e) % d == v % d
  {
    MultipleAtLeast(d, e);
    var q, r := v / (d * e), v % (d * e);
    assert v == d * e * q + r && r == d * (r / d) + r % d;
    assert d * e * q == d * (e * q) && d * (e * q) + d * (r / d) == d * (e * q + r / d);
    DivisionIs(v, d, e * q + r / d, r % d);
  }

  /** Shifting left before wrapping loses only high bits. */
  lemma TimesMod(v: nat, d: nat, m: nat)
    requires 0 < d && 0 < m
    ensures 0 < d * m && v * d % (d * m) == v % m * d
  {
    MultipleAtLeast(d, m);
    var q, r := v / m, v % m;
    assert v == m * q + r;
    assert v * d == d * m * q + r * d;
    assert r * d < m * d by { MulMonotone(d, r, m - 1); }
    assert 0 <= r * d by { MulMonotone(d, 0, r); }
    DivisionIs(v * d, d * m, q, r * d);
  }

  lemma WrappedByte(v: nat)
    ensures var w := v * 256 % 0x1_0000_0000; w == v % 0x100_0000 * 256
    ensures v % 0x100_0000 % 4 == v % 4 && v % 0x100_0000 % 16 == v % 16
  {
    TimesMod(v, 256, 0x100_0000);
    ModOfMod(v, 4, 0x40_0000);
    ModOfMod(v, 16, 0x10_0000);
  }

  lemma WrappedRest(v: nat)
    ensures v * 16 % 0x1_0000_0000 % 64 == v % 4 * 16
    ensures v * 4 % 0x1_0000_0000 % 64 == v % 16 * 4
  {
    ModOfMod(v * 16, 64, 0x400_0000);
    TimesMod(v, 16, 4);
    ModOfMod(v * 4, 64, 0x400_0000);
    TimesMod(v, 4, 16);
  }

  lemma SixBits(w: int, m: nat, a: int, mid: int, low: int)
    requires 0 < m && w == m * (64 * a + mid) + low && 0 <= low < m && 0 <= mid < 64
    ensures w / m % 64 == mid && w % m == low
  {
    DivisionIs(w, m, 64 * a + mid, low);
    DivisionIs(64 * a + mid, 64, a, mid);
  }

  /** The six-bit windows of a register holding `x` above the byte `d`. */
  lemma Windows(x: nat, d: byte)
    ensures var w := 256 * x + d;
            && w % 4 == d % 4 && w % 16 == d % 16 && w % 64 == d % 64
            && w / 4 % 64 == d / 4 && w / 16 % 64 == x % 4 * 16 + d / 16 && w / 64 % 64 == x % 16 * 4 + d / 64
  {
    var w := 256 * x + d;
    SixBits(w, 4, x, d / 4, d % 4);
    SixBits(w, 16, x / 4, x % 4 * 16 + d / 16, d % 16);
    SixBits(w, 64, x / 16, x % 16 * 4 + d / 64, d % 64);
  }

  /** What six bits come out of the register, by the number of bits left over before a byte is loaded. */
  lemma LoadedBits(v: nat, d: byte)
    ensures Load(v, d) >= 0 && Load(v, d) % 4 == d % 4 && Load(v, d) % 16 == d % 16 && Load(v, d) % 64 == d % 64
    ensures Padded(Load(v, d), 8) == d / 4
    ensures Padded(Load(v, d), 10) == v % 4 * 16 + d / 16
    ensures Padded(Load(v, d), 12) == v % 16 * 4 + d / 64
  {
    SmallPowers();
    hide Pow2;
    WrappedByte(v);
    Windows(v % 0x100_0000, d);
  }

  lemma KeptBits(v: nat)
    ensures Padded(v, 6) == v % 64 && Padded(v, 2) == v % 4 * 16 && Padded(v, 4) == v % 16 * 4
  {
    SmallPowers();
    hide Pow2;
    WrappedRest(v);
  }

  /** How many bytes have been read when `o` characters are out. */
  function Taken(n: nat, o: nat): nat {
    Least(n, 3 * (o / 4) + o % 4)
  }

  /** The low `2 * r` bits of `v` are those of `d`. */
  predicate LowBits(v: nat, d: byte, r: nat) {
    match r
    case 1 => v % 4 == d % 4
    case 2 => v % 16 == d % 16
    case 3 => v % 64 == d % 64
    case _ => true
  }

  /**
    The streaming state: as long as there is data the bits in `value` not yet written are the low
    bits of the byte read last; behind the data only padding is left.
   */
  predicate Streaming(data: seq<byte>, value: nat, numBits: int, i: int, o: int) {
    && 0 <= o <= EncodedLength(|data|)
    && i == Taken(|data|, o)
    && if 3 * (o / 4) + o % 4 <= |data|
       then numBits == 2 * (o % 4) && (o % 4 != 0 ==> LowBits(value, data[i - 1], o % 4))
       else numBits <= 0
  }

  /** A byte is loaded and six bits written. */
  lemma LoadAndWrite(data: seq<byte>, value: nat, numBits: int, i: nat, o: nat)
    requires Streaming(data, value, numBits, i, o) && i < |data| && numBits < 6
    ensures numBits >= 0 && o < EncodedLength(|data|)
    ensures var v := Load(value, data[i]);
            && 0 <= v && 0 <= Padded(v, numBits + 8) < 64 && Digit(Padded(v, numBits + 8)) == CharAt(data, o)
            && Streaming(data, v, numBits + 2, i + 1, o + 1)
  {
    hide Digit, Load, Padded;
    LoadedBits(value, data[i]);
    GroupBytes(data, o / 4);
    assert (o + 1) / 4 == o / 4 && (o + 1) % 4 == o % 4 + 1;
  }

  lemma GroupBytes(data: seq<byte>, g: nat)
    requires 3 * g < |data|
    ensures var b := Group(data, g);
      |b| == Least(3, |data| - 3 * g) && forall k :: 0 <= k < |b| ==> b[k] == data[3 * g + k]
  {
  }

  /** No byte is loaded, but there are bits to write: the last six of a group or the last of the data. */
  lemma WriteRest(data: seq<byte>, value: nat, numBits: int, i: nat, o: nat)
    requires Streaming(data, value, numBits, i, o) && !(numBits < 6 && i < |data|) && 0 < numBits
    ensures o < EncodedLength(|data|)
    ensures 0 <= Padded(value, numBits) < 64 && Digit(Padded(value, numBits)) == CharAt(data, o)
    ensures Streaming(data, value, numBits - 6, i, o + 1)
  {
    hide Digit, Padded;
    KeptBits(value);
    GroupBytes(data, o / 4);
    assert o % 4 == 3 ==> (o + 1) / 4 == o / 4 + 1 && (o + 1) % 4 == 0;
    assert o % 4 < 3 ==> (o + 1) / 4 == o / 4 && (o + 1) % 4 == o % 4 + 1;
  }

  /** No bits left: padding up to a multiple of four, then the end. */
  lemma WritePadding(data: seq<byte>, value: nat, numBits: int, i: nat, o: nat)
    requires Streaming(data, value, numBits, i, o) && !(numBits < 6 && i < |data|) && numBits <= 0
    ensures o % 4 == 0 ==> o == EncodedLength(|data|)
    ensures o % 4 != 0 ==>
      o < EncodedLength(|data|) && CharAt(data, o) == '=' && Streaming(data, value, numBits, i, o + 1)
  {
    hide Digit;
    if o % 4 != 0 {
      GroupBytes(data, o / 4);
    }
  }

  /** `str_base64`: as much of the encoding as fits, terminated. */
  method StrBase64(dst: array<char>, dstSize: nat, data: seq<byte>) returns (ghost n: nat)
    requires 1 <= dstSize <= dst.Length
    modifies dst
    ensures n == Least(EncodedLength(|data|), dstSize - 1)
    ensures dst[..n] == Encode(data)[..n] && dst[n] == '\0'
    ensures forall k :: n < k < dst.Length && k != dstSize - 1 ==> dst[k] == old(dst[k])
  {
    hide CharAt, Digit, Load, Padded, Streaming;
    var value, numBits, i, o := 0, 0, 0, 0;
    var size := dstSize - 1;
    dst[size] := '\0';
    StreamingStarts(data);
    while true
      invariant 0 <= value && 0 <= i <= |data| && 0 <= o <= size && o <= EncodedLength(|data|)
      invariant Streaming(data, value, numBits, i, o)
      invariant dst[size] == '\0'
      invariant forall k :: 0 <= k < o ==> dst[k] == CharAt(data, k)
      invariant forall k :: o <= k < dst.Length && k != size ==> dst[k] == old(dst[k])
      decreases size - o
    {
      if numBits < 6 && i < |data| {
        LoadAndWrite(data, value, numBits, i, o);
        value := Load(value, data[i]);
        numBits := numBits + 8;
        i := i + 1;
      } else if 0 < numBits {
        WriteRest(data, value, numBits, i, o);
      } else {
        WritePadding(data, value, numBits, i, o);
      }
      if o == size {
        n := o;
        return;
      }
      if numBits > 0 {
        dst[o] := Digit(Padded(value, numBits));
        numBits := numBits - 6;
        o := o + 1;
      } else if o % 4 != 0 {
        dst[o] := '=';
        o := o + 1;
      } else {
        dst[o] := '\0';
        n := o;
        return;
      }
    }
  }

  lemma StreamingStarts(data: seq<byte>)
    ensures Streaming(data, 0, 0, 0, 0)
  {
  }

  // ---------------------------------------------------------------- the decoder

  /** Quad `g` is the first bad one: error -1 for a character that is no digit, -2 for padding bits that are set. */
  predicate RefusedAt(text: string, g: nat, error: int) {
    && |text| % 4 == 0 && 4 * g < |text|
    && (forall h :: 0 <= h < g ==> Canonical(QuadAt(text, h), false))
    && !Canonical(QuadAt(text, g), 4 * g == |text| - 4)
    && error == if AllDigits(QuadAt(text, g), 4 * g == |text| - 4) then -2 else -1
  }

  function Combine(d: seq<int>): int
    requires |d| == 4
  {
    d[0] * 0x40000 + d[1] * 0x1000 + d[2] * 0x40 + d[3]
  }

  /** `(value >> (16 - 8 * b)) & 0xff` */
  function ByteOf(value: nat, b: nat): (r: byte)
    requires b < 3
  {
    value / Pow2(16 - 8 * b) % 256
  }

  lemma BytesOfValue(q: string, last: bool, d: seq<int>)
    requires |q| == 4 && AllDigits(q, last)
    requires |d| == 4 && forall k :: 0 <= k < 4 ==> d[k] == ValueAt(q, k, last)
    ensures Combine(d) >= 0
    ensures forall b :: 0 <= b < 3 ==> ByteOf(Combine(d), b) == Spelled(q, last)[b]
  {
    hide ValueAt;
    SmallPowers();
    assert Pow2(16) == 65536 by { Pow2Adds(8, 8); }
    hide Pow2;
    var s: seq<int> := Spelled(q, last);
    var v := Combine(d);
    assert d[1] == 16 * (d[1] / 16) + d[1] % 16 && d[2] == 4 * (d[2] / 4) + d[2] % 4;
    assert v == 65536 * s[0] + 256 * s[1] + s[2];
    DivisionIs(v, 65536, s[0], 256 * s[1] + s[2]);
    DivisionIs(v, 256, 256 * s[0] + s[1], s[2]);
    DivisionIs(256 * s[0] + s[1], 256, s[0], s[1]);
    DivisionIs(s[0], 256, 0, s[0]);
    assert ByteOf(v, 0) == s[0] && ByteOf(v, 1) == s[1] && ByteOf(v, 2) == s[2];
  }

  /** The inner loop: the bytes of the group are stored, the rest has to be zero. */
  method StoreGroup(dst: array<byte>, o: nat, value: nat, count: nat) returns (ok: bool, o': nat)
    requires 1 <= count <= 3 && o + 3 <= dst.Length
    modifies dst
    ensures ok <==> forall b :: count <= b < 3 ==> ByteOf(value, b) == 0
    ensures ok ==> o' == o + count && forall b :: 0 <= b < count ==> dst[o + b] == ByteOf(value, b)
    ensures forall k :: 0 <= k < dst.Length && !(o <= k < o + 3) ==> dst[k] == old(dst[k])
  {
    hide ByteOf;
    o' := o;
    for b := 0 to 3
      invariant o' == o + Least(b, count)
      invariant forall c :: 0 <= c < Least(b, count) ==> dst[o + c] == ByteOf(value, c)
      invariant forall c :: count <= c < b ==> ByteOf(value, c) == 0
      invariant forall k :: 0 <= k < dst.Length && !(o <= k < o + 3) ==> dst[k] == old(dst[k])
    {
      if b < count {
        dst[o'] := ByteOf(value, b);
        o' := o' + 1;
      } else if ByteOf(value, b) != 0 {
        return false, o';
      }
    }
    ok := true;
  }

  /** One quad: the substitution of '=', the four digits, the bytes. */
  method DecodeGroup(dst: array<byte>, o: nat, copy: string, last: bool) returns (error: int, o': nat)
    requires |copy| == 4 && o + 3 <= dst.Length
    modifies dst
    ensures error == (if !AllDigits(copy, last) then -1 else if !Canonical(copy, last) then -2 else 0)
    ensures error == 0 ==> o' == o + Count(copy, last) && dst[o..o'] == Spelled(copy, last)[..Count(copy, last)]
    ensures forall k :: 0 <= k < dst.Length && !(o <= k < o + 3) ==> dst[k] == old(dst[k])
  {
    hide DigitValue, Spelled;
    var count := 3;
    var c2, c3 := copy[2], copy[3];
    if last {
      if c3 == '=' {
        c3 := 'A';
        count := 2;
        if c2 == '=' {
          c2 := 'A';
          count := 1;
        }
      }
    }
    var d := [DigitValue(copy[0]), DigitValue(copy[1]), DigitValue(c2), DigitValue(c3)];
    ValuesOfCopy(copy, last, c2, c3);
    if d[0] == -1 || d[1] == -1 || d[2] == -1 || d[3] == -1 {
      return -1, o;
    }
    BytesOfValue(copy, last, d);
    var ok;
    ok, o' := StoreGroup(dst, o, Combine(d), count);
    error := if ok then 0 else -2;
  }

  lemma ValuesOfCopy(copy: string, last: bool, c2: char, c3: char)
    requires |copy| == 4
    requires c3 == if last && copy[3] == '=' then 'A' else copy[3]
    requires c2 == if last && copy[3] == '=' && copy[2] == '=' then 'A' else copy[2]
    ensures ValueAt(copy, 0, last) == DigitValue(copy[0]) && ValueAt(copy, 1, last) == DigitValue(copy[1])
    ensures ValueAt(copy, 2, last) == DigitValue(c2) && ValueAt(copy, 3, last) == DigitValue(c3)
  {
  }

  /** A refused quad means that no bytes at all encode to the text. */
  lemma RefusedText(text: string, g: nat, error: int, data: seq<byte>)
    requires RefusedAt(text, g, error)
    ensures Encode(data) != text
  {
    hide Quad, Group, Encode, Canonical, QuadAt;
    if Encode(data) == text {
      GroupIsWhole(data, g);
      QuadOfEncode(data, g);
      SpelledOfQuad(Group(data, g), 4 * g == |text| - 4);
    }
  }

  lemma GroupIsWhole(data: seq<byte>, g: nat)
    requires 4 * g < EncodedLength(|data|)
    ensures 3 * g < |data|
    ensures 4 * g != EncodedLength(|data|) - 4 ==> |Group(data, g)| == 3
  {
  }

  /** The bytes decoded so far are exactly those whose encoding is the text up to group `g`. */
  predicate DecodedUpTo(text: string, g: nat, data: seq<byte>) {
    && 4 * g <= |text|
    && EncodedLength(|data|) == 4 * g
    && (4 * g < |text| ==> |data| == 3 * g)
    && forall h :: 0 <= h < g && 3 * h < |data| ==> QuadAt(text, h) == Quad(Group(data, h))
  }

  lemma DecodeNext(text: string, g: nat, data: seq<byte>)
    requires |text| % 4 == 0 && 4 * g < |text| && DecodedUpTo(text, g, data)
    requires var last := 4 * g == |text| - 4; Canonical(QuadAt(text, g), last)
    ensures var last := 4 * g == |text| - 4; var q := QuadAt(text, g);
            DecodedUpTo(text, g + 1, data + Spelled(q, last)[..Count(q, last)])
  {
    hide Quad, Spelled, QuadAt, AllDigits;
    var last := 4 * g == |text| - 4;
    var q := QuadAt(text, g);
    QuadOfSpelled(q, last);
    var b := Spelled(q, last)[..Count(q, last)];
    forall h | 0 <= h < g + 1 && 3 * h < |data + b|
      ensures QuadAt(text, h) == Quad(Group(data + b, h))
    {
      GroupOfConcat(data, b, h);
    }
  }

  lemma GroupOfConcat(data: seq<byte>, b: seq<byte>, h: nat)
    requires |data| % 3 == 0 && 1 <= |b| <= 3 && 3 * h <= |data|
    ensures Group(data + b, h) == if 3 * h < |data| then Group(data, h) else b
  {
  }

  /**
    `str_base64_decode`: a text is accepted, given room, exactly when it is the encoding of some
    bytes, and those are the bytes stored.
   */
  method StrBase64Decode(dst: array<byte>, dstSize: nat, text: string) returns (r: int)
    requires dstSize <= dst.Length
    modifies dst
    ensures |text| % 4 != 0 ==> r == -3
    ensures |text| % 4 == 0 && |text| / 4 * 3 > dstSize ==> r == -2
    ensures r >= 0 ==> r <= dstSize && Encode(dst[..r]) == text
    ensures r < 0 && |text| % 4 == 0 && |text| / 4 * 3 <= dstSize ==>
      (forall d :: Encode(d) != text) && exists g :: RefusedAt(text, g, r)
    ensures forall d :: Encode(d) == text && |text| / 4 * 3 <= dstSize ==> r == |d| && dst[..r] == d
    ensures forall k :: dstSize <= k < dst.Length ==> dst[k] == old(dst[k])
  {
    hide DecodedUpTo, Canonical, AllDigits, Spelled, Encode, RefusedAt;
    var i, o: nat := 0, 0;
    if |text| % 4 != 0 {
      return -3;
    }
    if |text| / 4 * 3 > dstSize {
      return -2;
    }
    DecodeStarts(text);
    while i < |text|
      invariant i % 4 == 0 && 0 <= i <= |text| && o <= dstSize && (i < |text| ==> o == i / 4 * 3)
      invariant DecodedUpTo(text, i / 4, dst[..o])
      invariant forall h :: 0 <= h < i / 4 && i < |text| ==> Canonical(QuadAt(text, h), false)
      invariant forall k :: dstSize <= k < dst.Length ==> dst[k] == old(dst[k])
    {
      ghost var g, was, start := i / 4, dst[..o], o;
      var last := i == |text| - 4;
      assert text[i..i + 4] == QuadAt(text, g);
      var error;
      error, o := DecodeGroup(dst, o, text[i..i + 4], last);
      if error != 0 {
        Refuse(text, g, error);
        return error;
      }
      assert dst[..start] == was;
      assert dst[..o] == was + Spelled(QuadAt(text, g), last)[..Count(QuadAt(text, g), last)];
      DecodeNext(text, g, was);
      i := i + 4;
    }
    r := o;
    DecodeEnds(text, dst[..o]);
  }

  lemma DecodeStarts(text: string)
    ensures DecodedUpTo(text, 0, [])
  {
  }

  lemma DecodeEnds(text: string, data: seq<byte>)
    requires |text| % 4 == 0 && DecodedUpTo(text, |text| / 4, data)
    ensures Encode(data) == text
    ensures forall d :: Encode(d) == text ==> d == data
  {
    hide Quad, Group, QuadAt, Encode;
    forall d | Encode(d) == text
      ensures Encode(data) == text ==> d == data
    {
      if Encode(data) == text {
        EncodeInjective(d, data);
      }
    }
    forall g | 0 <= g && 3 * g < |data|
      ensures QuadAt(text, g) == Quad(Group(data, g))
    {
      assert g < |text| / 4;
    }
    IsEncode(data, text);
  }

  lemma Refuse(text: string, g: nat, error: int)
    requires |text| % 4 == 0 && 4 * g < |text|
    requires forall h :: 0 <= h < g ==> Canonical(QuadAt(text, h), false)
    requires var last := 4 * g == |text| - 4; var q := QuadAt(text, g);
             error == (if !AllDigits(q, last) then -1 else if !Canonical(q, last) then -2 else 0) && error != 0
    ensures RefusedAt(text, g, error)
    ensures forall d :: Encode(d) != text
  {
    hide QuadAt, Encode;
    forall d
      ensures Encode(d) != text
    {
      RefusedText(text, g, error, d);
    }
  }
}
