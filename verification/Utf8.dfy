/**
  UTF-8: encoding and decoding of single code points, against the grammar of section 4 of
  RFC 3629. A C string is a sequence of bytes whose last byte is the terminator.
 */
module Utf8 {
  import opened Bytes
  import opened Powers

  // ---------------------------------------------------------------- the format

  predicate Scalar(c: int) {
    0 <= c <= 0x10FFFF && !(0xD800 <= c <= 0xDFFF)
  }

  predicate Tail(b: byte) {
    0x80 <= b <= 0xBF
  }

  /** UTF8-char of section 4 of RFC 3629. */
  predicate Utf8Char(t: seq<byte>) {
    match |t|
    case 1 => t[0] <= 0x7F
    case 2 => 0xC2 <= t[0] <= 0xDF && Tail(t[1])
    case 3 =>
      && Tail(t[2])
      && (|| (t[0] == 0xE0 && 0xA0 <= t[1] <= 0xBF)
          || (0xE1 <= t[0] <= 0xEC && Tail(t[1]))
          || (t[0] == 0xED && 0x80 <= t[1] <= 0x9F)
          || (0xEE <= t[0] <= 0xEF && Tail(t[1])))
    case 4 =>
      && Tail(t[2]) && Tail(t[3])
      && (|| (t[0] == 0xF0 && 0x90 <= t[1] <= 0xBF)
          || (0xF1 <= t[0] <= 0xF3 && Tail(t[1]))
          || (t[0] == 0xF4 && 0x80 <= t[1] <= 0x8F))
    case _ => false
  }

  /** The bytes `str_utf8_encode` produces; on the shifted and masked parts, `|` is addition. */
  function Encode(c: int): (t: seq<byte>)
    ensures |t| <= 4 && (c <= 0x10FFFF ==> 1 <= |t|)
  {
    if c <= 0x7F then [c % 256]
    else if c <= 0x7FF then [0xC0 + c / 64 % 32, 0x80 + c % 64]
    else if c <= 0xFFFF then [0xE0 + c / 4096 % 16, 0x80 + c / 64 % 64, 0x80 + c % 64]
    else if c <= 0x10FFFF then [0xF0 + c / 262144 % 8, 0x80 + c / 4096 % 64, 0x80 + c / 64 % 64, 0x80 + c % 64]
    else []
  }

  /** The number a well-formed sequence stands for. */
  function Value(t: seq<byte>): int {
    match |t|
    case 1 => t[0]
    case 2 => (t[0] as int - 0xC0) * 64 + (t[1] as int - 0x80)
    case 3 => (t[0] as int - 0xE0) * 4096 + (t[1] as int - 0x80) * 64 + (t[2] as int - 0x80)
    case 4 =>
      (t[0] as int - 0xF0) * 262144 + (t[1] as int - 0x80) * 4096 + (t[2] as int - 0x80) * 64 + (t[3] as int - 0x80)
    case _ => -1
  }

  lemma EncodeTwo(a: nat, b: nat)
    requires 2 <= a < 32 && b < 64
    ensures Encode(64 * a + b) == [0xC0 + a, 0x80 + b]
  {
    DivisionIs(64 * a + b, 64, a, b);
  }

  lemma EncodeThree(a: nat, b: nat, d: nat)
    requires a < 16 && b < 64 && d < 64 && 32 <= 64 * a + b
    ensures Encode(4096 * a + 64 * b + d) == [0xE0 + a, 0x80 + b, 0x80 + d]
  {
    var c := 4096 * a + 64 * b + d;
    DivisionIs(c, 64, 64 * a + b, d);
    DivisionIs(c, 4096, a, 64 * b + d);
    DivisionIs(64 * a + b, 64, a, b);
  }

  lemma EncodeFour(a: nat, b: nat, d: nat, e: nat)
    requires b < 64 && d < 64 && e < 64 && 16 <= 64 * a + b < 272
    ensures Encode(262144 * a + 4096 * b + 64 * d + e) == [0xF0 + a, 0x80 + b, 0x80 + d, 0x80 + e]
  {
    var c := 262144 * a + 4096 * b + 64 * d + e;
    DivisionIs(c, 64, 4096 * a + 64 * b + d, e);
    DivisionIs(c, 4096, 64 * a + b, 64 * d + e);
    DivisionIs(c, 262144, a, 4096 * b + 64 * d + e);
    DivisionIs(4096 * a + 64 * b + d, 64, 64 * a + b, d);
    DivisionIs(64 * a + b, 64, a, b);
  }

  /** A number below `64^n` by its base-64 digits. */
  lemma Digits(c: nat)
    ensures c == 64 * (c / 64) + c % 64
    ensures c == 4096 * (c / 4096) + 64 * (c / 64 % 64) + c % 64
    ensures c == 262144 * (c / 262144) + 4096 * (c / 4096 % 64) + 64 * (c / 64 % 64) + c % 64
  {
    DivideTwice(c, 64, 64);
    DivideTwice(c, 4096, 64);
  }

  lemma {:induction false} ValueOfEncode(c: int)
    requires Scalar(c)
    ensures Utf8Char(Encode(c)) && Value(Encode(c)) == c
  {
    hide Encode, Utf8Char, Value;
    Digits(c);
    if c <= 0x7F {
      ValueOfOne(c);
    } else if c <= 0x7FF {
      ValueOfTwo(c / 64, c % 64);
    } else if c <= 0xFFFF {
      ValueOfThree(c / 4096, c / 64 % 64, c % 64);
    } else {
      ValueOfFour(c / 262144, c / 4096 % 64, c / 64 % 64, c % 64);
    }
  }

  lemma ValueOfOne(c: nat)
    requires c <= 0x7F
    ensures Utf8Char(Encode(c)) && Value(Encode(c)) == c
  {
  }

  lemma ValueOfTwo(a: nat, b: nat)
    requires 2 <= a < 32 && b < 64
    ensures var t := Encode(64 * a + b); Utf8Char(t) && Value(t) == 64 * a + b
  {
    hide Encode;
    EncodeTwo(a, b);
  }

  lemma ValueOfThree(a: nat, b: nat, d: nat)
    requires a < 16 && b < 64 && d < 64 && 32 <= 64 * a + b && Scalar(4096 * a + 64 * b + d)
    ensures var t := Encode(4096 * a + 64 * b + d); Utf8Char(t) && Value(t) == 4096 * a + 64 * b + d
  {
    hide Encode;
    EncodeThree(a, b, d);
  }

  lemma ValueOfFour(a: nat, b: nat, d: nat, e: nat)
    requires b < 64 && d < 64 && e < 64 && 16 <= 64 * a + b < 272
    ensures var t := Encode(262144 * a + 4096 * b + 64 * d + e);
      Utf8Char(t) && Value(t) == 262144 * a + 4096 * b + 64 * d + e
  {
    hide Encode;
    EncodeFour(a, b, d, e);
  }

  lemma EncodeOfValue(t: seq<byte>)
    requires Utf8Char(t)
    ensures Scalar(Value(t)) && Encode(Value(t)) == t
  {
    match |t|
    case 1 =>
    case 2 => EncodeOfTwo(t);
    case 3 => EncodeOfThree(t);
    case 4 => EncodeOfFour(t);
  }

  lemma EncodeOfTwo(t: seq<byte>)
    requires Utf8Char(t) && |t| == 2
    ensures Scalar(Value(t)) && Encode(Value(t)) == t
  {
    hide Encode;
    EncodeTwo(t[0] - 0xC0, t[1] - 0x80);
  }

  lemma EncodeOfThree(t: seq<byte>)
    requires Utf8Char(t) && |t| == 3
    ensures Scalar(Value(t)) && Encode(Value(t)) == t
  {
    hide Encode;
    EncodeThree(t[0] - 0xE0, t[1] - 0x80, t[2] - 0x80);
  }

  lemma EncodeOfFour(t: seq<byte>)
    requires Utf8Char(t) && |t| == 4
    ensures Scalar(Value(t)) && Encode(Value(t)) == t
  {
    hide Encode;
    EncodeFour(t[0] - 0xF0, t[1] - 0x80, t[2] - 0x80, t[3] - 0x80);
  }

  /** The encodings of the scalar values are exactly the sequences of the grammar. */
  lemma GrammarIsEncodings(t: seq<byte>)
    ensures Utf8Char(t) <==> exists c :: Scalar(c) && Encode(c) == t
  {
    if Utf8Char(t) {
      EncodeOfValue(t);
    }
    forall c | Scalar(c) && Encode(c) == t
      ensures Utf8Char(t)
    {
      ValueOfEncode(c);
    }
  }

  // ---------------------------------------------------------------- reading by the first byte

  /** How many bytes follow `b`, or -1 if no sequence starts with it. */
  function Needed(b: byte): int {
    if b <= 0x7F then 0
    else if 0xC2 <= b <= 0xDF then 1
    else if 0xE0 <= b <= 0xEF then 2
    else if 0xF0 <= b <= 0xF4 then 3
    else -1
  }

  function Lower(b: byte): int {
    if b == 0xE0 then 0xA0 else if b == 0xF0 then 0x90 else 0x80
  }

  function Upper(b: byte): int {
    if b == 0xED then 0x9F else if b == 0xF4 then 0x8F else 0xBF
  }

  /** Byte `k` of a sequence that starts with `b` may be `x`. */
  predicate Follows(b: byte, k: nat, x: byte) {
    if k == 1 then Lower(b) <= x <= Upper(b) else Tail(x)
  }

  lemma GrammarByFirstByte(t: seq<byte>)
    ensures Utf8Char(t) <==>
              && t != [] && Needed(t[0]) == |t| - 1
              && forall k :: 1 <= k < |t| ==> Follows(t[0], k, t[k])
  {
    if t != [] && Needed(t[0]) == |t| - 1 {
      if |t| == 2 {
        assert Follows(t[0], 1, t[1]) <==> Tail(t[1]);
      } else if |t| == 3 {
        assert Follows(t[0], 2, t[2]) <==> Tail(t[2]);
      } else if |t| == 4 {
        assert Follows(t[0], 2, t[2]) && Follows(t[0], 3, t[3]) <==> Tail(t[2]) && Tail(t[3]);
      }
    }
  }

  // ---------------------------------------------------------------- encoding and decoding

  method StrUtf8Encode(ptr: array<byte>, chr: int) returns (n: nat)
    requires ptr.Length >= |Encode(chr)|
    modifies ptr
    ensures n == |Encode(chr)| && ptr[..] == Encode(chr) + old(ptr[n..])
  {
    if chr <= 0x7F {
      ptr[0] := chr % 256;
      return 1;
    } else if chr <= 0x7FF {
      ptr[0] := 0xC0 + chr / 64 % 32;
      ptr[1] := 0x80 + chr % 64;
      return 2;
    } else if chr <= 0xFFFF {
      ptr[0] := 0xE0 + chr / 4096 % 16;
      ptr[1] := 0x80 + chr / 64 % 64;
      ptr[2] := 0x80 + chr % 64;
      return 3;
    } else if chr <= 0x10FFFF {
      ptr[0] := 0xF0 + chr / 262144 % 8;
      ptr[1] := 0x80 + chr / 4096 % 64;
      ptr[2] := 0x80 + chr / 64 % 64;
      ptr[3] := 0x80 + chr % 64;
      return 4;
    }
    return 0;
  }

  /** A C string in memory: the bytes up to and including a terminator at the end. */
  predicate CString(s: seq<byte>) {
    s != [] && s[|s| - 1] == 0
  }

  /** `x << (6 * n)` */
  function Shift6(x: int, n: nat): int {
    if n == 0 then x else 64 * Shift6(x, n - 1)
  }

  /** The bits gathered from the first `k` bytes of a sequence of `n` bytes. */
  function Gathered(t: seq<byte>, k: nat, n: nat): int
    requires 1 <= k <= |t| && k <= n <= 4 && 2 <= n
  {
    if k == 1 then
      Shift6(t[0] as int - (if n == 2 then 0xC0 else if n == 3 then 0xE0 else 0xF0), n - 1)
    else
      Gathered(t, k - 1, n) + Shift6(t[k - 1] as int - 0x80, n - k)
  }

  lemma GatheredIsValue(t: seq<byte>)
    requires 2 <= |t| <= 4
    ensures Gathered(t, |t|, |t|) == Value(t)
  {
    assert forall x: int {:trigger Shift6(x, 1)} :: Shift6(x, 1) == 64 * x;
    assert forall x: int {:trigger Shift6(x, 2)} :: Shift6(x, 2) == 64 * Shift6(x, 1);
    assert forall x: int {:trigger Shift6(x, 3)} :: Shift6(x, 3) == 64 * Shift6(x, 2);
    if |t| == 3 {
      assert Gathered(t, 2, 3) == Gathered(t, 1, 3) + 64 * (t[1] as int - 0x80);
    } else if |t| == 4 {
      assert Gathered(t, 2, 4) == Gathered(t, 1, 4) + 4096 * (t[1] as int - 0x80);
      assert Gathered(t, 3, 4) == Gathered(t, 2, 4) + 64 * (t[2] as int - 0x80);
    }
  }

  /** The bytes from `start` to `at` begin a sequence of `n` bytes, and `at` is the next to read. */
  ghost predicate Begun(s: seq<byte>, start: nat, at: nat, n: nat) {
    && start < at < |s| && at - start < n && 2 <= n
    && Needed(s[start]) == n - 1
    && forall i :: start < i < at ==> Follows(s[start], i - start, s[i])
  }

  /** No code point is encoded at `start`. */
  ghost predicate NothingAt(s: seq<byte>, start: nat)
    requires start <= |s|
  {
    forall c :: Scalar(c) ==> !(Encode(c) <= s[start..])
  }

  method StrUtf8Decode(s: seq<byte>, start: nat) returns (cp: int, next: nat)
    requires CString(s) && start < |s|
    ensures start < next <= |s|
    ensures cp == -1 || (Scalar(cp) && s[start..next] == Encode(cp))
    ensures cp == -1 ==> NothingAt(s, start)
    ensures forall c :: Scalar(c) && Encode(c) <= s[start..] ==> cp == c && next == start + |Encode(c)|
    ensures next == |s| ==> cp == 0
    ensures cp == -1 ==> next == start + 1 || Begun(s, start, next, Needed(s[start]) + 1)
    ensures cp == -1 && 0 <= Needed(s[start]) ==> !Follows(s[start], next - start, s[next])
  {
    hide Value, Utf8Char, Encode, Gathered, Shift6;
    next := start;
    var utf8LowerBoundary, utf8UpperBoundary := 0x80, 0xBF;
    var utf8CodePoint := 0;
    var utf8BytesSeen, utf8BytesNeeded := 0, 0;
    while true
      invariant start <= next < |s|
      invariant utf8BytesNeeded == 0 ==> next == start && utf8BytesSeen == 0
      invariant utf8BytesNeeded != 0 ==>
                  && utf8BytesSeen == next - start - 1
                  && Begun(s, start, next, utf8BytesNeeded + 1)
                  && utf8CodePoint == Gathered(s[start..], next - start, utf8BytesNeeded + 1)
      invariant utf8BytesNeeded == 0 || utf8BytesSeen != 0 ==> utf8LowerBoundary == 0x80 && utf8UpperBoundary == 0xBF
      invariant utf8BytesNeeded != 0 && utf8BytesSeen == 0 ==>
                  utf8LowerBoundary == Lower(s[start]) && utf8UpperBoundary == Upper(s[start])
      decreases |s| - next
    {
      var byteValue := s[next];
      next := next + 1;
      if utf8BytesNeeded == 0 {
        if byteValue <= 0x7F {
          AsciiAt(s, start);
          return byteValue, next;
        } else if 0xC2 <= byteValue <= 0xDF {
          utf8BytesNeeded := 1;
          utf8CodePoint := byteValue - 0xC0;
        } else if 0xE0 <= byteValue <= 0xEF {
          if byteValue == 0xE0 {
            utf8LowerBoundary := 0xA0;
          }
          if byteValue == 0xED {
            utf8UpperBoundary := 0x9F;
          }
          utf8BytesNeeded := 2;
          utf8CodePoint := byteValue - 0xE0;
        } else if 0xF0 <= byteValue <= 0xF4 {
          if byteValue == 0xF0 {
            utf8LowerBoundary := 0x90;
          }
          if byteValue == 0xF4 {
            utf8UpperBoundary := 0x8F;
          }
          utf8BytesNeeded := 3;
          utf8CodePoint := byteValue - 0xF0;
        } else {
          NoLead(s, start);
          return -1, next;
        }
        utf8CodePoint := Shift6(utf8CodePoint, utf8BytesNeeded);
        GatherFirst(s[start..], utf8BytesNeeded + 1);
        continue;
      }
      if !(utf8LowerBoundary <= byteValue <= utf8UpperBoundary) {
        next := next - 1;
        BrokenOff(s, start, next);
        return -1, next;
      }
      utf8LowerBoundary, utf8UpperBoundary := 0x80, 0xBF;
      utf8BytesSeen := utf8BytesSeen + 1;
      utf8CodePoint := utf8CodePoint + Shift6(byteValue - 0x80, utf8BytesNeeded - utf8BytesSeen);
      GatherNext(s[start..], utf8BytesSeen + 1, utf8BytesNeeded + 1);
      if utf8BytesSeen != utf8BytesNeeded {
        continue;
      }
      Completed(s, start, next);
      return utf8CodePoint, next;
    }
  }

  /** What an encoding that starts at `start` says about the bytes there. */
  lemma EncodingAt(s: seq<byte>, start: nat, c: int)
    requires start < |s| && Scalar(c) && Encode(c) <= s[start..]
    ensures Needed(s[start]) == |Encode(c)| - 1
    ensures forall i :: start < i < start + |Encode(c)| ==> Follows(s[start], i - start, s[i])
  {
    var t := Encode(c);
    ValueOfEncode(c);
    GrammarByFirstByte(t);
    forall i | start <= i < start + |t|
      ensures s[i] == t[i - start]
    {
      assert s[start..][i - start] == s[i];
    }
  }

  /** No encoding is a prefix of another, so at most one code point starts at a position. */
  lemma PrefixFree(s: seq<byte>, start: nat, c: int, d: int)
    requires start < |s| && Scalar(c) && Scalar(d)
    requires Encode(c) <= s[start..] && Encode(d) <= s[start..]
    ensures c == d
  {
    EncodingAt(s, start, c);
    EncodingAt(s, start, d);
    assert Encode(c) == Encode(d);
    ValueOfEncode(c);
    ValueOfEncode(d);
  }

  lemma OnlyOneAt(s: seq<byte>, start: nat, cp: int)
    requires start < |s| && Scalar(cp) && Encode(cp) <= s[start..]
    ensures forall c :: Scalar(c) && Encode(c) <= s[start..] ==> c == cp
  {
    forall c | Scalar(c) && Encode(c) <= s[start..]
      ensures c == cp
    {
      PrefixFree(s, start, c, cp);
    }
  }

  /** The code point `d` is encoded at the front of `s`. */
  ghost predicate FoundAt(s: seq<byte>, d: int) {
    Scalar(d) && Encode(d) <= s
  }

  /**
    Of the numbers the encoder accepts, all up to 0x10FFFF, exactly the scalar values survive decoding:
    something is found where such a number stands, and it is that number.
   */
  lemma RoundTripIff(c: int, rest: seq<byte>)
    requires c <= 0x10FFFF
    ensures Encode(c) != []
    ensures Scalar(c) <==>
      (exists d :: FoundAt(Encode(c) + rest, d)) && forall d :: FoundAt(Encode(c) + rest, d) ==> d == c
  {
    var s := Encode(c) + rest;
    if Scalar(c) {
      assert FoundAt(s, c);
      forall d | FoundAt(s, d)
        ensures d == c
      {
        assert s[0..] == s;
        PrefixFree(s, 0, d, c);
      }
    } else {
      assert forall d :: FoundAt(s, d) ==> d != c;
    }
  }

  /** The two kinds of numbers that do not survive: a surrogate is found as nothing at all, */
  lemma SurrogateIsLost(c: int, rest: seq<byte>)
    requires 0xD800 <= c <= 0xDFFF
    ensures !Utf8Char(Encode(c)) && NothingAt(Encode(c) + rest, 0)
  {
    SurrogateBytes(c);
    hide Encode;
    BrokenOff(Encode(c) + rest, 0, 1);
  }

  /** and a negative number as its lowest byte, which may even be a character of its own. */
  lemma NegativeIsByte(c: int, rest: seq<byte>)
    requires c < 0
    ensures Encode(c) == [c % 256]
    ensures c % 256 <= 0x7F ==> FoundAt(Encode(c) + rest, c % 256)
    ensures c % 256 >= 0x80 ==> !Utf8Char(Encode(c))
  {
    if c % 256 <= 0x7F {
      assert Encode(c % 256) == [c % 256];
    }
  }

  lemma RoundTripFails()
    ensures Encode(0xD800) == [0xED, 0xA0, 0x80] && NothingAt(Encode(0xD800), 0)
    ensures Encode(-191) == [0x41] && FoundAt(Encode(-191), 65)
  {
    SurrogateIsLost(0xD800, []);
    NegativeIsByte(-191, []);
    assert Encode(0xD800) + [] == Encode(0xD800) && Encode(-191) + [] == Encode(-191);
    assert Encode(-191) == [0x41];
  }

  lemma SurrogateBytes(c: int)
    requires 0xD800 <= c <= 0xDFFF
    ensures |Encode(c)| == 3 && Encode(c)[0] == 0xED && 0xA0 <= Encode(c)[1]
  {
    Digits(c);
    EncodeThree(c / 4096, c / 64 % 64, c % 64);
  }

  lemma NoLead(s: seq<byte>, start: nat)
    requires start < |s| && Needed(s[start]) == -1
    ensures NothingAt(s, start)
  {
    forall c | Scalar(c) && Encode(c) <= s[start..]
      ensures false
    {
      EncodingAt(s, start, c);
    }
  }

  lemma BrokenOff(s: seq<byte>, start: nat, at: nat)
    requires start < at < |s| && at - start <= Needed(s[start])
    requires !Follows(s[start], at - start, s[at])
    ensures NothingAt(s, start)
  {
    forall c | Scalar(c) && Encode(c) <= s[start..]
      ensures false
    {
      EncodingAt(s, start, c);
    }
  }

  lemma Completed(s: seq<byte>, start: nat, next: nat)
    requires start < next <= |s| && 2 <= next - start && Needed(s[start]) == next - start - 1
    requires forall i :: start < i < next ==> Follows(s[start], i - start, s[i])
    ensures var cp := Gathered(s[start..], next - start, next - start);
      && Scalar(cp) && s[start..next] == Encode(cp)
      && forall c :: Scalar(c) && Encode(c) <= s[start..] ==> c == cp
  {
    hide Encode, Value, Utf8Char;
    var t := s[start..next];
    GrammarByFirstByte(t);
    EncodeOfValue(t);
    GatheredIsValue(t);
    GatheredPrefix(s[start..], |t|, |t|);
    assert s[start..][..|t|] == t;
    OnlyOneAt(s, start, Value(t));
  }

  lemma AsciiAt(s: seq<byte>, start: nat)
    requires start < |s| && s[start] <= 0x7F
    ensures Scalar(s[start]) && s[start..start + 1] == Encode(s[start])
    ensures forall c :: Scalar(c) && Encode(c) <= s[start..] ==> c == s[start]
  {
    assert s[start..start + 1] == [s[start]] == s[start..][..1];
    OnlyOneAt(s, start, s[start]);
  }

  lemma GatherFirst(t: seq<byte>, n: nat)
    requires 2 <= n <= 4 && t != []
    ensures Gathered(t, 1, n) == Shift6(t[0] as int - (if n == 2 then 0xC0 else if n == 3 then 0xE0 else 0xF0), n - 1)
  {
  }

  lemma GatherNext(t: seq<byte>, k: nat, n: nat)
    requires 2 <= k <= n <= 4 && k <= |t|
    ensures Gathered(t, k, n) == Gathered(t, k - 1, n) + Shift6(t[k - 1] as int - 0x80, n - k)
  {
  }

  lemma {:induction false} GatheredPrefix(t: seq<byte>, k: nat, n: nat)
    requires 1 <= k <= n <= |t| && 2 <= n <= 4
    ensures Gathered(t, k, n) == Gathered(t[..n], k, n)
    decreases k
  {
    if 1 < k {
      GatheredPrefix(t, k - 1, n);
    }
  }
}
