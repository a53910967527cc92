/**
  SHA-256: the specification of FIPS 180-4, the bit functions of the implementation, and the
  chunked context (init, update, finish) proved to compute the one-shot digest.
 */
module BitFacts {
  lemma Choose(x: bv32, y: bv32, z: bv32)
    ensures z ^ (x & (y ^ z)) == (x & y) ^ (!x & z)
  {
  }

  lemma Majority(x: bv32, y: bv32, z: bv32)
    ensures ((x | y) & z) | (x & y) == (x & y) ^ (x & z) ^ (y & z)
  {
  }
}

module Sha256 {
  import BitFacts
  import opened Bytes
  import opened Powers

  type Block = b: seq<bv8> | |b| == 64 witness seq(64, _ => 0)
  type Words = w: seq<bv32> | |w| == 8 witness seq(8, _ => 0)

  // ---------------------------------------------------------------- FIPS 180-4, sections 2 and 4

  function ROTR(n: bv32, x: bv32): bv32
    requires 0 < n < 32
  {
    (x >> n) | (x << (32 - n))
  }

  /** Addition modulo 2^32. */
  function Add(x: bv32, y: bv32): bv32 {
    x + y
  }

  function SpecCh(x: bv32, y: bv32, z: bv32): bv32 {
    (x & y) ^ (!x & z)
  }

  function SpecMaj(x: bv32, y: bv32, z: bv32): bv32 {
    (x & y) ^ (x & z) ^ (y & z)
  }

  function BigSigma0(x: bv32): bv32 { ROTR(2, x) ^ ROTR(13, x) ^ ROTR(22, x) }
  function BigSigma1(x: bv32): bv32 { ROTR(6, x) ^ ROTR(11, x) ^ ROTR(25, x) }
  function SmallSigma0(x: bv32): bv32 { ROTR(7, x) ^ ROTR(18, x) ^ (x >> 3) }
  function SmallSigma1(x: bv32): bv32 { ROTR(17, x) ^ ROTR(19, x) ^ (x >> 10) }

  const K: seq<bv32> :=
    [0x428a2f98, 0x71374491, 0xb5c0fbcf, 0xe9b5dba5, 0x3956c25b, 0x59f111f1, 0x923f82a4, 0xab1c5ed5] +
    [0xd807aa98, 0x12835b01, 0x243185be, 0x550c7dc3, 0x72be5d74, 0x80deb1fe, 0x9bdc06a7, 0xc19bf174] +
    [0xe49b69c1, 0xefbe4786, 0x0fc19dc6, 0x240ca1cc, 0x2de92c6f, 0x4a7484aa, 0x5cb0a9dc, 0x76f988da] +
    [0x983e5152, 0xa831c66d, 0xb00327c8, 0xbf597fc7, 0xc6e00bf3, 0xd5a79147, 0x06ca6351, 0x14292967] +
    [0x27b70a85, 0x2e1b2138, 0x4d2c6dfc, 0x53380d13, 0x650a7354, 0x766a0abb, 0x81c2c92e, 0x92722c85] +
    [0xa2bfe8a1, 0xa81a664b, 0xc24b8b70, 0xc76c51a3, 0xd192e819, 0xd6990624, 0xf40e3585, 0x106aa070] +
    [0x19a4c116, 0x1e376c08, 0x2748774c, 0x34b0bcb5, 0x391c0cb3, 0x4ed8aa4a, 0x5b9cca4f, 0x682e6ff3] +
    [0x748f82ee, 0x78a5636f, 0x84c87814, 0x8cc70208, 0x90befffa, 0xa4506ceb, 0xbef9a3f7, 0xc67178f2]

  const H0: Words := [
    0x6A09E667, 0xBB67AE85, 0x3C6EF372, 0xA54FF53A,
    0x510E527F, 0x9B05688C, 0x1F83D9AB, 0x5BE0CD19]

  // ---------------------------------------------------------------- FIPS 180-4, section 6.2.2

  function WordAt(b: Block, i: nat): bv32
    requires i < 16
  {
    ((b[4 * i] as bv32) << 24) | ((b[4 * i + 1] as bv32) << 16) | ((b[4 * i + 2] as bv32) << 8) | (b[4 * i + 3] as bv32)
  }

  function Schedule(b: Block, t: nat): bv32 {
    if t < 16 then WordAt(b, t)
    else
      var s := Add(SmallSigma1(Schedule(b, t - 2)), Schedule(b, t - 7));
      Add(Add(s, SmallSigma0(Schedule(b, t - 15))), Schedule(b, t - 16))
  }

  /** One round on the working variables a to h. */
  function Round(v: Words, k: bv32, w: bv32): Words {
    var t1 := Add(Add(Add(Add(v[7], BigSigma1(v[4])), SpecCh(v[4], v[5], v[6])), k), w);
    var t2 := Add(BigSigma0(v[0]), SpecMaj(v[0], v[1], v[2]));
    [Add(t1, t2), v[0], v[1], v[2], Add(v[3], t1), v[4], v[5], v[6]]
  }

  function Rounds(b: Block, v: Words, t: nat): Words
    requires t <= 64
  {
    if t == 0 then v else Round(Rounds(b, v, t - 1), K[t - 1], Schedule(b, t - 1))
  }

  function Compress(h: Words, b: Block): Words {
    AddWords(h, Rounds(b, h, 64))
  }

  function AddWords(h: Words, v: Words): Words {
    seq(8, i requires 0 <= i < 8 => Add(h[i], v[i]))
  }

  /** The hash value after the blocks of `data` one after the other. */
  function Hash(data: seq<bv8>): Words
    requires |data| % 64 == 0
  {
    if data == [] then H0 else Compress(Hash(data[..|data| - 64]), data[|data| - 64..])
  }

  // ---------------------------------------------------------------- FIPS 180-4, section 5.1.1

  function Power256(n: nat): (r: nat)
    ensures 0 < r
  {
    if n == 0 then 1 else 256 * Power256(n - 1)
  }

  /** Byte `i` of the `n`-byte big-endian form of `x`. */
  function BigEndianByte(x: nat, n: nat, i: nat): (r: nat)
    requires i < n
    ensures r < 256
  {
    (x / Power256(n - 1 - i)) % 256
  }

  function LengthBytes(x: nat): (b: seq<bv8>)
    ensures |b| == 8
  {
    seq(8, i requires 0 <= i < 8 => BigEndianByte(x, 8, i) as bv8)
  }

  /** The number of zero bytes between the marker and the length. */
  function ZeroCount(n: nat): (r: nat)
    ensures r < 64 && (n + 1 + r + 8) % 64 == 0
  {
    (119 - n % 64) % 64
  }

  function Zeros(n: nat): (z: seq<bv8>)
    ensures |z| == n
  {
    seq(n, _ => 0)
  }

  /** The padded message, for messages of less than 2^61 bytes. */
  function Padded(m: seq<bv8>): (p: seq<bv8>)
    ensures |p| % 64 == 0
  {
    m + [0x80] + Zeros(ZeroCount(|m|)) + LengthBytes(8 * |m| % U64_LIMIT)
  }

  function WordBytes(x: bv32): (b: seq<bv8>)
    ensures |b| == 4
  {
    [((x >> 24) & 255) as bv8, ((x >> 16) & 255) as bv8, ((x >> 8) & 255) as bv8, (x & 255) as bv8]
  }

  function DigestBytes(h: Words, n: nat): seq<bv8>
    requires n <= 8
  {
    if n == 0 then [] else DigestBytes(h, n - 1) + WordBytes(h[n - 1])
  }

  function Sha256Digest(m: seq<bv8>): seq<bv8> {
    DigestBytes(Hash(Padded(m)), 8)
  }

  // ---------------------------------------------------------------- the implementation's bit functions

  function Ch(x: bv32, y: bv32, z: bv32): bv32 { z ^ (x & (y ^ z)) }
  function Maj(x: bv32, y: bv32, z: bv32): bv32 { ((x | y) & z) | (x & y) }

  lemma ChIsSpec(x: bv32, y: bv32, z: bv32)
    ensures Ch(x, y, z) == SpecCh(x, y, z)
  {
    BitFacts.Choose(x, y, z);
  }

  lemma MajIsSpec(x: bv32, y: bv32, z: bv32)
    ensures Maj(x, y, z) == SpecMaj(x, y, z)
  {
    BitFacts.Majority(x, y, z);
  }

  lemma LoadStore(x: bv32, b: Block, i: nat)
    requires i < 16 && b[4 * i..4 * i + 4] == WordBytes(x)
    ensures WordAt(b, i) == x
  {
    var w := b[4 * i..4 * i + 4];
    assert b[4 * i] == w[0] && b[4 * i + 1] == w[1] && b[4 * i + 2] == w[2] && b[4 * i + 3] == w[3];
    JoinedBytes(x);
  }

  lemma JoinedBytes(x: bv32)
    ensures var w := WordBytes(x);
      ((w[0] as bv32) << 24) | ((w[1] as bv32) << 16) | ((w[2] as bv32) << 8) | (w[3] as bv32) == x
  {
  }

  // ---------------------------------------------------------------- the compression function

  /** The RND macro and the rotation of the variables behind it. */
  method ShaRound(S: array<bv32>, k: bv32, w: bv32)
    requires S.Length == 8
    modifies S
    ensures S[..] == Round(old(S[..]), k, w)
  {
    hide Add, BigSigma0, BigSigma1, Ch, Maj, SpecCh, SpecMaj;
    ChIsSpec(S[4], S[5], S[6]);
    MajIsSpec(S[0], S[1], S[2]);
    var t0 := Add(Add(Add(Add(S[7], BigSigma1(S[4])), Ch(S[4], S[5], S[6])), k), w);
    var t1 := Add(BigSigma0(S[0]), Maj(S[0], S[1], S[2]));
    S[3] := Add(S[3], t0);
    S[7] := Add(t0, t1);
    Rotate(S);
  }

  method Rotate(S: array<bv32>)
    requires S.Length == 8
    modifies S
    ensures S[..] == [old(S[7]), old(S[0]), old(S[1]), old(S[2]), old(S[3]), old(S[4]), old(S[5]), old(S[6])]
  {
    var t := S[7];
    S[7] := S[6];
    S[6] := S[5];
    S[5] := S[4];
    S[4] := S[3];
    S[3] := S[2];
    S[2] := S[1];
    S[1] := S[0];
    S[0] := t;
  }

  method ExpandSchedule(b: Block) returns (W: array<bv32>)
    ensures fresh(W) && W.Length == 64
    ensures forall t :: 0 <= t < 64 ==> W[t] == Schedule(b, t)
  {
    hide Add, SmallSigma0, SmallSigma1, WordAt;
    W := new bv32[64];
    for i := 0 to 16
      invariant forall t :: 0 <= t < i ==> W[t] == Schedule(b, t)
    {
      W[i] := WordAt(b, i);
    }
    for i := 16 to 64
      invariant forall t :: 0 <= t < i ==> W[t] == Schedule(b, t)
    {
      W[i] := Add(Add(Add(SmallSigma1(W[i - 2]), W[i - 7]), SmallSigma0(W[i - 15])), W[i - 16]);
    }
  }

  method ShaCompress(state: array<bv32>, b: Block)
    requires state.Length == 8
    modifies state
    ensures state[..] == Compress(old(state[..]), b)
  {
    hide Add, AddWords, Rounds;
    var S := new bv32[8];
    for i := 0 to 8
      invariant state[..] == old(state[..])
      invariant S[..i] == state[..i]
    {
      S[i] := state[i];
    }
    assert S[..] == S[..8] && state[..] == state[..8];
    var W := ExpandSchedule(b);
    RunRounds(S, W, b);
    Feedback(state, S);
  }

  method RunRounds(S: array<bv32>, W: array<bv32>, b: Block)
    requires S.Length == 8 && W.Length == 64 && S != W
    requires forall t :: 0 <= t < 64 ==> W[t] == Schedule(b, t)
    modifies S
    ensures S[..] == Rounds(b, old(S[..]), 64)
  {
    hide Round, Schedule;
    for i := 0 to 64
      invariant S[..] == Rounds(b, old(S[..]), i)
    {
      ShaRound(S, K[i], W[i]);
    }
  }

  method Feedback(state: array<bv32>, S: array<bv32>)
    requires state.Length == 8 && S.Length == 8 && state != S
    modifies state
    ensures state[..] == AddWords(old(state[..]), S[..])
  {
    hide Add;
    for i := 0 to 8
      invariant forall j :: 0 <= j < i ==> state[j] == Add(old(state[j]), S[j])
      invariant forall j :: i <= j < 8 ==> state[j] == old(state[j])
    {
      state[i] := Add(state[i], S[i]);
    }
  }

  // ---------------------------------------------------------------- hashing block by block

  lemma HashAppend(data: seq<bv8>, b: Block)
    requires |data| % 64 == 0
    ensures (|data| + 64) % 64 == 0
    ensures Hash(data + b) == Compress(Hash(data), b)
  {
    assert (data + b)[..|data + b| - 64] == data && (data + b)[|data + b| - 64..] == b;
  }

  /** The part of an update's data that is absorbed: its size passes through an `unsigned int`. */
  function Absorbed(data: seq<bv8>): seq<bv8> {
    data[..|data| % U32_LIMIT]
  }

  /** An update absorbs all its data exactly when the data is shorter than 2^32 bytes. */
  lemma AbsorbedIff(data: seq<bv8>)
    ensures Absorbed(data) == data <==> |data| < U32_LIMIT
  {
    if U32_LIMIT <= |data| {
      assert |Absorbed(data)| < U32_LIMIT;
    }
  }

  lemma SliceJoins(data: seq<bv8>, a: nat, b: nat)
    requires a <= b <= |data|
    ensures data[..b] == data[..a] + data[a..b]
  {
  }

  lemma LengthAdds(m: nat, n: nat)
    ensures (8 * m % U64_LIMIT + 8 * n) % U64_LIMIT == 8 * (m + n) % U64_LIMIT
  {
  }

  class Context {
    var length: nat
    const state: array<bv32>
    var curlen: nat
    const buf: array<bv8>
    ghost var message: seq<bv8>   // everything absorbed so far

    /** The whole blocks are in the hash value, the rest is at the front of the buffer. */
    ghost predicate Consistent()
      reads this, state, buf
    {
      && state.Length == 8 && buf.Length == 64
      && curlen <= 64 && curlen <= |message|
      && (|message| - curlen) % 64 == 0
      && state[..] == Hash(message[..|message| - curlen])
      && buf[..curlen] == message[|message| - curlen..]
      && length == 8 * (|message| - curlen) % U64_LIMIT
    }

    ghost predicate Valid()
      reads this, state, buf
    {
      Consistent() && curlen < 64
    }

    /** `sha_init`. */
    constructor ()
      ensures Valid() && message == [] && fresh(state) && fresh(buf)
    {
      state := new bv32[8](i requires 0 <= i < 8 => H0[i]);
      buf := new bv8[64];
      curlen := 0;
      length := 0;
      message := [];
      new;
      assert state[..] == H0;
    }

    /** `sha_process`, reached through `sha256_update`. */
    method Update(data: seq<bv8>)
      requires Valid()
      modifies this, state, buf
      ensures Valid() && message == old(message) + Absorbed(data)
    {
      hide Hash, Compress;
      ghost var input := Absorbed(data);
      var inlen: nat := |data| % U32_LIMIT;
      var at: nat := 0;
      while inlen > 0
        invariant Valid()
        invariant at + inlen == |input| <= |data|
        invariant message == old(message) + data[..at]
      {
        ghost var before := at;
        if curlen == 0 && inlen >= 64 {
          TakeBlock(data[at..at + 64]);
          at := at + 64;
          inlen := inlen - 64;
        } else {
          var n := if inlen < 64 - curlen then inlen else 64 - curlen;
          TakePart(data[at..at + n]);
          at := at + n;
          inlen := inlen - n;
          if curlen == 64 {
            FlushBuffer();
          }
        }
        SliceJoins(data, before, at);
      }
    }

    /** A whole block straight from the input. */
    method TakeBlock(b: Block)
      requires Valid() && curlen == 0
      modifies this`length, this`message, state
      ensures Valid() && message == old(message) + b && curlen == 0
    {
      hide Compress, Hash;
      HashAppend(message, b);
      LengthAdds(|message|, 64);
      assert message[..|message|] == message;
      ShaCompress(state, b);
      length := (length + 64 * 8) % U64_LIMIT;
      message := message + b;
      assert message[..|message|] == message;
    }

    /** Input copied behind what the buffer already holds. */
    method TakePart(part: seq<bv8>)
      requires Valid() && curlen + |part| <= 64
      modifies this`curlen, this`message, buf
      ensures Consistent() && message == old(message) + part && curlen == old(curlen) + |part|
    {
      hide Hash;
      forall i | 0 <= i < |part| {
        buf[curlen + i] := part[i];
      }
      ghost var whole := |message| - curlen;
      assert (message + part)[..whole] == message[..whole];
      assert buf[..curlen + |part|] == message[whole..] + part;
      curlen := curlen + |part|;
      message := message + part;
    }

    /** A full buffer becomes a block of its own. */
    method FlushBuffer()
      requires Consistent() && curlen == 64
      modifies this`length, this`curlen, state
      ensures Valid()
    {
      hide Compress, Hash;
      ghost var whole := |message| - 64;
      HashAppend(message[..whole], buf[..]);
      LengthAdds(whole, 64);
      assert buf[..64] == buf[..] && message[..whole] + message[whole..] == message;
      ShaCompress(state, buf[..]);
      length := (length + 8 * 64) % U64_LIMIT;
      curlen := 0;
      assert message[..|message|] == message;
    }
  
    /** The loops that pad the buffer with zeros. */
    method FillZeros(to: nat)
      requires buf.Length == 64 && curlen <= to <= 64
      modifies this`curlen, buf
      ensures curlen == to
      ensures buf[..to] == old(buf[..curlen]) + Zeros(to - old(curlen))
    {
      ghost var start := curlen;
      while curlen < to
        invariant start <= curlen <= to
        invariant buf[..curlen] == old(buf[..curlen]) + Zeros(curlen - start)
      {
        buf[curlen] := 0;
        curlen := curlen + 1;
        assert buf[..curlen] == buf[..curlen - 1] + [0];
      }
    }

    /** `store64` into the last eight bytes of the buffer. */
    method StoreLength()
      requires buf.Length == 64
      modifies buf
      ensures buf[..] == old(buf[..56]) + LengthBytes(length)
    {
      hide BigEndianByte;
      for i := 0 to 8
        invariant buf[..56] == old(buf[..56])
        invariant forall j :: 0 <= j < i ==> buf[56 + j] == BigEndianByte(length, 8, j) as bv8
      {
        buf[56 + i] := BigEndianByte(length, 8, i) as bv8;
      }
      assert buf[56..] == LengthBytes(length);
      assert buf[..] == buf[..56] + buf[56..];
    }

    /** `sha_done` up to the last compression. */
    method Pad()
      requires Valid()
      modifies this`length, this`curlen, buf, state
      ensures state[..] == Hash(Padded(message))
    {
      hide Hash, Compress, Padded, Zeros, LengthBytes;
      ghost var c := curlen;
      ghost var done := message[..|message| - c];
      length := (length + curlen * 8) % U64_LIMIT;
      LengthAdds(|done|, c);
      ghost var tail := buf[..c] + [0x80];
      buf[curlen] := 0x80;
      curlen := curlen + 1;
      PaddedBlocks(message, c, LengthBytes(length));
      if curlen > 56 {
        done := PadFirst(done, tail);
        assert [] + Zeros(56) == Zeros(56);
        PadLast(done, []);
      } else {
        PadLast(done, tail);
      }
    }

    /** The branch of `sha_done` that closes a block without room for the length. */
    method PadFirst(ghost done: seq<bv8>, ghost tail: seq<bv8>) returns (ghost next: seq<bv8>)
      requires state.Length == 8 && buf.Length == 64 && 56 < curlen <= 64
      requires |done| % 64 == 0 && state[..] == Hash(done)
      requires buf[..curlen] == tail
      modifies this`curlen, buf, state
      ensures curlen == 0 && |next| % 64 == 0
      ensures next == done + (tail + Zeros(64 - |tail|)) && state[..] == Hash(next)
    {
      hide Hash, Compress;
      FillZeros(64);
      assert buf[..] == buf[..64];
      HashAppend(done, buf[..]);
      next := done + buf[..];
      ShaCompress(state, buf[..]);
      curlen := 0;
    }

    /** The last block: zeros up to the length, the length, one more compression. */
    method PadLast(ghost done: seq<bv8>, ghost tail: seq<bv8>)
      requires state.Length == 8 && buf.Length == 64 && curlen <= 56
      requires |done| % 64 == 0 && state[..] == Hash(done)
      requires buf[..curlen] == tail
      modifies this`curlen, buf, state
      ensures |tail| <= 56
      ensures state[..] == Hash(done + (tail + Zeros(56 - |tail|) + LengthBytes(length)))
    {
      hide Hash, Compress;
      FillZeros(56);
      StoreLength();
      HashAppend(done, buf[..]);
      ShaCompress(state, buf[..]);
    }

    /** `sha256_finish`: the digest, most significant byte of each word first. */
    method Finish() returns (out: array<bv8>)
      requires Valid()
      modifies this`length, this`curlen, buf, state
      ensures fresh(out) && out[..] == Sha256Digest(message)
    {
      hide Hash, WordBytes;
      Pad();
      out := new bv8[32];
      for i := 0 to 8
        invariant state[..] == Hash(Padded(message))
        invariant out[..4 * i] == DigestBytes(Hash(Padded(message)), i)
      {
        Store32(state[i], out, 4 * i);
      }
      assert out[..] == out[..32];
    }
  }

  method Store32(x: bv32, y: array<bv8>, at: nat)
    requires at + 4 <= y.Length
    modifies y
    ensures y[..at + 4] == old(y[..at]) + WordBytes(x)
  {
    hide WordBytes;
    ghost var bytes := WordBytes(x);
    for i := 0 to 4
      invariant y[..at + i] == old(y[..at]) + bytes[..i]
    {
      y[at + i] := ByteOfWord(x, i);
    }
  }

  /** Byte `i` of a word, most significant first. */
  function ByteOfWord(x: bv32, i: nat): (b: bv8)
    requires i < 4
    ensures b == WordBytes(x)[i]
  {
    assert i == 0 || i == 1 || i == 2 || i == 3;
    ((x >> ((3 - i) * 8)) & 255) as bv8
  }

  lemma ZerosJoin(m: nat, n: nat)
    ensures Zeros(m) + Zeros(n) == Zeros(m + n)
  {
  }

  /** The padded message as whole blocks already absorbed and the one or two blocks `sha_done` builds. */
  lemma PaddedBlocks(m: seq<bv8>, c: nat, len: seq<bv8>)
    requires c < 64 && c <= |m| && (|m| - c) % 64 == 0
    requires len == LengthBytes(8 * |m| % U64_LIMIT)
    ensures var done, tail := m[..|m| - c], m[|m| - c..] + [0x80];
      Padded(m) ==
        if c + 1 > 56 then done + (tail + Zeros(64 - (c + 1))) + (Zeros(56) + len)
        else done + (tail + Zeros(56 - (c + 1)) + len)
  {
    var done, tail := m[..|m| - c], m[|m| - c..] + [0x80];
    assert |m| % 64 == c;
    assert m + [0x80] == done + tail;
    if c + 1 > 56 {
      ZerosJoin(64 - (c + 1), 56);
      assert ZeroCount(|m|) == 64 - (c + 1) + 56;
    } else {
      assert ZeroCount(|m|) == 56 - (c + 1);
    }
  }

  // ---------------------------------------------------------------- the length field

  /** The number whose base-256 digits, most significant first, are `digits`. */
  function ValueOf(digits: seq<nat>): nat {
    if digits == [] then 0 else 256 * ValueOf(digits[..|digits| - 1]) + digits[|digits| - 1]
  }

  function BigEndian(x: nat, n: nat): seq<nat> {
    seq(n, i requires 0 <= i < n => BigEndianByte(x, n, i))
  }

  /** Eight big-endian bytes hold every length below 2^64, so the padding is that of section 5.1.1. */
  lemma {:induction false} BigEndianHolds(x: nat, n: nat)
    requires x < Power256(n)
    ensures ValueOf(BigEndian(x, n)) == x
  {
    if 0 < n {
      BigEndianHolds(x / 256, n - 1);
      var digits := BigEndian(x, n);
      forall i | 0 <= i < n - 1
        ensures digits[i] == BigEndianByte(x / 256, n - 1, i)
      {
        DivideTwice(x, 256, Power256(n - 2 - i));
      }
      assert digits[..n - 1] == BigEndian(x / 256, n - 1);
    }
  }

  /** The length field has the digits of the length in bits, most significant first. */
  lemma LengthFieldIsExact(m: seq<bv8>)
    requires |m| < 0x2000_0000_0000_0000
    ensures var digits := BigEndian(8 * |m|, 8);
      && 8 * |m| % U64_LIMIT == 8 * |m| == ValueOf(digits)
      && forall i :: 0 <= i < 8 ==> 0 <= digits[i] < 256 && LengthBytes(8 * |m|)[i] == digits[i] as bv8
  {
    hide BigEndianByte, ValueOf;
    PowerOfEight();
    BigEndianHolds(8 * |m|, 8);
  }

  lemma PowerOfEight()
    ensures Power256(8) == U64_LIMIT
  {
    assert Power256(4) == U32_LIMIT;
  }

  // ---------------------------------------------------------------- any sequence of updates

  function Joined(chunks: seq<seq<bv8>>): seq<bv8> {
    if chunks == [] then [] else Joined(chunks[..|chunks| - 1]) + chunks[|chunks| - 1]
  }

  /** What the updates absorb of the chunks. */
  function AllAbsorbed(chunks: seq<seq<bv8>>): seq<bv8> {
    if chunks == [] then [] else AllAbsorbed(chunks[..|chunks| - 1]) + Absorbed(chunks[|chunks| - 1])
  }

  /** The updates absorb the whole concatenation exactly when every chunk is shorter than 2^32 bytes. */
  lemma {:induction false} AllAbsorbedIff(chunks: seq<seq<bv8>>)
    ensures |AllAbsorbed(chunks)| <= |Joined(chunks)|
    ensures AllAbsorbed(chunks) == Joined(chunks) <==> forall i :: 0 <= i < |chunks| ==> |chunks[i]| < U32_LIMIT
  {
    if chunks != [] {
      var init, last := chunks[..|chunks| - 1], chunks[|chunks| - 1];
      AllAbsorbedIff(init);
      AbsorbedIff(last);
      assert chunks == init + [last];
      if AllAbsorbed(chunks) == Joined(chunks) {
        assert |Absorbed(last)| == |last|;
        assert AllAbsorbed(init) == AllAbsorbed(chunks)[..|Joined(init)|] == Joined(init);
        assert forall i :: 0 <= i < |init| ==> init[i] == chunks[i];
      }
    }
  }

  /** An update with 2^32 zero bytes absorbs none of them: what is hashed is the empty message. */
  lemma NothingAbsorbed()
    ensures var zeros := seq(U32_LIMIT, _ => 0 as bv8);
      Absorbed(zeros) == [] != zeros && AllAbsorbed([zeros]) == [] != Joined([zeros])
  {
    var zeros := seq(U32_LIMIT, _ => 0 as bv8);
    AllAbsorbedIff([zeros]);
    assert [zeros][..0] == [];
  }

  /** However a message is cut into chunks, init, the updates and finish give its digest. */
  method HashChunks(chunks: seq<seq<bv8>>) returns (out: array<bv8>)
    ensures out[..] == Sha256Digest(AllAbsorbed(chunks))
  {
    hide Sha256Digest, Absorbed;
    var ctxt := new Context();
    for i := 0 to |chunks|
      invariant ctxt.Valid() && fresh(ctxt) && fresh(ctxt.state) && fresh(ctxt.buf)
      invariant ctxt.message == AllAbsorbed(chunks[..i])
    {
      ctxt.Update(chunks[i]);
      assert chunks[..i + 1][..i] == chunks[..i];
    }
    assert chunks[..|chunks|] == chunks;
    out := ctxt.Finish();
  }
}
