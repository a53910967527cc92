/**
  The growable ring buffer of the asynchronous file writer, modelled as a class over an array
  and proved to behave as a first-in first-out byte sequence.
 */
module AsyncRing {
  import opened Bytes
  import opened Powers

  const MAX_BUFFER := 0x8000_0000
  const ASYNC_BUFSIZE := 8 * 1024
  const ASYNC_LOCAL_BUFSIZE := 64 * 1024

  /** `x % n` for a position at most one lap too far. */
  function Lap(x: nat, n: nat): (r: nat)
    requires x < 2 * n
    ensures r == x % n
  {
    LapIsModulo(x, n);
    if x < n then x else x - n
  }

  lemma LapIsModulo(x: nat, n: nat)
    requires x < 2 * n
    ensures x % n == if x < n then x else x - n
  {
    if n <= x {
      assert x == n * 1 + (x - n);
      assert (x - n) / n == 0;
    }
  }

  /** The sizes the buffer can have: it starts at 8 KiB and is only ever doubled. */
  ghost predicate BufferSize(n: nat) {
    exists k :: 13 <= k <= 31 && n == Pow2(k)
  }

  lemma BufferSizeBounds(n: nat)
    requires BufferSize(n)
    ensures ASYNC_BUFSIZE <= n <= MAX_BUFFER
  {
    var k :| 13 <= k <= 31 && n == Pow2(k);
    Pow2Monotone(13, k);
    Pow2Monotone(k, 31);
    Pow2At31();
    assert Pow2(13) == ASYNC_BUFSIZE;
  }

  lemma BufferSizeDouble(n: nat)
    requires BufferSize(n) && n < MAX_BUFFER
    ensures BufferSize(2 * n)
  {
    var k :| 13 <= k <= 31 && n == Pow2(k);
    Pow2At31();
    assert k != 31;
    assert Pow2(k + 1) == 2 * n;
  }

  // ---------------------------------------------------------------- doubling

  /** `cur` after `k` iterations of the doubling loop in 32-bit arithmetic, ignoring its guard. */
  function Doubled(cur: nat, k: nat): nat {
    if k == 0 then cur else U32(2 * Doubled(cur, k - 1))
  }

  lemma {:induction false} DoubledIsPow2(j: nat, k: nat)
    requires j <= 31
    ensures Doubled(Pow2(j), k) == if j + k <= 31 then Pow2(j + k) else 0
  {
    Pow2At31();
    if 0 < k {
      DoubledIsPow2(j, k - 1);
      if j + k <= 31 {
        Pow2Monotone(j + k, 31);
      }
    }
  }

  /** For a 32-bit need the doubling loop ends exactly when the need is at most 2^31 bytes. */
  lemma GrowthTerminatesIff(cur: nat, need: nat)
    requires BufferSize(cur) && need < U32_LIMIT
    ensures (exists k: nat :: Doubled(cur, k) >= need) <==> need <= MAX_BUFFER
  {
    var j :| 13 <= j <= 31 && cur == Pow2(j);
    hide Doubled;
    forall k: nat
      ensures Doubled(cur, k) <= MAX_BUFFER
    {
      DoubledFits(j, k);
    }
    DoubledFits(j, 31 - j);
    assert Doubled(cur, 31 - j) == MAX_BUFFER;
  }

  lemma DoubledFits(j: nat, k: nat)
    requires j <= 31
    ensures Doubled(Pow2(j), k) <= MAX_BUFFER && (j + k == 31 ==> Doubled(Pow2(j), k) == MAX_BUFFER)
  {
    hide Doubled;
    Pow2At31();
    DoubledIsPow2(j, k);
    if j + k <= 31 {
      Pow2Monotone(j + k, 31);
    }
  }

  /** `r` is the first doubling of `cur` that is large enough. */
  ghost predicate FirstDoubling(cur: nat, need: nat, r: nat) {
    exists k: nat :: r == Doubled(cur, k) >= need && forall i: nat :: i < k ==> Doubled(cur, i) < need
  }

  /**
    `next_buffer_size`. The loop of the source has no exit at zero; as zero doubled stays zero it
    runs forever from there, which the result `ends` reports.
   */
  method NextBufferSize(curSize: nat, needSize: nat) returns (ends: bool, r: nat)
    requires BufferSize(curSize) && needSize < U32_LIMIT
    ensures ends <==> needSize <= MAX_BUFFER
    ensures ends ==> BufferSize(r) && (r == curSize || r < 2 * needSize) && FirstDoubling(curSize, needSize, r)
    ensures !ends ==> forall k: nat :: Doubled(curSize, k) < needSize
  {
    r := curSize;
    ghost var k: nat := 0;
    BufferSizeBounds(r);
    while r < needSize && r != 0
      invariant if r == 0 then MAX_BUFFER < needSize else BufferSize(r)
      invariant r == curSize || r < 2 * needSize
      invariant r == Doubled(curSize, k)
      invariant forall i: nat :: i < k ==> Doubled(curSize, i) < needSize
      decreases if r == 0 then 0 else U32_LIMIT - r
    {
      DoubledSize(r);
      r := U32(r * 2);
      k := k + 1;
    }
    ends := needSize <= r;
    if ends {
      BufferSizeBounds(r);
    }
    GrowthTerminatesIff(curSize, needSize);
  }

  lemma DoubledSize(n: nat)
    requires BufferSize(n)
    ensures n <= MAX_BUFFER
    ensures U32(n * 2) == if n == MAX_BUFFER then 0 else 2 * n
    ensures n != MAX_BUFFER ==> BufferSize(2 * n)
  {
    BufferSizeBounds(n);
    if n != MAX_BUFFER {
      BufferSizeDouble(n);
    }
  }

  /** What becomes of a write that has to grow the buffer. */
  datatype Fate = Written | NeverEnds | Overruns

  /** `total` counts the queued bytes, the new ones, and the one that is kept free. */
  function FateOf(total: nat): Fate {
    if total <= MAX_BUFFER then Written else if total < U32_LIMIT then NeverEnds else Overruns
  }

  /**
    The need passes through 32 bits before the loop sees it. So a growing write finds room for queue
    and data exactly up to 2^31; from there to 2^32 its loop never ends; and beyond, where the need has
    wrapped to something small, the loop ends at once with the old size, too small for queue and data.
   */
  lemma GrowthFate(cur: nat, len: nat, size: nat)
    requires BufferSize(cur) && len < cur <= len + size && size < U32_LIMIT
    ensures var total := len + size + 1; var need := U32(total);
      && (FateOf(total) == NeverEnds <==> forall k: nat :: Doubled(cur, k) < need)
      && (FateOf(total) == Written <==> exists r: nat :: FirstDoubling(cur, need, r) && len + size < r)
      && (FateOf(total) == Overruns <==> exists r: nat :: FirstDoubling(cur, need, r) && r <= len + size)
      && (FateOf(total) == Overruns ==> FirstDoubling(cur, need, cur))
  {
    hide Doubled, BufferSize;
    var total := len + size + 1;
    var need := U32(total);
    BufferSizeBounds(cur);
    GrowthTerminatesIff(cur, need);
    match FateOf(total)
    case Written =>
      var r := FirstExists(cur, need);
      OnlyFirst(cur, need, r);
    case NeverEnds =>
      assert forall k: nat :: Doubled(cur, k) < need;
    case Overruns =>
      NeedWraps(total);
      AtOnce(cur, need);
      OnlyFirst(cur, need, cur);
  }

  lemma AtOnce(cur: nat, need: nat)
    requires need <= cur
    ensures FirstDoubling(cur, need, cur) && Doubled(cur, 0) >= need
  {
    assert Doubled(cur, 0) == cur;
  }

  lemma NeedWraps(total: nat)
    requires U32_LIMIT <= total < 2 * U32_LIMIT
    ensures U32(total) == total - U32_LIMIT
  {
  }

  lemma FirstExists(cur: nat, need: nat) returns (r: nat)
    requires exists k: nat :: Doubled(cur, k) >= need
    ensures FirstDoubling(cur, need, r)
  {
    var k: nat :| Doubled(cur, k) >= need;
    var i: nat := 0;
    while Doubled(cur, i) < need
      invariant i <= k
      invariant forall m: nat :: m < i ==> Doubled(cur, m) < need
      decreases k - i
    {
      i := i + 1;
    }
    r := Doubled(cur, i);
  }

  lemma OnlyFirst(cur: nat, need: nat, r: nat)
    requires FirstDoubling(cur, need, r)
    ensures exists k: nat :: Doubled(cur, k) >= need
    ensures forall q: nat :: FirstDoubling(cur, need, q) ==> q == r
  {
    hide Doubled;
    var k: nat :| r == Doubled(cur, k) >= need && forall i: nat :: i < k ==> Doubled(cur, i) < need;
    forall q: nat | FirstDoubling(cur, need, q)
      ensures q == r
    {
      var m: nat :| q == Doubled(cur, m) >= need && forall i: nat :: i < m ==> Doubled(cur, i) < need;
      assert !(k < m) && !(m < k);
    }
  }

  /** An empty queue and a write of 2^31 bytes: the need is one more, and the loop never ends. */
  lemma EndlessHappens()
    ensures U32(0 + MAX_BUFFER + 1) == MAX_BUFFER + 1 && FateOf(0 + MAX_BUFFER + 1) == NeverEnds
    ensures BufferSize(ASYNC_BUFSIZE) && forall k: nat :: Doubled(ASYNC_BUFSIZE, k) < MAX_BUFFER + 1
  {
    assert Pow2(13) == ASYNC_BUFSIZE;
    GrowthTerminatesIff(ASYNC_BUFSIZE, MAX_BUFFER + 1);
  }

  /** An empty queue and a write of 2^32 - 1 bytes: the need is zero and the buffer stays at 8 KiB. */
  lemma OverrunHappens()
    ensures U32(0 + 0xFFFF_FFFF + 1) == 0 && FirstDoubling(ASYNC_BUFSIZE, 0, ASYNC_BUFSIZE)
    ensures FateOf(0 + 0xFFFF_FFFF + 1) == Overruns
  {
    assert Doubled(ASYNC_BUFSIZE, 0) == ASYNC_BUFSIZE;
  }

  // ---------------------------------------------------------------- the buffer

  /** What `buffer_ptrs` hands out: two stretches of the buffer, each an offset and a length. */
  datatype Buffers = Buffers(buf1: nat, len1: nat, buf2: nat, len2: nat)

  method MemCopy(dst: array<byte>, at: nat, src: seq<byte>)
    requires at + |src| <= dst.Length
    modifies dst
    ensures dst[..] == old(dst[..at]) + src + old(dst[at + |src|..])
    ensures dst[..at + |src|] == old(dst[..at]) + src
  {
    forall i | 0 <= i < |src| {
      dst[at + i] := src[i];
    }
  }

  /** The bytes between the read and the write position, going round the end if need be. */
  function Window(buffer: seq<byte>, readPos: nat, writePos: nat): (c: seq<byte>)
    requires readPos < |buffer| && writePos < |buffer|
  {
    if readPos <= writePos then buffer[readPos..writePos] else buffer[readPos..] + buffer[..writePos]
  }

  /** Byte `k` of the window sits `k` places after the read position, modulo the size. */
  lemma WindowAt(buffer: seq<byte>, readPos: nat, writePos: nat, k: nat)
    requires readPos < |buffer| && writePos < |buffer|
    requires k < |Window(buffer, readPos, writePos)|
    ensures Window(buffer, readPos, writePos)[k] == buffer[(readPos + k) % |buffer|]
  {
    LapIsModulo(readPos + k, |buffer|);
  }

  class AsyncBuffer {
    var buffer: array<byte>
    var bufferSize: nat
    var readPos: nat
    var writePos: nat

    ghost predicate Valid()
      reads this
    {
      && bufferSize == buffer.Length
      && BufferSize(bufferSize)
      && readPos < bufferSize
      && writePos < bufferSize
    }

    /** The queued bytes, oldest first. */
    ghost function Contents(): (c: seq<byte>)
      requires Valid()
      reads this, buffer
      ensures |c| < bufferSize
    {
      Window(buffer[..], readPos, writePos)
    }

    constructor ()
      ensures Valid() && fresh(buffer)
      ensures Contents() == [] && bufferSize == ASYNC_BUFSIZE
    {
      buffer := new byte[ASYNC_BUFSIZE];
      bufferSize := ASYNC_BUFSIZE;
      readPos := 0;
      writePos := 0;
      assert Pow2(13) == ASYNC_BUFSIZE;
    }

    method BufferPtrs() returns (b: Buffers)
      requires Valid()
      ensures b.buf1 + b.len1 <= bufferSize && b.buf2 + b.len2 <= bufferSize
      ensures Contents() == buffer[b.buf1..b.buf1 + b.len1] + buffer[b.buf2..b.buf2 + b.len2]
      ensures b.len1 + b.len2 == |Contents()|
      ensures b.len1 == 0 ==> b.len2 == 0
    {
      b := Buffers(0, 0, 0, 0);
      if readPos < writePos {
        b := Buffers(readPos, U32(writePos - readPos), 0, 0);
        BufferSizeBounds(bufferSize);
      } else if readPos > writePos {
        b := Buffers(readPos, U32(bufferSize - readPos), 0, writePos);
        BufferSizeBounds(bufferSize);
      }
    }

    method BufferLen() returns (n: nat)
      requires Valid()
      ensures n == |Contents()|
    {
      BufferSizeBounds(bufferSize);
      if writePos >= readPos {
        n := U32(writePos - readPos);
      } else {
        n := U32(U32(bufferSize + writePos) - readPos);
      }
    }

    /**
      `aio_write_unlocked`: appends exactly `data`, in place or after growing, up to 2^31 bytes in all.
      A write that would never end or would overrun the new buffer is only reported, before it does so.
     */
    method WriteUnlocked(data: seq<byte>) returns (fate: Fate)
      requires Valid() && |data| < U32_LIMIT
      modifies this, buffer
      ensures fate == FateOf(old(|Contents()|) + |data| + 1)
      ensures Valid() && (buffer == old(buffer) || fresh(buffer))
      ensures Contents() == if fate == Written then old(Contents()) + data else old(Contents())
      ensures old(|Contents()|) + |data| < old(bufferSize) || fate != Written ==>
        buffer == old(buffer) && readPos == old(readPos)
      ensures old(|Contents()|) + |data| >= old(bufferSize) && fate == Written ==>
        fresh(buffer) && readPos == 0 && bufferSize < 2 * (old(|Contents()|) + |data| + 1)
    {
      BufferSizeBounds(bufferSize);
      var len := BufferLen();
      var remaining := U32(bufferSize - len);
      if |data| < remaining {
        AppendInPlace(data);
        return Written;
      }
      var newWritten := U32(len + |data| + 1);
      var ends, nextSize := NextBufferSize(bufferSize, newWritten);
      GrowthFate(bufferSize, len, |data|);
      if !ends {
        return NeverEnds;
      }
      if nextSize < len + |data| {
        return Overruns;
      }
      Grow(data, len, nextSize);
      fate := Written;
    }

    /** The branch of `aio_write_unlocked` that stays within the present allocation. */
    method AppendInPlace(data: seq<byte>)
      requires Valid()
      requires |Contents()| + |data| < bufferSize
      modifies this`writePos, buffer
      ensures Valid()
      ensures Contents() == old(Contents()) + data
    {
      hide Window, Placed, BufferSize;
      BufferSizeBounds(bufferSize);
      var size := |data|;
      var rest := data;
      ghost var start := writePos;
      ghost var before := buffer[..];
      var remainingContiguous := U32(bufferSize - writePos);
      if size > remainingContiguous {
        MemCopy(buffer, writePos, rest[..remainingContiguous]);
        size := U32(size - remainingContiguous);
        rest := rest[remainingContiguous..];
        writePos := 0;
      }
      LapIsModulo(writePos + size, bufferSize);
      CopyTail(rest, before, start, data);
      writePos := U32(writePos + size) % bufferSize;
      AppendedWindow(before, readPos, start, data);
    }

    /** The last copy of `AppendInPlace`; `data` as a whole has then gone in at `start`. */
    method CopyTail(rest: seq<byte>, ghost before: seq<byte>, ghost start: nat, ghost data: seq<byte>)
      requires Valid() && |before| == bufferSize && start < bufferSize && |data| < bufferSize
      requires
        || (buffer[..] == before && writePos == start && rest == data && start + |data| <= bufferSize)
        || (var cut := bufferSize - start;
            && cut < |data| && writePos == 0 && rest == data[cut..]
            && buffer[..] == before[..start] + data[..cut])
      modifies buffer
      ensures buffer[..] == Placed(before, start, data)
    {
      hide Placed, BufferSize;
      if rest != data {
        WrappedPlaced(before, start, data);
      } else {
        StraightPlaced(before, start, data);
      }
      ghost var now := buffer[..];
      MemCopy(buffer, writePos, rest);
      assert buffer[..] == now[..writePos] + rest + now[writePos + |rest|..];
    }

    /** The branch of `aio_write_unlocked` that moves the queue to a larger allocation. */
    method Grow(data: seq<byte>, len: nat, nextSize: nat)
      requires Valid() && len == |Contents()|
      requires BufferSize(nextSize) && bufferSize <= len + |data| < nextSize
      modifies this
      ensures Valid() && fresh(buffer) && readPos == 0 && bufferSize == nextSize
      ensures Contents() == old(Contents()) + data
    {
      BufferSizeBounds(nextSize);
      var nextBuffer := new byte[nextSize];
      var nextLen := Linearise(nextBuffer);
      MemCopy(nextBuffer, nextLen, data);
      nextLen := U32(nextLen + |data|);

      buffer := nextBuffer;
      bufferSize := nextSize;
      readPos := 0;
      writePos := nextLen;
    }

    /** Lays the queue out from the start of a larger buffer. */
    method Linearise(nextBuffer: array<byte>) returns (nextLen: nat)
      requires Valid() && nextBuffer != buffer && bufferSize <= nextBuffer.Length
      modifies nextBuffer
      ensures nextLen == |Contents()| && nextBuffer[..nextLen] == Contents()
    {
      BufferSizeBounds(bufferSize);
      nextLen := 0;
      var buffers := BufferPtrs();
      if buffers.len1 != 0 {
        MemCopy(nextBuffer, nextLen, buffer[buffers.buf1..buffers.buf1 + buffers.len1]);
        nextLen := U32(nextLen + buffers.len1);
        if buffers.len2 != 0 {
          MemCopy(nextBuffer, nextLen, buffer[buffers.buf2..buffers.buf2 + buffers.len2]);
          nextLen := U32(nextLen + buffers.len2);
        }
      }
    }

    /** Copies `len` bytes of the queue behind the first `at` of `local`, or as many as fit. */
    method CopyClamped(local: array<byte>, at: nat, from: nat, len: nat) returns (n: nat)
      requires local != buffer && at <= local.Length == ASYNC_LOCAL_BUFSIZE && from + len <= buffer.Length
      modifies local
      ensures n == Least(len, ASYNC_LOCAL_BUFSIZE - at)
      ensures local[..at + n] == old(local[..at]) + buffer[from..from + len][..n]
    {
      n := len;
      if n > ASYNC_LOCAL_BUFSIZE - at {
        n := ASYNC_LOCAL_BUFSIZE - at;
      }
      assert buffer[from..from + n] == buffer[from..from + len][..n];
      MemCopy(local, at, buffer[from..from + n]);
    }

    /** Copies the front of the queue, at most 64 KiB, into the worker's own buffer. */
    method CopyChunk(local: array<byte>) returns (len1: nat, len2: nat)
      requires Valid() && local.Length == ASYNC_LOCAL_BUFSIZE && local != buffer
      modifies local
      ensures len1 + len2 == Least(|Contents()|, ASYNC_LOCAL_BUFSIZE)
      ensures local[..len1 + len2] == Contents()[..len1 + len2]
    {
      hide Window, BufferSize;
      var buffers := BufferPtrs();
      len1, len2 := 0, 0;
      ghost var front := buffer[buffers.buf1..buffers.buf1 + buffers.len1];
      ghost var back := buffer[buffers.buf2..buffers.buf2 + buffers.len2];
      ghost var queue := Contents();
      if buffers.len1 != 0 {
        len1 := CopyClamped(local, 0, buffers.buf1, buffers.len1);
        assert local[..len1] == front[..len1];
        if buffers.len2 != 0 {
          len2 := CopyClamped(local, len1, buffers.buf2, buffers.len2);
        }
      }
      assert local[..len1 + len2] == front[..len1] + back[..len2];
      PrefixOfConcat(front, back, len1, len2);
      assert Contents() == queue;
    }

    /** The worker's critical section: moves the front of the queue into its own buffer. */
    method TakeChunk(local: array<byte>) returns (n: nat)
      requires Valid() && local.Length == ASYNC_LOCAL_BUFSIZE && local != buffer
      modifies this`readPos, local
      ensures Valid()
      ensures n == Least(old(|Contents()|), ASYNC_LOCAL_BUFSIZE)
      ensures local[..n] == old(Contents())[..n]
      ensures Contents() == old(Contents())[n..]
    {
      BufferSizeBounds(bufferSize);
      var len1, len2 := CopyChunk(local);
      n := len1 + len2;
      ghost var r := readPos;
      LapIsModulo(readPos + n, bufferSize);
      readPos := U32(readPos + len1 + len2) % bufferSize;
      DroppedWindow(buffer[..], r, writePos, n, readPos);
    }
  }

  lemma PrefixOfConcat(front: seq<byte>, back: seq<byte>, m: nat, n: nat)
    requires m <= |front| && n <= |back|
    requires m == |front| || n == 0
    ensures front[..m] + back[..n] == (front + back)[..m + n]
  {
  }

  /** The buffer once `data` has been copied in at `at`, going round the end if need be. */
  function Placed(before: seq<byte>, at: nat, data: seq<byte>): (after: seq<byte>)
    requires at < |before| && |data| < |before|
    ensures |after| == |before|
  {
    if at + |data| <= |before| then
      before[..at] + data + before[at + |data|..]
    else
      var cut := |before| - at;
      data[cut..] + before[|data| - cut..at] + data[..cut]
  }

  lemma StraightPlaced(before: seq<byte>, at: nat, data: seq<byte>)
    requires at < |before| && |data| < |before|
    ensures at + |data| <= |before| ==> before[..at] + data + before[at + |data|..] == Placed(before, at, data)
  {
  }

  lemma WrappedPlaced(before: seq<byte>, at: nat, data: seq<byte>)
    requires at < |before| && |data| < |before| && |before| - at < |data|
    ensures var cut := |before| - at; var now := before[..at] + data[..cut];
      now[..0] + data[cut..] + now[0 + |data[cut..]|..] == Placed(before, at, data)
  {
  }

  lemma AppendedStraight(before: seq<byte>, readPos: nat, writePos: nat, data: seq<byte>)
    requires readPos < |before| && writePos < |before| && writePos + |data| < |before|
    requires |Window(before, readPos, writePos)| + |data| < |before|
    ensures var after := before[..writePos] + data + before[writePos + |data|..];
      Window(after, readPos, writePos + |data|) == Window(before, readPos, writePos) + data
  {
  }

  lemma AppendedToTheEnd(before: seq<byte>, readPos: nat, writePos: nat, data: seq<byte>)
    requires readPos < |before| && writePos < |before| && writePos + |data| == |before|
    requires |Window(before, readPos, writePos)| + |data| < |before|
    ensures Window(before[..writePos] + data, readPos, 0) == Window(before, readPos, writePos) + data
  {
  }

  lemma AppendedAround(before: seq<byte>, readPos: nat, writePos: nat, data: seq<byte>)
    requires readPos < |before| && writePos < |before| < writePos + |data|
    requires |Window(before, readPos, writePos)| + |data| < |before|
    ensures var cut := |before| - writePos;
      var after := data[cut..] + before[|data| - cut..writePos] + data[..cut];
      Window(after, readPos, |data| - cut) == Window(before, readPos, writePos) + data
  {
  }

  /** Copying `data` in at the write position and moving that position on appends to the window. */
  lemma AppendedWindow(before: seq<byte>, readPos: nat, writePos: nat, data: seq<byte>)
    requires readPos < |before| && writePos < |before|
    requires |Window(before, readPos, writePos)| + |data| < |before|
    ensures Window(Placed(before, writePos, data), readPos, Lap(writePos + |data|, |before|))
         == Window(before, readPos, writePos) + data
  {
    if writePos + |data| < |before| {
      AppendedStraight(before, readPos, writePos, data);
    } else if writePos + |data| == |before| {
      AppendedToTheEnd(before, readPos, writePos, data);
      assert before[..writePos] + data + before[|before|..] == before[..writePos] + data;
    } else {
      AppendedAround(before, readPos, writePos, data);
    }
    hide Window;
  }

  /** Advancing the read position by `n` drops the first `n` bytes of the window. */
  lemma DroppedWindow(buffer: seq<byte>, readPos: nat, writePos: nat, n: nat, newRead: nat)
    requires readPos < |buffer| && writePos < |buffer|
    requires n <= |Window(buffer, readPos, writePos)|
    requires newRead == Lap(readPos + n, |buffer|)
    ensures Window(buffer, newRead, writePos) == Window(buffer, readPos, writePos)[n..]
  {
  }
}
