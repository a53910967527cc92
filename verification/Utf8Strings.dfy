/**
  Copying, appending and truncating zero-terminated UTF-8 text: on valid text each of them leaves
  the longest prefix of whole code points that fits.
 */
module Utf8Strings {
  import opened Bytes
  import opened Utf8

  // ---------------------------------------------------------------- text and code points

  /** Code points that can occur in a zero-terminated string. */
  predicate Codes(cs: seq<int>) {
    forall i :: 0 <= i < |cs| ==> Scalar(cs[i]) && cs[i] != 0
  }

  function Text(cs: seq<int>): seq<byte> {
    if cs == [] then [] else Encode(cs[0]) + Text(cs[1..])
  }

  /** How many leading code points fit into `m` bytes. */
  function Fit(cs: seq<int>, m: nat): (k: nat)
    ensures k <= |cs|
  {
    if cs == [] || |Encode(cs[0])| > m then 0 else 1 + Fit(cs[1..], m - |Encode(cs[0])|)
  }

  lemma {:induction false} TextAppend(a: seq<int>, b: seq<int>)
    ensures Text(a + b) == Text(a) + Text(b)
    decreases |a|
  {
    hide Encode;
    if a == [] {
      assert a + b == b;
    } else {
      TextAppend(a[1..], b);
      assert (a + b)[1..] == a[1..] + b;
    }
  }

  /** `Fit` is the largest count of whole code points that fit. */
  lemma {:induction false} FitIsLargest(cs: seq<int>, m: nat)
    ensures var k := Fit(cs, m);
      && |Text(cs[..k])| <= m
      && (k < |cs| ==> m < |Text(cs[..k + 1])|)
    decreases |cs|
  {
    hide Encode;
    if cs != [] && |Encode(cs[0])| <= m {
      var rest := m - |Encode(cs[0])|;
      FitIsLargest(cs[1..], rest);
      var k := Fit(cs, m);
      assert cs[..k][1..] == cs[1..][..k - 1];
      if k < |cs| {
        assert cs[..k + 1][1..] == cs[1..][..k];
      }
    } else if cs != [] {
      assert cs[..1][1..] == [];
      assert Text(cs[..1]) == Encode(cs[0]) + [];
    }
  }

  lemma TextOfOne(c: int)
    ensures Text([c]) == Encode(c)
  {
    hide Encode;
    assert [c][1..] == [];
    assert Text([c]) == Encode(c) + Text([]);
  }

  lemma TextNext(cs: seq<int>, k: nat)
    requires k < |cs|
    ensures Text(cs[..k + 1]) == Text(cs[..k]) + Encode(cs[k])
  {
    hide Encode;
    TextAppend(cs[..k], [cs[k]]);
    TextOfOne(cs[k]);
    assert cs[..k + 1] == cs[..k] + [cs[k]];
  }

  /** The text falls into the code points before `k`, code point `k`, and the rest. */
  lemma TextAround(cs: seq<int>, k: nat)
    requires k < |cs|
    ensures Text(cs) == Text(cs[..k]) + Encode(cs[k]) + Text(cs[k + 1..])
  {
    hide Encode, Text;
    TextNext(cs, k);
    TextAppend(cs[..k + 1], cs[k + 1..]);
    assert cs == cs[..k + 1] + cs[k + 1..];
  }

  lemma EncodeShape(c: int)
    requires Scalar(c)
    ensures var t := Encode(c);
      && t != [] && !Tail(t[0]) && Needed(t[0]) == |t| - 1
      && (forall i :: 0 < i < |t| ==> Tail(t[i]))
      && (c != 0 ==> 0 !in t)
  {
    var t := Encode(c);
    ValueOfEncode(c);
    GrammarByFirstByte(t);
  }

  lemma {:induction false} TextHasNoZero(cs: seq<int>)
    requires Codes(cs)
    ensures 0 !in Text(cs)
    decreases |cs|
  {
    hide Encode;
    if cs != [] {
      EncodeShape(cs[0]);
      TextHasNoZero(cs[1..]);
    }
  }

  // ---------------------------------------------------------------- the string functions

  /** The offset of the terminator. */
  function StrLength(s: seq<byte>): (n: nat)
    requires 0 in s
    ensures n < |s| && s[n] == 0 && 0 !in s[..n]
  {
    if s[0] == 0 then 0 else
      var n := 1 + StrLength(s[1..]);
      assert s[..n] == [s[0]] + s[1..][..n - 1];
      n
  }

  /** The string that starts at the front of `s`. */
  function Str(s: seq<byte>): seq<byte>
    requires 0 in s
  {
    s[..StrLength(s)]
  }

  lemma {:induction false} StrLengthIs(s: seq<byte>, n: nat)
    requires n < |s| && s[n] == 0 && 0 !in s[..n]
    ensures 0 in s && StrLength(s) == n
    decreases n
  {
    if 0 < n {
      assert s[0] == s[..n][0];
      assert s[1..][..n - 1] == s[..n][1..];
      StrLengthIs(s[1..], n - 1);
    }
  }

  lemma StrIs(s: seq<byte>, t: seq<byte>)
    requires t + [0] <= s && 0 !in t
    ensures 0 in s && Str(s) == t && StrLength(s) == |t|
  {
    assert s[|t|] == (t + [0])[|t|] == 0;
    assert s[..|t|] == t;
    StrLengthIs(s, |t|);
  }

  predicate IsStart(b: byte) {
    b / 64 != 2
  }

  function Rewind(s: seq<byte>, cursor: nat): nat
    requires cursor <= |s|
  {
    if cursor == 0 then 0 else if IsStart(s[cursor - 1]) then cursor - 1 else Rewind(s, cursor - 1)
  }

  method StrUtf8Rewind(s: seq<byte>, start: nat) returns (cursor: nat)
    requires start <= |s|
    ensures cursor == Rewind(s, start) <= start && (0 < start ==> cursor < start)
    ensures cursor == 0 || IsStart(s[cursor])
    ensures forall i :: cursor < i < start ==> !IsStart(s[i])
  {
    cursor := start;
    while cursor != 0
      invariant cursor <= start
      invariant Rewind(s, cursor) == Rewind(s, start)
      invariant forall i :: cursor <= i < start ==> !IsStart(s[i])
    {
      cursor := cursor - 1;
      if IsStart(s[cursor]) {
        break;
      }
    }
  }

  lemma {:induction false} RewindTo(s: seq<byte>, cursor: nat, p: nat)
    requires p < cursor <= |s| && !Tail(s[p])
    requires forall i :: p < i < cursor ==> Tail(s[i])
    ensures Rewind(s, cursor) == p
    decreases cursor
  {
    if p < cursor - 1 {
      RewindTo(s, cursor - 1, p);
    }
  }

  /** The length to which a string cut off anywhere is repaired. */
  ghost function FixedLength(t: seq<byte>): (n: nat)
    ensures n <= |t|
  {
    RewindBound(t, |t|);
    var p := Rewind(t, |t|);
    if t != [] && NothingAt(t + [0], p) then p else |t|
  }

  lemma {:induction false} RewindBound(s: seq<byte>, cursor: nat)
    requires cursor <= |s|
    ensures Rewind(s, cursor) <= cursor
  {
    if 0 < cursor {
      RewindBound(s, cursor - 1);
    }
  }

  /** Valid text cut off after `m` bytes is repaired to the whole code points within them. */
  lemma CutTextIsFixed(cs: seq<int>, m: nat)
    requires Codes(cs) && m <= |Text(cs)|
    ensures Text(cs)[..m][..FixedLength(Text(cs)[..m])] == Text(cs[..Fit(cs, m)])
  {
    hide Encode;
    FitIsLargest(cs, m);
    var k := Fit(cs, m);
    var t := Text(cs)[..m];
    var whole := Text(cs[..k]);
    TextAppend(cs[..k], cs[k..]);
    assert cs == cs[..k] + cs[k..];
    assert t[..|whole|] == whole;
    if k < |cs| {
      TextAround(cs, k);
      TextNext(cs, k);
    } else {
      assert cs[..k] == cs;
    }
    if m == |whole| {
      assert t == whole;
      WholeTextStays(cs[..k]);
    } else {
      PartialCodeGoes(whole, cs[k], t);
    }
  }

  lemma WholeTextStays(cs: seq<int>)
    requires Codes(cs)
    ensures FixedLength(Text(cs)) == |Text(cs)|
  {
    if cs != [] {
      hide Encode;
      var k := |cs| - 1;
      TextNext(cs, k);
      assert cs[..k + 1] == cs;
      LastCodeStays(Text(cs[..k]), cs[k], Text(cs));
    }
  }

  lemma LastCodeStays(before: seq<byte>, c: int, t: seq<byte>)
    requires Scalar(c) && t == before + Encode(c)
    ensures FixedLength(t) == |t|
  {
    hide Encode;
    var p := |before|;
    EncodeShape(c);
    RewindTo(t, |t|, p);
    assert (t + [0])[p..] == Encode(c) + [0];
  }

  lemma PartialCodeGoes(whole: seq<byte>, c: int, t: seq<byte>)
    requires Scalar(c) && whole <= t && |whole| < |t| < |whole| + |Encode(c)|
    requires t <= whole + Encode(c)
    ensures FixedLength(t) == |whole|
  {
    hide Encode;
    var p := |whole|;
    var s := t + [0];
    EncodeShape(c);
    assert forall i :: p <= i < |t| ==> t[i] == Encode(c)[i - p];
    RewindTo(t, |t|, p);
    assert s[p] == Encode(c)[0] && s[|t|] == 0;
    BrokenOff(s, p, |t|);
  }

  // ---------------------------------------------------------------- the buffer operations

  method StrUtf8FixTruncation(str: array<byte>) returns (len: nat)
    requires 0 in str[..]
    modifies str
    ensures len == FixedLength(old(Str(str[..])))
    ensures str[..] == old(str[..]) || (len < str.Length && str[..] == old(str[..])[len := 0])
    ensures 0 in str[..] && Str(str[..]) == old(Str(str[..]))[..len]
  {
    ghost var before := str[..];
    len := StrLength(str[..]);
    ghost var t := str[..len];
    if len > 0 {
      var lastCharIndex := StrUtf8Rewind(str[..len], len);
      assert str[..len + 1] == t + [0];
      ghost var next;
      var cp;
      cp, next := StrUtf8Decode(str[..len + 1], lastCharIndex);
      if cp == -1 {
        len := lastCharIndex;
        str[len] := 0;
        StrIs(str[..], t[..len]);
        return;
      }
      DecodedMeansSomething(t + [0], lastCharIndex, next, cp);
    }
    assert t[..len] == t;
  }

  lemma DecodedMeansSomething(s: seq<byte>, start: nat, next: nat, cp: int)
    requires start < next <= |s| && Scalar(cp) && s[start..next] == Encode(cp)
    ensures !NothingAt(s, start)
  {
    hide Encode;
    assert Encode(cp) <= s[start..];
  }

  /** `strncat` onto an empty string: at most `n` bytes of `src`, then a terminator. */
  method CopyUpTo(dst: array<byte>, src: seq<byte>, n: nat)
    requires 0 in src && n < dst.Length
    modifies dst
    ensures 0 in dst[..] && Str(dst[..]) == Str(src)[..Least(|Str(src)|, n)]
    ensures dst[n + 1..] == old(dst[n + 1..])
  {
    var len := StrLength(src);
    if n < len {
      len := n;
    }
    forall i | 0 <= i < len {
      dst[i] := src[i];
    }
    dst[len] := 0;
    assert dst[..len] == src[..len] == Str(src)[..len];
    assert dst[..len + 1] == dst[..len] + [0];
    StrIs(dst[..], src[..len]);
  }

  /** What is left of `t` in a buffer of `dstSize` bytes after repair. */
  ghost function Kept(t: seq<byte>, dstSize: nat): seq<byte>
    requires 1 <= dstSize
  {
    var cut := t[..Least(|t|, dstSize - 1)];
    cut[..FixedLength(cut)]
  }

  /** Valid text keeps its longest prefix of whole code points that leaves room for the terminator. */
  lemma KeptIsLongest(cs: seq<int>, dstSize: nat)
    requires Codes(cs) && 1 <= dstSize
    ensures Kept(Text(cs), dstSize) == Text(cs[..Fit(cs, dstSize - 1)])
  {
    hide FixedLength;
    var t := Text(cs);
    CutTextIsFixed(cs, Least(|t|, dstSize - 1));
    if |t| < dstSize - 1 {
      FitsWhole(cs, dstSize - 1);
      FitsWhole(cs, |t|);
    }
  }

  lemma {:induction false} FitsWhole(cs: seq<int>, m: nat)
    requires |Text(cs)| <= m
    ensures Fit(cs, m) == |cs|
    decreases |cs|
  {
    hide Encode;
    if cs != [] {
      FitsWhole(cs[1..], m - |Encode(cs[0])|);
    }
  }

  method StrCopy(dst: array<byte>, src: seq<byte>, dstSize: nat) returns (n: nat)
    requires 0 in src && 1 <= dstSize <= dst.Length
    modifies dst
    ensures 0 in dst[..] && Str(dst[..]) == Kept(Str(src), dstSize) && n == |Str(dst[..])|
    ensures forall cs :: Codes(cs) && Text(cs) == Str(src) ==> Str(dst[..]) == Text(cs[..Fit(cs, dstSize - 1)])
    ensures dst[dstSize..] == old(dst[dstSize..])
  {
    hide FixedLength;
    dst[0] := 0;
    CopyUpTo(dst, src, dstSize - 1);
    ghost var copied := dst[..];
    n := StrUtf8FixTruncation(dst);
    assert n <= dstSize - 1;
    assert dst[dstSize..] == copied[dstSize..];
    forall cs | Codes(cs) && Text(cs) == Str(src)
      ensures Kept(Str(src), dstSize) == Text(cs[..Fit(cs, dstSize - 1)])
    {
      KeptIsLongest(cs, dstSize);
    }
  }

  method StrAppend(dst: array<byte>, src: seq<byte>, dstSize: nat)
    requires 0 in dst[..] && 0 in src && 1 <= dstSize <= dst.Length
    modifies dst
    ensures 0 in dst[..] && Str(dst[..]) == Kept(old(Str(dst[..])) + Str(src), dstSize)
    ensures forall cs, ds :: Codes(cs) && Codes(ds) && Text(cs) == old(Str(dst[..])) && Text(ds) == Str(src) ==>
      Str(dst[..]) == Text((cs + ds)[..Fit(cs + ds, dstSize - 1)])
    ensures dst[dstSize..] == old(dst[dstSize..])
  {
    hide FixedLength;
    ghost var t := Str(dst[..]) + Str(src);
    ghost var cut := t[..Least(|t|, dstSize - 1)];
    AppendLoop(dst, src, dstSize);
    dst[dstSize - 1] := 0;
    assert dst[..|cut|] == cut;
    assert cut + [0] <= dst[..];
    StrIs(dst[..], cut);
    ghost var copied := dst[..];
    var n := StrUtf8FixTruncation(dst);
    assert dst[dstSize..] == copied[dstSize..];
    AppendedIsLongest(t, dstSize);
  }

  /** Valid text behind valid text keeps the longest prefix of the code points of both. */
  lemma AppendedIsLongest(t: seq<byte>, dstSize: nat)
    requires 1 <= dstSize
    ensures forall cs, ds :: Codes(cs) && Codes(ds) && Text(cs) + Text(ds) == t ==>
      Kept(t, dstSize) == Text((cs + ds)[..Fit(cs + ds, dstSize - 1)])
  {
    hide Kept, Text, Fit;
    forall cs, ds | Codes(cs) && Codes(ds) && Text(cs) + Text(ds) == t
      ensures Kept(t, dstSize) == Text((cs + ds)[..Fit(cs + ds, dstSize - 1)])
    {
      TextAppend(cs, ds);
      KeptIsLongest(cs + ds, dstSize);
    }
  }

  /** The copying loop of `str_append`. */
  method AppendLoop(dst: array<byte>, src: seq<byte>, dstSize: nat)
    requires 0 in dst[..] && 0 in src && 1 <= dstSize <= dst.Length
    modifies dst
    ensures var t := old(Str(dst[..])) + Str(src);
      && (|t| < dstSize ==> dst[..|t| + 1] == t + [0])
      && (dstSize <= |t| ==> dst[..dstSize] == t[..dstSize])
      && 0 !in t
    ensures dst[dstSize..] == old(dst[dstSize..])
  {
    var s := StrLength(dst[..]);
    var i := 0;
    ghost var len := s;
    ghost var t := Str(dst[..]) + Str(src);
    StringsJoined(dst[..], src);
    hide Str;
    while s < dstSize
      invariant i <= StrLength(src) && s == len + i && (s <= dstSize || i == 0)
      invariant forall k :: 0 <= k < s ==> dst[k] == t[k]
      invariant dst[dstSize..] == old(dst[dstSize..])
    {
      dst[s] := src[i];
      if src[i] == 0 {
        assert dst[..s + 1] == t + [0];
        break;
      }
      s := s + 1;
      i := i + 1;
    }
  }

  lemma StringsJoined(a: seq<byte>, b: seq<byte>)
    requires 0 in a && 0 in b
    ensures var t := Str(a) + Str(b); var m, n := StrLength(a), StrLength(b);
      && |t| == m + n && 0 !in t && m < |a| && n < |b| && b[n] == 0
      && (forall k :: 0 <= k < m ==> t[k] == a[k]) && (forall k :: m <= k < m + n ==> t[k] == b[k - m] != 0)
  {
  }

  // ---------------------------------------------------------------- walking over the text

  /** Text decodes in only one way: a prefix of the text is the text of a prefix. */
  lemma {:induction false} TextPrefix(cs: seq<int>, ds: seq<int>)
    requires Codes(cs) && Codes(ds) && Text(cs) <= Text(ds)
    ensures cs <= ds
    decreases |cs|
  {
    hide Encode;
    if cs != [] {
      var s := Text(ds);
      EncodeShape(cs[0]);
      assert ds != [];
      EncodeShape(ds[0]);
      assert s[0..] == s;
      PrefixFree(s, 0, cs[0], ds[0]);
      var n := |Encode(cs[0])|;
      assert Text(cs)[n..] == Text(cs[1..]) && s[n..] == Text(ds[1..]);
      TextPrefix(cs[1..], ds[1..]);
    }
  }

  /** The code point at a boundary of the text is what the decoder finds there. */
  lemma CodeAtBoundary(cs: seq<int>, k: nat)
    requires Codes(cs) && k < |cs|
    ensures |Text(cs[..k])| < |Text(cs)|
    ensures Encode(cs[k]) <= (Text(cs) + [0])[|Text(cs[..k])|..]
  {
    hide Encode;
    TextAround(cs, k);
    EncodeShape(cs[k]);
  }

  lemma {:induction false} FitAtLeast(cs: seq<int>, m: nat, k: nat)
    requires k <= |cs| && |Text(cs[..k])| <= m
    ensures k <= Fit(cs, m)
    decreases |cs|
  {
    hide Encode;
    if 0 < k {
      assert cs[..k][1..] == cs[1..][..k - 1];
      FitAtLeast(cs[1..], m - |Encode(cs[0])|, k - 1);
    }
  }

  lemma FitIs(cs: seq<int>, m: nat, k: nat)
    requires k <= |cs| && |Text(cs[..k])| <= m
    requires k < |cs| ==> m < |Text(cs[..k + 1])|
    ensures Fit(cs, m) == k
  {
    hide Encode, Text;
    FitAtLeast(cs, m, k);
    FitIsLargest(cs, m);
    if k < |cs| {
      TextMonotone(cs, k + 1, Fit(cs, m));
    }
  }

  lemma TextMonotone(cs: seq<int>, i: nat, j: nat)
    requires i <= |cs| && j <= |cs|
    ensures i <= j ==> |Text(cs[..i])| <= |Text(cs[..j])|
  {
    hide Encode;
    if i <= j {
      TextAppend(cs[..i], cs[i..j]);
      assert cs[..j] == cs[..i] + cs[i..j];
    }
  }

  /** `str_utf8_check`: accepts exactly the texts of code points. */
  method StrUtf8Check(str: seq<byte>) returns (ok: bool)
    requires 0 in str
    ensures ok <==> exists cs :: Codes(cs) && Text(cs) == Str(str)
  {
    hide Encode;
    var s := str[..StrLength(str) + 1];
    var cursor := 0;
    ghost var t := Str(str);
    ghost var seen: seq<int> := [];
    assert s == t + [0];
    while true
      invariant cursor <= |t|
      invariant Codes(seen) && Text(seen) == s[..cursor]
      decreases |s| - cursor
    {
      var codepoint, next := StrUtf8Decode(s, cursor);
      if codepoint == -1 {
        assert t[..cursor] == s[..cursor];
        NotText(seen, t);
        return false;
      }
      if codepoint == 0 {
        ZeroIsEnd(t, cursor, next);
        return true;
      }
      TextAppend(seen, [codepoint]);
      TextOfOne(codepoint);
      seen := seen + [codepoint];
      assert s[..next] == s[..cursor] + s[cursor..next];
      cursor := next;
    }
  }

  lemma NotText(seen: seq<int>, t: seq<byte>)
    requires Codes(seen) && Text(seen) <= t && NothingAt(t + [0], |Text(seen)|)
    ensures forall cs :: Codes(cs) ==> Text(cs) != t
  {
    hide Encode;
    forall cs | Codes(cs) && Text(cs) == t
      ensures false
    {
      TextPrefix(seen, cs);
      assert cs[..|seen|] == seen;
      if |seen| < |cs| {
        CodeAtBoundary(cs, |seen|);
      } else {
        assert seen == cs;
        assert (t + [0])[|t|..] == [0];
        EncodeOfZero();
      }
    }
  }

  lemma EncodeOfZero()
    ensures Encode(0) == [0] && Scalar(0)
  {
  }

  lemma ZeroIsEnd(t: seq<byte>, cursor: nat, next: nat)
    requires 0 !in t && cursor < next <= |t| + 1 && (t + [0])[cursor..next] == Encode(0)
    ensures cursor == |t| && (t + [0])[..cursor] == t
  {
    EncodeOfZero();
    assert (t + [0])[cursor] == (t + [0])[cursor..next][0] == 0;
  }

  /** How many code points `str_utf8_truncate` keeps of the text of `cs`. */
  function Truncated(cs: seq<int>, dstSize: nat, truncationLen: nat): (k: nat)
    requires 1 <= dstSize
    ensures k <= |cs|
  {
    Least(truncationLen, Fit(cs, dstSize - 1))
  }

  /**
    `str_utf8_truncate`: a copy of at most `truncationLen` code points that fits the buffer. Under a
    negative limit the bound of the copy wraps around: the source is copied whole, past `dstSize` if need
    be, and past the allocation unless that has room for it, which the result `ok` reports beforehand.
   */
  method StrUtf8Truncate(dst: array<byte>, dstSize: nat, src: seq<byte>, truncationLen: int) returns (ok: bool)
    requires 0 in src && 1 <= dstSize <= dst.Length
    modifies dst
    ensures ok <==> 0 <= truncationLen || |Str(src)| < dst.Length
    ensures ok ==> 0 in dst[..] && Str(dst[..]) <= Str(src)
    ensures ok && 0 <= truncationLen ==> |Str(dst[..])| < dstSize && dst[dstSize..] == old(dst[dstSize..])
    ensures ok ==> forall cs :: Codes(cs) && Text(cs) == Str(src) ==>
      Str(dst[..]) == if truncationLen < 0 then Text(cs) else Text(cs[..Truncated(cs, dstSize, truncationLen)])
    ensures ok && truncationLen < 0 ==> dst[|Str(src)| + 1..] == old(dst[|Str(src)| + 1..])
    ensures !ok ==> dst[..] == old(dst[..])
  {
    hide Encode, FixedLength, Fit, Truncated;
    var size := TruncationSize(dstSize, src, truncationLen);
    ok := size != -1 || StrLength(src) < dst.Length;
    if size != -1 {
      ghost var before := dst[..];
      var _ := StrCopy(dst, src, size + 1);
      assert dst[dstSize..] == dst[size + 1..][dstSize - size - 1..];
      assert before[dstSize..] == before[size + 1..][dstSize - size - 1..];
      forall cs | Codes(cs) && Text(cs) == Str(src)
        ensures Str(dst[..]) == Text(cs[..Truncated(cs, dstSize, truncationLen)])
      {
        FitExactly(cs, Truncated(cs, dstSize, truncationLen));
      }
    } else if ok {
      var _ := StrCopy(dst, src, StrLength(src) + 1);
      forall cs | Codes(cs) && Text(cs) == Str(src)
        ensures Str(dst[..]) == Text(cs)
      {
        FitsWhole(cs, |Str(src)|);
        assert cs[..|cs|] == cs;
      }
    }
  }

  lemma FitExactly(cs: seq<int>, k: nat)
    requires Codes(cs) && k <= |cs|
    ensures Fit(cs, |Text(cs[..k])|) == k
  {
    hide Encode, Text, Fit;
    if k < |cs| {
      TextNext(cs, k);
      EncodeShape(cs[k]);
    }
    FitIs(cs, |Text(cs[..k])|, k);
  }

  /** The loop of `str_utf8_truncate`: how many bytes to copy. */
  method TruncationSize(dstSize: nat, src: seq<byte>, truncationLen: int) returns (size: int)
    requires 0 in src && 1 <= dstSize
    ensures size < dstSize && size <= |Str(src)| && if truncationLen < 0 then size == -1 else 0 <= size
    ensures 0 <= truncationLen ==> forall cs :: Codes(cs) && Text(cs) == Str(src) ==>
              size == |Text(cs[..Truncated(cs, dstSize, truncationLen)])|
  {
    hide Encode, Fit, Truncated, Walked, Text, Codes;
    var s := src[..StrLength(src) + 1];
    ghost var t := Str(src);
    assert s == t + [0];
    size := -1;
    var cursor := 0;
    var pos := 0;
    ghost var limit: nat := if truncationLen < 0 then 0 else truncationLen;
    WalkStart(dstSize, limit);
    while pos <= truncationLen && cursor < dstSize && size != cursor
      invariant cursor <= |s| && 0 <= pos && -1 <= size < cursor && size < dstSize && size <= |t|
      invariant if pos == 0 then size == -1 && cursor == 0 else 0 <= size && 0 <= truncationLen
      invariant forall cs :: Codes(cs) && Text(cs) == t ==> Walked(cs, dstSize, limit, pos, cursor, size)
      invariant cursor <= |t|
      decreases |s| - cursor
    {
      ghost var last := size;
      size := cursor;
      var codepoint, next := StrUtf8Decode(s, cursor);
      if codepoint == 0 {
        ZeroIsEnd(t, cursor, next);
        forall cs | Codes(cs) && Text(cs) == t
          ensures size == |Text(cs[..Truncated(cs, dstSize, limit)])|
        {
          WalkedToEnd(cs, dstSize, limit, pos, cursor, last);
        }
        return;
      }
      forall cs | Codes(cs) && Text(cs) == t
        ensures Walked(cs, dstSize, limit, pos + 1, next, size)
      {
        WalkStep(cs, dstSize, limit, pos, cursor, last, s, codepoint, next);
      }
      cursor := next;
      pos := pos + 1;
    }
    if 0 <= truncationLen {
      forall cs | Codes(cs) && Text(cs) == t
        ensures size == |Text(cs[..Truncated(cs, dstSize, limit)])|
      {
        WalkedFar(cs, dstSize, limit, pos, cursor, size);
      }
    }
  }

  /** On the text of `cs`, `cursor` stands before code point `pos` and `size` before the one before. */
  ghost predicate Walked(cs: seq<int>, dstSize: nat, truncationLen: nat, pos: nat, cursor: nat, size: int) {
    && pos <= |cs| && pos <= truncationLen + 1
    && cursor == |Text(cs[..pos])|
    && (0 < pos ==> size == |Text(cs[..pos - 1])| && size < dstSize)
  }

  lemma WalkStart(dstSize: nat, truncationLen: nat)
    ensures forall cs :: Codes(cs) ==> Walked(cs, dstSize, truncationLen, 0, 0, -1)
  {
  }

  lemma WalkStep(cs: seq<int>, dstSize: nat, truncationLen: nat, pos: nat, cursor: nat, size: int,
                 s: seq<byte>, codepoint: int, next: nat)
    requires Codes(cs) && s == Text(cs) + [0] && cursor <= |Text(cs)|
    requires Walked(cs, dstSize, truncationLen, pos, cursor, size) && pos <= truncationLen && cursor < dstSize
    requires forall c :: Scalar(c) && Encode(c) <= s[cursor..] ==> codepoint == c && next == cursor + |Encode(c)|
    requires codepoint != 0
    ensures Walked(cs, dstSize, truncationLen, pos + 1, next, cursor)
  {
    hide Encode;
    EncodeOfZero();
    if pos == |cs| {
      OnlyZeroLeft(cs, pos, s);
    } else {
      CodeAtBoundary(cs, pos);
      TextNext(cs, pos);
    }
  }

  lemma OnlyZeroLeft(cs: seq<int>, pos: nat, s: seq<byte>)
    requires pos == |cs| && s == Text(cs) + [0]
    ensures |Text(cs[..pos])| == |Text(cs)| && s[|Text(cs)|..] == [0]
  {
    assert cs[..pos] == cs;
  }

  lemma WalkedToEnd(cs: seq<int>, dstSize: nat, truncationLen: nat, pos: nat, cursor: nat, size: int)
    requires Codes(cs) && Walked(cs, dstSize, truncationLen, pos, cursor, size)
    requires cursor == |Text(cs)| && cursor < dstSize && pos <= truncationLen
    ensures cursor == |Text(cs[..Truncated(cs, dstSize, truncationLen)])|
  {
    hide Encode;
    FitsWhole(cs, dstSize - 1);
    if pos < |cs| {
      CodeAtBoundary(cs, pos);
    }
    assert cs[..|cs|] == cs;
  }

  lemma WalkedFar(cs: seq<int>, dstSize: nat, truncationLen: nat, pos: nat, cursor: nat, size: int)
    requires Codes(cs) && 1 <= dstSize && 0 < pos && Walked(cs, dstSize, truncationLen, pos, cursor, size)
    requires truncationLen < pos || dstSize <= cursor
    ensures size == |Text(cs[..Truncated(cs, dstSize, truncationLen)])|
  {
    hide Encode;
    FitAtLeast(cs, dstSize - 1, pos - 1);
    if dstSize <= cursor {
      FitIs(cs, dstSize - 1, pos - 1);
    }
  }
}
