/**
  The text of an IPv6 address: the first longest run of zero groups is collapsed as section 4.2 of
  RFC 5952 asks, the text always fits its buffer, and reading it gives back address and port.
 */
module Ipv6Text {
  import opened Bytes
  import opened Wrappers

  /** [XXXX:XXXX:XXXX:XXXX:XXXX:XXXX:XXXX:XXXX]:XXXXX and the terminator. */
  const NETADDR_MAXSTRSIZE := 1 + (8 * 4 + 7) + 1 + 1 + 5 + 1

  /** Eight groups of 16 bits. */
  predicate Address(ip: seq<int>) {
    |ip| == 8 && forall i :: 0 <= i < 8 ==> 0 <= ip[i] < 0x1_0000
  }

  // ---------------------------------------------------------------- numbers

  function DigitChar(d: nat): char
    requires d < 16
  {
    if d < 10 then ('0' as int + d) as char else ('a' as int + (d - 10)) as char
  }

  /** What a digit stands for; -1 for anything else. */
  function DigitOf(c: char): (d: int)
    ensures -1 <= d < 16
  {
    if '0' <= c <= '9' then c as int - '0' as int
    else if 'a' <= c <= 'f' then c as int - 'a' as int + 10
    else -1
  }

  /** `%x` and `%d` of a number that is not negative. */
  function Digits(n: nat, base: nat): (t: string)
    requires 2 <= base <= 16
    ensures t != ""
  {
    if n < base then [DigitChar(n)] else Digits(n / base, base) + [DigitChar(n % base)]
  }

  predicate Numeral(t: string, base: nat) {
    forall i :: 0 <= i < |t| ==> 0 <= DigitOf(t[i]) < base
  }

  function Value(t: string, base: nat): (n: int)
  {
    if t == "" then 0 else Value(t[..|t| - 1], base) * base + DigitOf(t[|t| - 1])
  }

  lemma DigitCharMeans(d: nat)
    requires d < 16
    ensures DigitOf(DigitChar(d)) == d && (d != 0 ==> DigitChar(d) != '0')
  {
  }

  lemma ValueAppend(t: string, c: char, base: nat)
    ensures Value(t + [c], base) == Value(t, base) * base + DigitOf(c)
  {
    assert (t + [c])[..|t|] == t;
  }

  lemma QuotientRemainder(n: nat, base: nat)
    requires 2 <= base <= n
    ensures 0 < n / base < n && n / base * base + n % base == n
  {
  }

  /** Digits mean the number they were made from, and there is no leading zero. */
  lemma {:induction false} DigitsMean(n: nat, base: nat)
    requires 2 <= base <= 16
    ensures Numeral(Digits(n, base), base) && Value(Digits(n, base), base) == n
    ensures n != 0 ==> Digits(n, base)[0] != '0'
  {
    hide DigitChar, DigitOf, Value;
    if n >= base {
      QuotientRemainder(n, base);
      DigitsMean(n / base, base);
      DigitCharMeans(n % base);
      ValueAppend(Digits(n / base, base), DigitChar(n % base), base);
    } else {
      DigitCharMeans(n);
      ValueOfDigit(n, base);
    }
  }

  lemma ValueOfDigit(n: nat, base: nat)
    requires n < base <= 16
    ensures Value([DigitChar(n)], base) == n
  {
    DigitCharMeans(n);
    assert [DigitChar(n)][..0] == "";
  }

  lemma DigitsFit(n: nat)
    ensures n < 0x1_0000 ==> |Digits(n, 16)| <= 4
    ensures n < 100000 ==> |Digits(n, 10)| <= 5
  {
    if n < 0x1_0000 {
      assert n / 16 < 0x1000 && n / 16 / 16 < 0x100 && n / 16 / 16 / 16 < 0x10;
      FourDigits(n);
    }
    if n < 100000 {
      FiveDigits(n);
    }
  }

  lemma FourDigits(n: nat)
    requires n < 0x1_0000
    ensures |Digits(n, 16)| <= 4
  {
    var a := n / 16;
    var b := a / 16;
    var c := b / 16;
    assert |Digits(c, 16)| <= 1;
    assert |Digits(b, 16)| <= 2;
    assert |Digits(a, 16)| <= 3;
  }

  lemma FiveDigits(n: nat)
    requires n < 100000
    ensures |Digits(n, 10)| <= 5
  {
    var a := n / 10;
    var b := a / 10;
    var c := b / 10;
    var d := c / 10;
    assert |Digits(d, 10)| <= 1;
    assert |Digits(c, 10)| <= 2;
    assert |Digits(b, 10)| <= 3;
    assert |Digits(a, 10)| <= 4;
  }

  // ---------------------------------------------------------------- the text

  /** Groups separated by colons. */
  function Joined(gs: seq<int>): string
    requires forall i :: 0 <= i < |gs| ==> 0 <= gs[i]
  {
    if gs == [] then ""
    else
      var k := |gs| - 1;
      Joined(gs[..k]) + (if k == 0 then "" else ":") + Digits(gs[k], 16)
  }

  /** `start` and `length` of the run to collapse, -1 and 0 if there is none. */
  predicate RunFits(start: int, length: int) {
    (start == -1 && length == 0) || (0 <= start && 2 <= length && start + length <= 8)
  }

  /** Section 2.2 of RFC 4291: all groups, or those around the collapsed run with "::" in between. */
  function Body(ip: seq<int>, start: int, length: int): string
    requires Address(ip) && RunFits(start, length)
  {
    if length == 0 then Joined(ip) else Joined(ip[..start]) + "::" + Joined(ip[start + length..])
  }

  function PortText(port: int): string {
    if port < 0 then "" else ":" + Digits(port, 10)
  }

  function Text(ip: seq<int>, start: int, length: int, port: int): string
    requires Address(ip) && RunFits(start, length)
  {
    "[" + Body(ip, start, length) + "]" + PortText(port)
  }

  /** A text to check the format by. */
  lemma Example()
    ensures Text([0x2001, 0xdb8, 0, 0, 0, 0, 0, 1], 2, 5, 8303) == "[2001:db8::1]:8303"
  {
    ExampleDigits();
    hide Digits;
    JoinedTwo([], 0x2001);
    JoinedTwo([0x2001], 0xdb8);
    JoinedTwo([], 1);
    var ip := [0x2001, 0xdb8, 0, 0, 0, 0, 0, 1];
    assert ip[..2] == [0x2001] + [0xdb8] && ip[7..] == [1] && [] + [1] == [1] && [] + [0x2001] == [0x2001];
    hide Joined;
  }

  lemma JoinedTwo(gs: seq<int>, g: int)
    requires 0 <= g && forall i :: 0 <= i < |gs| ==> 0 <= gs[i]
    ensures Joined(gs + [g]) == Joined(gs) + (if gs == [] then "" else ":") + Digits(g, 16)
  {
    assert (gs + [g])[..|gs|] == gs;
  }

  lemma ExampleDigits()
    ensures Digits(0x2001, 16) == "2001" && Digits(0xdb8, 16) == "db8" && Digits(0, 16) == "0" && Digits(1, 16) == "1"
    ensures Digits(8303, 10) == "8303"
  {
    assert Digits(0x20, 16) == "20" && Digits(0xdb, 16) == "db" && Digits(83, 10) == "83";
    assert Digits(0x200, 16) == "200" && Digits(830, 10) == "830";
  }

  lemma {:induction false} JoinedLength(gs: seq<int>)
    requires forall i :: 0 <= i < |gs| ==> 0 <= gs[i] < 0x1_0000
    ensures |Joined(gs)| <= if gs == [] then 0 else 5 * |gs| - 1
  {
    hide Digits;
    if gs != [] {
      JoinedLength(gs[..|gs| - 1]);
      DigitsFit(gs[|gs| - 1]);
    }
  }

  /** The text with its terminator never needs more than the buffer every caller provides. */
  lemma TextFits(ip: seq<int>, start: int, length: int, port: int)
    requires Address(ip) && RunFits(start, length) && port < 0x1_0000
    ensures |Text(ip, start, length, port)| + 1 <= NETADDR_MAXSTRSIZE == 48
  {
    hide Digits, Joined;
    if port >= 0 {
      DigitsFit(port);
    }
    JoinedLength(ip);
    if length != 0 {
      JoinedLength(ip[..start]);
      JoinedLength(ip[start + length..]);
    }
  }

  // ---------------------------------------------------------------- reading the text back

  /** How many digits a text begins with. */
  function DigitRun(t: string, base: nat): (n: nat)
    ensures n <= |t|
  {
    if t == "" || !(0 <= DigitOf(t[0]) < base) then 0 else 1 + DigitRun(t[1..], base)
  }

  lemma {:induction false} DigitRunOf(d: string, tail: string, base: nat)
    requires Numeral(d, base) && DigitRun(tail, base) == 0
    ensures DigitRun(d + tail, base) == |d|
  {
    if d == "" {
      assert d + tail == tail;
    } else {
      DigitRunOf(d[1..], tail, base);
      assert (d + tail)[1..] == d[1..] + tail;
    }
  }

  /** Hexadecimal groups with single colons between them, and what follows. */
  function ReadGroups(t: string): (r: (seq<int>, string))
    decreases |t|
  {
    var n := DigitRun(t, 16);
    if n == 0 then ([], t)
    else
      var rest := t[n..];
      if |rest| >= 2 && rest[0] == ':' && DigitOf(rest[1]) >= 0 then
        var more := ReadGroups(rest[1..]);
        ([Value(t[..n], 16)] + more.0, more.1)
      else ([Value(t[..n], 16)], rest)
  }

  function ReadPort(ip: seq<int>, t: string): Option<(seq<int>, int)> {
    if t == "]" then Some((ip, -1))
    else if |t| > 2 && t[0] == ']' && t[1] == ':' && DigitRun(t[2..], 10) == |t| - 2 then Some((ip, Value(t[2..], 10)))
    else None
  }

  function Zeros(n: nat): seq<int> {
    seq(n, _ => 0)
  }

  /** A reader for address texts: "::" stands for as many zero groups as are missing. */
  function Read(t: string): Option<(seq<int>, int)> {
    if t == "" || t[0] != '[' then None
    else
      var a := ReadGroups(t[1..]);
      if |a.1| >= 2 && a.1[0] == ':' && a.1[1] == ':' then
        var b := ReadGroups(a.1[2..]);
        if |a.0| + |b.0| < 8 then ReadPort(a.0 + Zeros(8 - |a.0| - |b.0|) + b.0, b.1) else None
      else if |a.0| == 8 then ReadPort(a.0, a.1)
      else None
  }

  /** A text that cannot continue a list of groups. */
  predicate EndsGroups(tail: string) {
    DigitRun(tail, 16) == 0 && !(|tail| >= 2 && tail[0] == ':' && DigitOf(tail[1]) >= 0)
  }

  /** The same list taken apart at its front. */
  lemma {:induction false} JoinedFront(gs: seq<int>)
    requires gs != [] && forall i :: 0 <= i < |gs| ==> 0 <= gs[i]
    ensures Joined(gs) == Digits(gs[0], 16) + if |gs| == 1 then "" else ":" + Joined(gs[1..])
    decreases |gs|
  {
    var k := |gs| - 1;
    if k == 0 {
      assert gs[..0] == [];
      assert Joined(gs) == "" + "" + Digits(gs[0], 16);
    } else {
      JoinedFront(gs[..k]);
      SplitBoth(gs, k);
      hide Digits, Joined;
      assert k == 1 ==> gs[1..][..0] == [];
      Regroup(Digits(gs[0], 16), Joined(gs[1..][..k - 1]), Digits(gs[k], 16));
    }
  }

  lemma SplitBoth(gs: seq<int>, k: nat)
    requires 0 < k == |gs| - 1 && forall i :: 0 <= i < |gs| ==> 0 <= gs[i]
    ensures gs[..k][1..] == gs[1..][..k - 1] && gs[..k][0] == gs[0]
    ensures Joined(gs) == Joined(gs[..k]) + ":" + Digits(gs[k], 16)
    ensures Joined(gs[1..]) == Joined(gs[1..][..k - 1]) + (if k == 1 then "" else ":") + Digits(gs[k], 16)
    ensures k == 1 ==> Joined(gs[1..][..k - 1]) == ""
  {
    hide Digits;
  }

  lemma Regroup(a: string, m: string, z: string)
    ensures a + "" + ":" + z == a + (":" + ("" + "" + z))
    ensures a + (":" + m) + ":" + z == a + (":" + (m + ":" + z))
  {
  }

  predicate Continues(t: string) {
    |t| >= 2 && t[0] == ':' && DigitOf(t[1]) >= 0
  }

  lemma ReadOne(d: string, more: string)
    requires d != "" && Numeral(d, 16) && DigitRun(more, 16) == 0
    ensures ReadGroups(d + more) ==
      if Continues(more) then ([Value(d, 16)] + ReadGroups(more[1..]).0, ReadGroups(more[1..]).1)
      else ([Value(d, 16)], more)
  {
    hide Value;
    DigitRunOf(d, more, 16);
    assert (d + more)[..|d|] == d && (d + more)[|d|..] == more;
  }

  lemma {:induction false} ReadJoined(gs: seq<int>, tail: string)
    requires EndsGroups(tail) && forall i :: 0 <= i < |gs| ==> 0 <= gs[i]
    ensures ReadGroups(Joined(gs) + tail) == (gs, tail)
    decreases |gs|
  {
    hide Value, Joined, ReadGroups, Digits, DigitRun, DigitOf, Numeral, EndsGroups;
    if gs == [] {
      ReadNothing(tail);
    } else if |gs| == 1 {
      ReadLast(gs, tail);
    } else {
      ReadJoined(gs[1..], tail);
      StartsWithDigit(gs[1..]);
      JoinedFront(gs);
      DigitsMean(gs[0], 16);
      ReadNext(gs[0], gs[1..], Digits(gs[0], 16), Joined(gs[1..]), tail);
      assert gs == [gs[0]] + gs[1..];
    }
  }

  lemma ReadNothing(tail: string)
    requires EndsGroups(tail)
    ensures ReadGroups(Joined([]) + tail) == ([], tail)
  {
    assert Joined([]) + tail == tail;
  }

  lemma ReadLast(gs: seq<int>, tail: string)
    requires EndsGroups(tail) && |gs| == 1 && 0 <= gs[0]
    ensures ReadGroups(Joined(gs) + tail) == (gs, tail)
  {
    hide Value, Joined, ReadGroups, Digits;
    JoinedFront(gs);
    DigitsMean(gs[0], 16);
    assert Digits(gs[0], 16) + "" == Digits(gs[0], 16);
    ReadOne(Digits(gs[0], 16), tail);
    assert gs == [gs[0]];
  }

  /** One group more in front. */
  lemma ReadNext(g: int, gs: seq<int>, d: string, j: string, tail: string)
    requires d != "" && Numeral(d, 16) && Value(d, 16) == g
    requires j != "" && DigitOf(j[0]) >= 0 && ReadGroups(j + tail) == (gs, tail)
    ensures ReadGroups(d + (":" + j) + tail) == ([g] + gs, tail)
  {
    hide Value, ReadGroups;
    var more := ":" + (j + tail);
    assert more[1..] == j + tail;
    assert d + (":" + j) + tail == d + more;
    ReadOne(d, more);
  }

  lemma StartsWithDigit(gs: seq<int>)
    requires gs != [] && forall i :: 0 <= i < |gs| ==> 0 <= gs[i]
    ensures Joined(gs) != "" && DigitOf(Joined(gs)[0]) >= 0
  {
    JoinedFront(gs);
    DigitsMean(gs[0], 16);
    hide Digits, Joined;
  }

  predicate AllZero(ip: seq<int>, start: int, length: int) {
    0 <= start && 0 <= length && start + length <= |ip| && forall i :: start <= i < start + length ==> ip[i] == 0
  }

  lemma ReadPortText(ip: seq<int>, port: int)
    ensures ReadPort(ip, "]" + PortText(port)) == Some((ip, if port < 0 then -1 else port))
    ensures EndsGroups("]" + PortText(port))
  {
    hide Digits, Value;
    if port >= 0 {
      var d := Digits(port, 10);
      DigitsMean(port, 10);
      DigitRunOf(d, "", 10);
      assert d + "" == d;
      var t := "]" + PortText(port);
      assert t == "]:" + d && t[2..] == d;
    } else {
      assert "]" + PortText(port) == "]";
    }
  }

  /** The text of an address is read back as exactly its eight groups and its port. */
  lemma ReadText(ip: seq<int>, start: int, length: int, port: int)
    requires Address(ip) && RunFits(start, length) && (length != 0 ==> AllZero(ip, start, length))
    ensures Read(Text(ip, start, length, port)) == Some((ip, if port < 0 then -1 else port))
  {
    hide Joined, ReadGroups, ReadPort, PortText;
    var tail := "]" + PortText(port);
    ReadPortText(ip, port);
    if length == 0 {
      var t := Text(ip, start, length, port);
      ReadJoined(ip, tail);
      assert t[1..] == Joined(ip) + tail;
    } else {
      ReadCollapsed(ip, start, length, port);
    }
  }

  lemma ReadCollapsed(ip: seq<int>, start: int, length: int, port: int)
    requires Address(ip) && RunFits(start, length) && length != 0 && AllZero(ip, start, length)
    requires EndsGroups("]" + PortText(port))
    ensures Read(Text(ip, start, length, port)) == ReadPort(ip, "]" + PortText(port))
  {
    hide Joined, ReadGroups, ReadPort, PortText, AllZero;
    var tail := "]" + PortText(port);
    var t := Text(ip, start, length, port);
    var a, b := ip[..start], ip[start + length..];
    var rest := "::" + (Joined(b) + tail);
    assert t[1..] == Joined(a) + rest;
    ReadJoined(b, tail);
    ReadJoined(a, rest);
    assert rest[2..] == Joined(b) + tail;
    ZerosFit(ip, start, length);
  }

  lemma ZerosFit(ip: seq<int>, start: int, length: int)
    requires AllZero(ip, start, length)
    ensures ip[..start] + Zeros(length) + ip[start + length..] == ip
  {
  }

  // ---------------------------------------------------------------- the run to collapse

  /** The first of the longest runs of zero groups ending by group `end`; runs of one count too. */
  ghost predicate LongestUpTo(ip: seq<int>, end: int, start: int, length: int) {
    && 0 <= length && (length != 0 ==> AllZero(ip, start, length) && start + length <= end)
    && forall s, n :: AllZero(ip, s, n) && 1 <= n && s + n <= end ==> n <= length && (n == length ==> start <= s)
  }

  /** Section 4.2 of RFC 5952: the longest run is collapsed, the first of several, but not a single group. */
  ghost predicate Collapsed(ip: seq<int>, start: int, length: int) {
    && RunFits(start, length)
    && (length != 0 ==> AllZero(ip, start, length))
    && forall s, n :: AllZero(ip, s, n) && 2 <= n ==> n <= length && (n == length ==> start <= s)
  }

  /** Section 4.2.3 of RFC 5952: the longest run, the first of equal ones; 4.2.2: never a single group. */
  lemma RunExamples(start: int, length: int)
    ensures Collapsed([0x2001, 0, 0, 1, 0, 0, 0, 1], start, length) ==> (start, length) == (4, 3)
    ensures Collapsed([0x2001, 0xdb8, 0, 0, 1, 0, 0, 1], start, length) ==> (start, length) == (2, 2)
    ensures Collapsed([0x2001, 0xdb8, 0, 1, 1, 1, 1, 1], start, length) ==> (start, length) == (-1, 0)
  {
    var a, b, c := [0x2001, 0, 0, 1, 0, 0, 0, 1], [0x2001, 0xdb8, 0, 0, 1, 0, 0, 1], [0x2001, 0xdb8, 0, 1, 1, 1, 1, 1];
    assert AllZero(a, 4, 3) && AllZero(b, 2, 2);
    ZerosOfRun(a, start, length);
    ZerosOfRun(b, start, length);
    ZerosOfRun(c, start, length);
    hide AllZero;
  }

  lemma ZerosOfRun(ip: seq<int>, start: int, length: int)
    requires |ip| == 8
    ensures Collapsed(ip, start, length) && length != 0 ==>
      && ip[start] == 0 && ip[start + 1] == 0
      && (3 <= length ==> ip[start + 2] == 0) && (4 <= length ==> ip[start + 3] == 0)
  {
  }

  lemma ZeroAt(ip: seq<int>, start: int, length: int, i: int)
    requires AllZero(ip, start, length) && start <= i < start + length
    ensures ip[i] == 0
  {
  }

  lemma RunEnds(ip: seq<int>, i: int, seqStart: int, start: int, length: int)
    requires 0 <= seqStart < i <= |ip| && AllZero(ip, seqStart, i - seqStart)
    requires seqStart == 0 || ip[seqStart - 1] != 0
    requires LongestUpTo(ip, seqStart, start, length)
    ensures length < i - seqStart ==> LongestUpTo(ip, i, seqStart, i - seqStart)
    ensures length >= i - seqStart ==> LongestUpTo(ip, i, start, length)
  {
    var longer := length < i - seqStart;
    var st, ln := if longer then seqStart else start, if longer then i - seqStart else length;
    forall s, n | AllZero(ip, s, n) && 1 <= n && s + n <= i
      ensures n <= ln && (n == ln ==> st <= s)
    {
      if s + n > seqStart && s < seqStart {
        ZeroAt(ip, s, n, seqStart - 1);
      }
    }
  }

  lemma NoRunThrough(ip: seq<int>, i: int, start: int, length: int)
    requires 0 <= i < |ip| && ip[i] != 0 && LongestUpTo(ip, i, start, length)
    ensures LongestUpTo(ip, i + 1, start, length)
  {
    forall s, n | AllZero(ip, s, n) && 1 <= n && s + n <= i + 1
      ensures n <= length && (n == length ==> start <= s)
    {
      if s + n == i + 1 {
        ZeroAt(ip, s, n, i);
      }
    }
  }

  method FindRun(ip: seq<int>) returns (start: int, length: int)
    requires Address(ip)
    ensures Collapsed(ip, start, length) && RunFits(start, length)
  {
    start, length := -1, 0;
    var seqStart, seqLen := -1, 0;
    for i := 0 to 8 + 1
      invariant seqStart == -1 || (0 <= seqStart < i <= 8 && seqLen == i - seqStart && AllZero(ip, seqStart, seqLen))
      invariant seqStart > 0 ==> ip[seqStart - 1] != 0
      invariant seqStart == -1 && 0 < i <= 8 ==> ip[i - 1] != 0
      invariant LongestUpTo(ip, if seqStart == -1 then Least(i, 8) else seqStart, start, length)
    {
      hide LongestUpTo;
      if seqStart != -1 {
        if i == 8 || ip[i] != 0 {
          RunEnds(ip, i, seqStart, start, length);
          if length < seqLen {
            length := seqLen;
            start := seqStart;
          }
          seqLen := 0;
          seqStart := -1;
          if i < 8 {
            NoRunThrough(ip, i, start, length);
          }
        } else {
          seqLen := seqLen + 1;
        }
      } else {
        if i != 8 && ip[i] == 0 {
          seqStart := i;
          seqLen := 1;
        } else if i != 8 {
          NoRunThrough(ip, i, start, length);
        }
      }
    }
    if length <= 1 {
      length := 0;
      start := -1;
    }
  }

  // ---------------------------------------------------------------- printing

  /** The buffer holds as much of `t` as it has room for, terminated at `w` once something is written. */
  predicate Holds(buffer: array<char>, w: int, t: string)
    reads buffer
  {
    && 1 <= buffer.Length && w == Least(|t|, buffer.Length - 1)
    && buffer[..w] == t[..w] && (t != "" ==> buffer[w] == '\0')
  }

  /** Copying or formatting `s` behind `w`, cut off at the end of the buffer; the count of characters written. */
  method Put(buffer: array<char>, w: int, s: string, ghost t: string) returns (n: int)
    requires Holds(buffer, w, t)
    modifies buffer
    ensures Holds(buffer, w + n, t + s)
  {
    n := 0;
    var size := buffer.Length - w;
    while n < |s| && n < size - 1
      invariant 0 <= n <= |s| && n <= size - 1
      invariant buffer[..w] == t[..w]
      invariant forall k :: 0 <= k < n ==> buffer[w + k] == s[k]
    {
      buffer[w + n] := s[n];
      n := n + 1;
    }
    buffer[w + n] := '\0';
    PutIs(buffer[..], w, n, s, t);
  }

  lemma PutIs(b: string, w: nat, n: nat, s: string, t: string)
    requires w + n < |b| && n <= |s| && w == Least(|t|, |b| - 1) && n == Least(|s|, |b| - 1 - w)
    requires b[..w] == t[..w] && forall k :: 0 <= k < n ==> b[w + k] == s[k]
    ensures w + n == Least(|t + s|, |b| - 1) && b[..w + n] == (t + s)[..w + n]
  {
    forall i | 0 <= i < w + n
      ensures b[i] == (t + s)[i]
    {
      if i < w {
        assert b[i] == b[..w][i];
      } else {
        assert b[i] == b[w + (i - w)];
      }
    }
  }

  /** What one turn of the loop prints. */
  function Piece(ip: seq<int>, start: int, length: int, i: nat): string
    requires Address(ip) && i < 8
  {
    if start <= i < start + length then if i == start then "::" else ""
    else (if i == 0 || i == start + length then "" else ":") + Digits(ip[i], 16)
  }

  /** What has been printed before turn `i`. */
  function Printed(ip: seq<int>, start: int, length: int, i: nat): string
    requires Address(ip) && i <= 8
  {
    if i == 0 then "[" else Printed(ip, start, length, i - 1) + Piece(ip, start, length, i - 1)
  }

  lemma JoinedNext(ip: seq<int>, from: nat, i: nat)
    requires Address(ip) && from <= i < 8
    ensures Joined(ip[from..i + 1]) == Joined(ip[from..i]) + (if i == from then "" else ":") + Digits(ip[i], 16)
  {
    hide Digits;
    assert ip[from..i + 1][..i - from] == ip[from..i];
  }

  /** Before the run, or if there is none. */
  lemma {:induction false} PrintedBefore(ip: seq<int>, start: int, length: int, i: nat)
    requires Address(ip) && RunFits(start, length) && i <= 8 && (length != 0 ==> i <= start)
    ensures Printed(ip, start, length, i) == "[" + Joined(ip[0..i])
  {
    hide Digits;
    if i == 0 {
      JoinedNothing();
    } else {
      hide Joined, Printed;
      PrintedBefore(ip, start, length, i - 1);
      NextPrinted(ip, start, length, i - 1);
      JoinedNext(ip, 0, i - 1);
      Append("[", Joined(ip[0..i - 1]), if i == 1 then "" else ":", Digits(ip[i - 1], 16));
    }
  }

  lemma Append(a: string, b: string, c: string, d: string)
    ensures (a + b) + (c + d) == a + ((b + c) + d)
  {
  }

  /** Inside the run and at its end. */
  lemma {:induction false} PrintedInside(ip: seq<int>, start: int, length: int, i: nat)
    requires Address(ip) && RunFits(start, length) && length != 0 && start < i <= start + length
    ensures Printed(ip, start, length, i) == Head(ip, start)
  {
    hide Digits, Joined, Printed;
    NextPrinted(ip, start, length, i - 1);
    if i == start + 1 {
      PrintedBefore(ip, start, length, start);
    } else {
      PrintedInside(ip, start, length, i - 1);
    }
  }

  /** The text up to and including "::". */
  function Head(ip: seq<int>, start: nat): string
    requires Address(ip) && start <= 8
  {
    "[" + Joined(ip[0..start]) + "::"
  }

  /** Behind the run. */
  lemma {:induction false} PrintedAfter(ip: seq<int>, start: int, length: int, i: nat)
    requires Address(ip) && RunFits(start, length) && length != 0 && start + length <= i <= 8
    ensures Printed(ip, start, length, i) == Head(ip, start) + Joined(ip[start + length..i])
  {
    hide Digits, Printed, Head, Joined;
    if i == start + length {
      JoinedNothing();
      assert ip[start + length..i] == [];
      PrintedInside(ip, start, length, i);
    } else {
      PrintedAfter(ip, start, length, i - 1);
      NextPrinted(ip, start, length, i - 1);
      JoinedNext(ip, start + length, i - 1);
      Append(Head(ip, start), Joined(ip[start + length..i - 1]),
             if i - 1 == start + length then "" else ":", Digits(ip[i - 1], 16));
    }
  }

  lemma JoinedNothing()
    ensures Joined([]) == ""
  {
  }

  lemma NextPrinted(ip: seq<int>, start: int, length: int, i: nat)
    requires Address(ip) && i < 8
    ensures Printed(ip, start, length, 0) == "["
    ensures Printed(ip, start, length, i + 1) == Printed(ip, start, length, i) + Piece(ip, start, length, i)
    ensures Piece(ip, start, length, i) == "" ==> Printed(ip, start, length, i + 1) == Printed(ip, start, length, i)
  {
    hide Digits;
  }

  lemma PrintedBody(ip: seq<int>, start: int, length: int)
    requires Address(ip) && RunFits(start, length)
    ensures Printed(ip, start, length, 8) == "[" + Body(ip, start, length)
  {
    hide Printed, Joined, Digits;
    if length == 0 {
      PrintedBefore(ip, start, length, 8);
      assert ip[0..8] == ip;
    } else {
      PrintedAfter(ip, start, length, 8);
      assert ip[0..start] == ip[..start] && ip[start + length..8] == ip[start + length..];
    }
  }

  lemma PrintedAll(ip: seq<int>, start: int, length: int, port: int)
    requires Address(ip) && RunFits(start, length)
    ensures Printed(ip, start, length, 8) + "]" + PortText(port) == Text(ip, start, length, port)
    ensures port < 0 ==> Printed(ip, start, length, 8) + "]" == Text(ip, start, length, port)
  {
    hide Printed, Body, Digits;
    PrintedBody(ip, start, length);
  }

  method PrintBody(ip: seq<int>, start: int, length: int, buffer: array<char>, w0: int) returns (w: int)
    requires Address(ip) && RunFits(start, length) && Holds(buffer, w0, Printed(ip, start, length, 0))
    modifies buffer
    ensures Holds(buffer, w, Printed(ip, start, length, 8))
  {
    hide Holds, Digits, Printed;
    w := w0;
    for i := 0 to 8
      invariant Holds(buffer, w, Printed(ip, start, length, i))
    {
      var n := 0;
      NextPrinted(ip, start, length, i);
      if start <= i < start + length {
        if i == start {
          n := Put(buffer, w, "::", Printed(ip, start, length, i));
        }
      } else {
        var colon := if i == 0 || i == start + length then "" else ":";
        n := Put(buffer, w, colon + Digits(ip[i], 16), Printed(ip, start, length, i));
      }
      w := w + n;
    }
  }

  lemma NothingHeld(buffer: array<char>)
    requires 1 <= buffer.Length
    ensures Holds(buffer, 0, "")
  {
  }

  lemma TextStarts(ip: seq<int>, start: int, length: int, port: int)
    requires Address(ip) && RunFits(start, length)
    ensures Text(ip, start, length, port) != ""
  {
    hide Joined, Digits;
  }

  /** `net_addr_str_v6` into a buffer of any size. */
  method NetAddrStrV6(ip: seq<int>, port: int, buffer: array<char>) returns (ghost start: int, ghost length: int)
    requires Address(ip) && 1 <= buffer.Length
    modifies buffer
    ensures Collapsed(ip, start, length) && RunFits(start, length)
    ensures var t := Text(ip, start, length, port); Holds(buffer, Least(|t|, buffer.Length - 1), t)
    ensures NETADDR_MAXSTRSIZE <= buffer.Length && port < 0x1_0000 ==>
      var n := |Text(ip, start, length, port)|;
      n < buffer.Length && buffer[n] == '\0' && Read(buffer[..n]) == Some((ip, if port < 0 then -1 else port))
  {
    hide Digits, Collapsed, Printed, Text, Read, Holds;
    NothingHeld(buffer);
    var longestSeqStart, longestSeqLen := FindRun(ip);
    start, length := longestSeqStart, longestSeqLen;
    var w := Put(buffer, 0, "[", "");
    assert "" + "[" == "[";
    NextPrinted(ip, start, length, 0);
    w := PrintBody(ip, longestSeqStart, longestSeqLen, buffer, w);
    ghost var t := Printed(ip, start, length, 8);
    var n := Put(buffer, w, "]", t);
    w := w + n;
    if port >= 0 {
      n := Put(buffer, w, ":" + Digits(port, 10), t + "]");
    }
    PrintedAll(ip, start, length, port);
    HeldAt(buffer, if port >= 0 then w + n else w, Text(ip, start, length, port));
    if NETADDR_MAXSTRSIZE <= buffer.Length && port < 0x1_0000 {
      TextFits(ip, start, length, port);
      TextStarts(ip, start, length, port);
      HoldsAll(buffer, Text(ip, start, length, port));
      CollapsedIsZero(ip, start, length);
      ReadText(ip, start, length, port);
    }
  }

  lemma CollapsedIsZero(ip: seq<int>, start: int, length: int)
    requires Collapsed(ip, start, length)
    ensures length != 0 ==> AllZero(ip, start, length)
  {
  }

  lemma HeldAt(buffer: array<char>, w: int, t: string)
    requires Holds(buffer, w, t)
    ensures w == Least(|t|, buffer.Length - 1)
  {
  }

  lemma HoldsAll(buffer: array<char>, t: string)
    requires |t| < buffer.Length && t != "" && Holds(buffer, |t|, t)
    ensures buffer[..|t|] == t && buffer[|t|] == '\0'
  {
    assert t[..|t|] == t;
  }
}
