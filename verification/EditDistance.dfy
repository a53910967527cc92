/**
  The edit distance between two sequences of code points: the two-row dynamic program over one
  buffer, proved to return the length of a shortest chain of single-element edits.
 */
module EditDistance {

  type Text = seq<int>

  // ---------------------------------------------------------------- what an edit is

  datatype Edit = Insert(at: nat, c: int) | Delete(at: nat) | Substitute(at: nat, c: int)

  predicate Fits(e: Edit, x: Text) {
    if e.Insert? then e.at <= |x| else e.at < |x|
  }

  function ApplyEdit(e: Edit, x: Text): Text
    requires Fits(e, x)
  {
    match e
    case Insert(p, c) => x[..p] + [c] + x[p..]
    case Delete(p) => x[..p] + x[p + 1..]
    case Substitute(p, c) => x[..p] + [c] + x[p + 1..]
  }

  /** Applying the edits one after the other to `x` gives `y`. */
  predicate Turns(es: seq<Edit>, x: Text, y: Text) {
    if es == [] then x == y else Fits(es[0], x) && Turns(es[1..], ApplyEdit(es[0], x), y)
  }

  // ---------------------------------------------------------------- the recurrence

  function Min3(a: int, b: int, c: int): (r: int)
    ensures r <= a && r <= b && r <= c && (r == a || r == b || r == c)
  {
    var m := if b < a then b else a;
    if c < m then c else m
  }

  function Init(x: Text): Text
    requires x != []
  {
    x[..|x| - 1]
  }

  function Last(x: Text): int
    requires x != []
  {
    x[|x| - 1]
  }

  function Differ(x: Text, y: Text): nat
    requires x != [] && y != []
  {
    if Last(x) != Last(y) then 1 else 0
  }

  function Dist(a: Text, b: Text): nat
    decreases |a| + |b|
  {
    if a == [] then |b|
    else if b == [] then |a|
    else Min3(Dist(Init(a), b) + 1, Dist(a, Init(b)) + 1, Dist(Init(a), Init(b)) + Differ(a, b))
  }

  lemma {:induction false} DistSymmetric(a: Text, b: Text)
    ensures Dist(a, b) == Dist(b, a)
    decreases |a| + |b|
  {
    if a != [] && b != [] {
      DistSymmetric(Init(a), b);
      DistSymmetric(a, Init(b));
      DistSymmetric(Init(a), Init(b));
    }
  }

  lemma {:induction false} DistBounds(a: Text, b: Text)
    ensures |a| - |b| <= Dist(a, b) && |b| - |a| <= Dist(a, b)
    ensures Dist(a, b) <= |a| + |b|
    decreases |a| + |b|
  {
    if a != [] && b != [] {
      DistBounds(Init(a), b);
      DistBounds(a, Init(b));
      DistBounds(Init(a), Init(b));
    }
  }

  lemma {:induction false} DistTriangle(a: Text, b: Text, c: Text)
    ensures Dist(a, c) <= Dist(a, b) + Dist(b, c)
    decreases |a| + |b| + |c|
  {
    DistBounds(a, b);
    DistBounds(b, c);
    DistBounds(a, c);
    if a != [] && b != [] && c != [] {
      DistTriangle(Init(a), b, c);
      DistTriangle(a, b, Init(c));
      DistTriangle(a, Init(b), c);
      DistTriangle(a, Init(b), Init(c));
      DistTriangle(Init(a), Init(b), c);
      DistTriangle(Init(a), Init(b), Init(c));
    }
  }

  lemma {:induction false} DistSelf(a: Text)
    ensures Dist(a, a) == 0
    decreases |a|
  {
    if a != [] {
      DistSelf(Init(a));
    }
  }

  lemma {:induction false} DistCommonSuffix(a: Text, b: Text, t: Text)
    ensures Dist(a + t, b + t) <= Dist(a, b)
    decreases |t|
  {
    if t == [] {
      assert a + t == a && b + t == b;
    } else {
      DistCommonSuffix(a, b, Init(t));
      assert Init(a + t) == a + Init(t) && Init(b + t) == b + Init(t);
    }
  }

  lemma DistOneEdit(e: Edit, x: Text)
    requires Fits(e, x)
    ensures Dist(x, ApplyEdit(e, x)) <= 1
  {
    var p := e.at;
    var u := x[..p];
    DistSelf(u);
    match e
    case Insert(_, c) =>
      SplitText(x, p);
      assert Init(u + [c]) == u;
      DistCommonSuffix(u, u + [c], x[p..]);
    case Delete(_) =>
      SplitText(x, p + 1);
      InitOfPrefix(x, p + 1);
      DistCommonSuffix(x[..p + 1], u, x[p + 1..]);
    case Substitute(_, c) =>
      SplitText(x, p + 1);
      InitOfPrefix(x, p + 1);
      assert Init(u + [c]) == u;
      DistCommonSuffix(x[..p + 1], u + [c], x[p + 1..]);
  }

  lemma SplitText(x: Text, n: nat)
    requires n <= |x|
    ensures x == x[..n] + x[n..]
  {
  }

  lemma InitOfPrefix(x: Text, n: nat)
    requires 0 < n <= |x|
    ensures Init(x[..n]) == x[..n - 1] && Last(x[..n]) == x[n - 1]
  {
  }

  /** No chain of edits is shorter than the recurrence says. */
  lemma {:induction false} DistIsLowerBound(es: seq<Edit>, x: Text, y: Text)
    requires Turns(es, x, y)
    ensures Dist(x, y) <= |es|
    decreases |es|
  {
    if es == [] {
      DistSelf(x);
    } else {
      var x' := ApplyEdit(es[0], x);
      DistIsLowerBound(es[1..], x', y);
      DistOneEdit(es[0], x);
      DistTriangle(x, x', y);
    }
  }

  // ---------------------------------------------------------------- a chain of that length

  lemma {:induction false} TurnsLift(es: seq<Edit>, x: Text, y: Text, t: Text)
    requires Turns(es, x, y)
    ensures Turns(es, x + t, y + t)
    decreases |es|
  {
    if es != [] {
      var e := es[0];
      TurnsLift(es[1..], ApplyEdit(e, x), y, t);
      EditLift(e, x, t);
    }
  }

  lemma EditLift(e: Edit, x: Text, t: Text)
    requires Fits(e, x)
    ensures ApplyEdit(e, x + t) == ApplyEdit(e, x) + t
  {
    var p := e.at;
    assert (x + t)[..p] == x[..p];
    match e
    case Insert(_, c) =>
      assert (x + t)[p..] == x[p..] + t;
      assert x[..p] + [c] + (x[p..] + t) == x[..p] + [c] + x[p..] + t;
    case Delete(_) =>
      assert (x + t)[p + 1..] == x[p + 1..] + t;
      assert x[..p] + (x[p + 1..] + t) == x[..p] + x[p + 1..] + t;
    case Substitute(_, c) =>
      assert (x + t)[p + 1..] == x[p + 1..] + t;
      assert x[..p] + [c] + (x[p + 1..] + t) == x[..p] + [c] + x[p + 1..] + t;
  }

  lemma {:induction false} TurnsThen(es: seq<Edit>, x: Text, y: Text, e: Edit)
    requires Turns(es, x, y) && Fits(e, y)
    ensures Turns(es + [e], x, ApplyEdit(e, y))
    decreases |es|
  {
    if es == [] {
      assert es + [e] == [e];
      assert [e][1..] == [];
    } else {
      TurnsThen(es[1..], ApplyEdit(es[0], x), y, e);
      assert (es + [e])[1..] == es[1..] + [e];
    }
  }

  lemma {:induction false} ShortestEdits(a: Text, b: Text) returns (es: seq<Edit>)
    ensures |es| == Dist(a, b) && Turns(es, a, b)
    decreases |a| + |b|
  {
    if a == [] && b == [] {
      es := [];
    } else if a != [] && Dist(a, b) == Dist(Init(a), b) + 1 {
      var rest := ShortestEdits(Init(a), b);
      es := EditsByDelete(a, b, rest);
    } else if b != [] && Dist(a, b) == Dist(a, Init(b)) + 1 {
      var rest := ShortestEdits(a, Init(b));
      es := EditsByInsert(a, b, rest);
    } else {
      var rest := ShortestEdits(Init(a), Init(b));
      es := EditsByMatch(a, b, rest);
    }
  }

  lemma EditsByDelete(a: Text, b: Text, rest: seq<Edit>) returns (es: seq<Edit>)
    requires a != [] && Turns(rest, Init(a), b)
    ensures |es| == |rest| + 1 && Turns(es, a, b)
  {
    assert ApplyEdit(Delete(|a| - 1), a) == Init(a);
    es := First(Delete(|a| - 1), rest, a, b);
  }

  lemma EditsByInsert(a: Text, b: Text, rest: seq<Edit>) returns (es: seq<Edit>)
    requires b != [] && Turns(rest, a, Init(b))
    ensures |es| == |rest| + 1 && Turns(es, a, b)
  {
    var e := Insert(|b| - 1, Last(b));
    assert ApplyEdit(e, Init(b)) == b;
    TurnsThen(rest, a, Init(b), e);
    es := rest + [e];
  }

  lemma EditsByMatch(a: Text, b: Text, rest: seq<Edit>) returns (es: seq<Edit>)
    requires a != [] && b != [] && Turns(rest, Init(a), Init(b))
    ensures |es| == |rest| + Differ(a, b) && Turns(es, a, b)
  {
    hide Turns, ApplyEdit;
    var x := Init(a) + [Last(b)];
    TurnsLift(rest, Init(a), Init(b), [Last(b)]);
    assert Init(b) + [Last(b)] == b;
    assert Turns(rest, x, b);
    if Last(a) == Last(b) {
      assert x == a;
      es := rest;
    } else {
      var e := Substitute(|a| - 1, Last(b));
      SubstituteLast(a, Last(b));
      es := First(e, rest, a, b);
    }
  }

  lemma SubstituteLast(a: Text, c: int)
    requires a != []
    ensures ApplyEdit(Substitute(|a| - 1, c), a) == Init(a) + [c]
  {
  }

  lemma First(e: Edit, rest: seq<Edit>, x: Text, y: Text) returns (es: seq<Edit>)
    requires Fits(e, x) && Turns(rest, ApplyEdit(e, x), y)
    ensures |es| == 1 + |rest| && Turns(es, x, y)
  {
    es := [e] + rest;
    assert es[1..] == rest;
  }

  /** The recurrence computes the least number of insertions, deletions and substitutions. */
  lemma DistIsMinimum(a: Text, b: Text)
    ensures exists es :: Turns(es, a, b) && |es| == Dist(a, b)
    ensures forall es :: Turns(es, a, b) ==> Dist(a, b) <= |es|
  {
    var es := ShortestEdits(a, b);
    forall es | Turns(es, a, b)
      ensures Dist(a, b) <= |es|
    {
      DistIsLowerBound(es, a, b);
    }
  }

  // ---------------------------------------------------------------- the two-row program

  /** The distance between the first `i` elements of `a` and the first `j` of `b`, by index. */
  function Cell(a: Text, b: Text, i: nat, j: nat): nat
    requires i <= |a| && j <= |b|
    decreases i + j
  {
    if i == 0 then j
    else if j == 0 then i
    else Min3(Cell(a, b, i - 1, j) + 1, Cell(a, b, i, j - 1) + 1,
              Cell(a, b, i - 1, j - 1) + if a[i - 1] != b[j - 1] then 1 else 0)
  }

  lemma {:induction false} CellIsDist(a: Text, b: Text, x: Text, y: Text)
    requires x <= a && y <= b
    ensures Cell(a, b, |x|, |y|) == Dist(x, y)
    decreases |x| + |y|
  {
    if x != [] && y != [] {
      CellIsDist(a, b, Init(x), y);
      CellIsDist(a, b, x, Init(y));
      CellIsDist(a, b, Init(x), Init(y));
    }
  }

  /** Where row `j` starts in the buffer. */
  function Row(j: nat, aLen: nat): nat {
    if j % 2 == 0 then 0 else aLen + 1
  }

  /** The first `n` cells of row `j` are in place. */
  ghost predicate RowHolds(a: Text, b: Text, buf: seq<int>, j: nat, n: nat)
    requires j <= |b| && n <= |a| + 1 && 2 * (|a| + 1) <= |buf|
  {
    forall k :: 0 <= k < n ==> buf[Row(j, |a|) + k] == Cell(a, b, k, j)
  }

  method StrUtf32DistBuffer(a0: Text, b0: Text, buf: array<int>) returns (r: int)
    requires buf.Length >= (|a0| + 1) + (|b0| + 1)
    modifies buf
    ensures r == Dist(a0, b0)
    ensures forall k :: (|a0| + 1) + (|b0| + 1) <= k < buf.Length ==> buf[k] == old(buf[k])
  {
    var a, b := a0, b0;
    if |a| > |b| {
      a, b := b, a;
      DistSymmetric(a0, b0);
    }
    ghost var before := buf[..];
    ghost var used := 2 * (|a| + 1);
    r := LastRow(a, b, buf);
    forall k | (|a0| + 1) + (|b0| + 1) <= k < buf.Length
      ensures buf[k] == before[k]
    {
      assert buf[used..][k - used] == before[used..][k - used];
    }
  }

  /** The rows one after the other, the first row being the shorter text. */
  method LastRow(a: Text, b: Text, buf: array<int>) returns (r: int)
    requires |a| <= |b| && (|a| + 1) + (|b| + 1) <= buf.Length
    modifies buf
    ensures r == Dist(a, b)
    ensures buf[2 * (|a| + 1)..] == old(buf[2 * (|a| + 1)..])
  {
    var aLen, bLen := |a|, |b|;
    var i := 0;
    while i <= aLen
      invariant 0 <= i <= aLen + 1
      invariant RowHolds(a, b, buf[..], 0, i)
      invariant buf[2 * (aLen + 1)..] == old(buf[2 * (aLen + 1)..])
    {
      ghost var before := buf[..];
      buf[Row(0, aLen) + i] := i;
      assert buf[..] == before[Row(0, aLen) + i := i];
      i := i + 1;
    }
    var j := 1;
    while j <= bLen
      invariant 1 <= j <= bLen + 1
      invariant RowHolds(a, b, buf[..], j - 1, aLen + 1)
      invariant buf[2 * (aLen + 1)..] == old(buf[2 * (aLen + 1)..])
    {
      FillRow(a, b, j, buf);
      j := j + 1;
    }
    CellIsDist(a, b, a, b);
    r := buf[Row(bLen, aLen) + aLen];
    assert r == buf[..][Row(bLen, aLen) + aLen];
  }

  /** One pass of the outer loop: row `j` is computed over the row before the previous one. */
  method FillRow(a: Text, b: Text, j: nat, buf: array<int>)
    requires 1 <= j <= |b| && 2 * (|a| + 1) <= buf.Length
    requires RowHolds(a, b, buf[..], j - 1, |a| + 1)
    modifies buf
    ensures RowHolds(a, b, buf[..], j, |a| + 1)
    ensures buf[2 * (|a| + 1)..] == old(buf[2 * (|a| + 1)..])
  {
    var aLen := |a|;
    var prev, cur := Row(j - 1, aLen), Row(j, aLen);
    RowExtend(a, b, buf[..], j, 0, j);
    ghost var before := buf[..];
    buf[cur] := j;
    assert buf[..] == before[cur := j];
    var i := 1;
    while i <= aLen
      invariant 1 <= i <= aLen + 1
      invariant RowHolds(a, b, buf[..], j - 1, aLen + 1)
      invariant RowHolds(a, b, buf[..], j, i)
      invariant buf[2 * (aLen + 1)..] == old(buf[2 * (aLen + 1)..])
    {
      var subst := if a[i - 1] != b[j - 1] then 1 else 0;
      NextCell(a, b, buf[..], j, i);
      var v := Min3(buf[cur + i - 1] + 1, buf[prev + i] + 1, buf[prev + i - 1] + subst);
      RowExtend(a, b, buf[..], j, i, v);
      before := buf[..];
      buf[cur + i] := v;
      assert buf[..] == before[cur + i := v];
      i := i + 1;
    }
  }

  /** Writing cell `n` of row `j` extends that row and leaves the row before it alone. */
  lemma RowExtend(a: Text, b: Text, buf: seq<int>, j: nat, n: nat, v: int)
    requires 1 <= j <= |b| && n <= |a| && 2 * (|a| + 1) <= |buf|
    requires RowHolds(a, b, buf, j, n) && RowHolds(a, b, buf, j - 1, |a| + 1)
    requires v == Cell(a, b, n, j)
    ensures RowHolds(a, b, buf[Row(j, |a|) + n := v], j, n + 1)
    ensures RowHolds(a, b, buf[Row(j, |a|) + n := v], j - 1, |a| + 1)
  {
    assert Row(j, |a|) != Row(j - 1, |a|);
  }

  /** What the inner loop computes from the cells it reads. */
  lemma NextCell(a: Text, b: Text, buf: seq<int>, j: nat, i: nat)
    requires 1 <= i <= |a| && 1 <= j <= |b| && 2 * (|a| + 1) <= |buf|
    requires RowHolds(a, b, buf, j, i) && RowHolds(a, b, buf, j - 1, |a| + 1)
    ensures Cell(a, b, i, j) ==
            Min3(buf[Row(j, |a|) + i - 1] + 1, buf[Row(j - 1, |a|) + i] + 1,
                 buf[Row(j - 1, |a|) + i - 1] + if a[i - 1] != b[j - 1] then 1 else 0)
  {
    assert buf[Row(j, |a|) + (i - 1)] == Cell(a, b, i - 1, j);
    assert buf[Row(j - 1, |a|) + i] == Cell(a, b, i, j - 1);
    assert buf[Row(j - 1, |a|) + (i - 1)] == Cell(a, b, i - 1, j - 1);
  }
}
