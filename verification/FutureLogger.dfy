/**
  The hand-over of a logger that collects messages until its target is set: any number of threads
  log one message each while one thread sets the target. Every step is one atomic action.
 */
module FutureLogger {
  /** A thread in `Log`, by what it does next; `Leaving` still holds the lock. */
  datatype LogPc = Start | Direct | WantLock | Check | DirectLocked | Push | Leaving | Returned

  /** The thread in `Set`; `Assign` is about to store the target once more, `Replay(k)` has handed over `k` messages. */
  datatype SetPc = Before | Holding | Assign | Replay(k: nat) | Unlock | Done

  const FREE := -1
  const SETTER := -2

  /** `queued` remembers every message ever pushed to `pending`; it is not part of the program. */
  datatype State = State(calls: seq<LogPc>, setter: SetPc, isSet: bool, lock: int,
                         pending: seq<int>, delivered: seq<int>, queued: seq<int>)

  datatype Step =
    | Load(i: nat)
    | Deliver(i: nat)
    | Acquire(i: nat)
    | Reload(i: nat)
    | Enqueue(i: nat)
    | Release(i: nat)
    | SetAcquire
    | SetExchange
    | SetAssign
    | SetReplay
    | SetClear
    | SetRelease

  function At(s: State, i: nat): LogPc {
    if i < |s.calls| then s.calls[i] else Returned
  }

  function Move(s: State, i: nat, c: LogPc): State
    requires i < |s.calls|
  {
    s.(calls := s.calls[i := c])
  }

  predicate Enabled(s: State, step: Step) {
    match step
    case Load(i) => i < |s.calls| && At(s, i) == Start
    case Deliver(i) => i < |s.calls| && (At(s, i) == Direct || At(s, i) == DirectLocked)
    case Acquire(i) => i < |s.calls| && At(s, i) == WantLock && s.lock == FREE
    case Reload(i) => i < |s.calls| && At(s, i) == Check
    case Enqueue(i) => i < |s.calls| && At(s, i) == Push
    case Release(i) => i < |s.calls| && At(s, i) == Leaving
    case SetAcquire => s.setter == Before && s.lock == FREE
    case SetExchange => s.setter == Holding
    case SetAssign => s.setter == Assign
    case SetReplay => s.setter.Replay? && s.setter.k < |s.pending|
    case SetClear => s.setter.Replay? && s.setter.k == |s.pending|
    case SetRelease => s.setter == Unlock
  }

  /** A call that finds the target set only when it already has the lock returns without giving it back. */
  function Apply(s: State, step: Step): State
    requires Enabled(s, step)
  {
    match step
    case Load(i) => Move(s, i, if s.isSet then Direct else WantLock)
    case Deliver(i) => Move(s, i, Returned).(delivered := s.delivered + [i])
    case Acquire(i) => Move(s, i, Check).(lock := i)
    case Reload(i) => Move(s, i, if s.isSet then DirectLocked else Push)
    case Enqueue(i) => Move(s, i, Leaving).(pending := s.pending + [i], queued := s.queued + [i])
    case Release(i) => Move(s, i, Returned).(lock := FREE)
    case SetAcquire => s.(setter := Holding, lock := SETTER)
    case SetExchange => s.(setter := Assign, isSet := true)
    case SetAssign => s.(setter := Replay(0), isSet := true)
    case SetReplay => s.(setter := Replay(s.setter.k + 1), delivered := s.delivered + [s.pending[s.setter.k]])
    case SetClear => s.(setter := Unlock, pending := [])
    case SetRelease => s.(setter := Done, lock := FREE)
  }

  function Initial(calls: nat): State {
    State(seq(calls, _ => Start), Before, false, FREE, [], [], [])
  }

  /** Each state follows from the one before by an enabled step. */
  ghost predicate IsPath(run: seq<State>, steps: seq<Step>) {
    && |run| == |steps| + 1
    && forall i :: 0 <= i < |steps| ==> Enabled(run[i], steps[i]) && run[i + 1] == Apply(run[i], steps[i])
  }

  /** A run of the system, from its beginning. */
  ghost predicate IsRun(run: seq<State>, steps: seq<Step>) {
    IsPath(run, steps) && exists n: nat :: run[0] == Initial(n)
  }

  // ---------------------------------------------------------------- the invariant

  /** The messages of `s` that are in `q`, in the order of `s`. */
  function Only(s: seq<int>, q: seq<int>): seq<int> {
    if s == [] then []
    else
      var last := s[|s| - 1];
      Only(s[..|s| - 1], q) + if last in q then [last] else []
  }

  predicate NoRepeats(s: seq<int>) {
    forall i, j :: 0 <= i < j < |s| ==> s[i] != s[j]
  }

  predicate InSection(c: LogPc) {
    c == Check || c == DirectLocked || c == Push || c == Leaving
  }

  predicate SetterInSection(p: SetPc) {
    p == Holding || p == Assign || p.Replay? || p == Unlock
  }

  /** Who is in a critical section has the lock. */
  ghost predicate LockHeld(s: State) {
    && (SetterInSection(s.setter) <==> s.lock == SETTER)
    && (forall i: nat :: i < |s.calls| && InSection(At(s, i)) ==> s.lock == i)
    && -2 <= s.lock < |s.calls|
    && (s.lock >= 0 ==> InSection(At(s, s.lock)) || At(s, s.lock) == Returned)
  }

  ghost predicate TargetSet(s: State) {
    && (s.isSet <==> s.setter == Assign || s.setter.Replay? || s.setter == Unlock || s.setter == Done)
    && (0 <= s.lock && At(s, s.lock) == Returned ==> s.isSet)
    && (!s.isSet ==> s.delivered == [])
    && (forall i: nat :: i < |s.calls| ==>
          && (At(s, i) == Push || At(s, i) == Leaving ==> !s.isSet)
          && (At(s, i) == Direct || At(s, i) == DirectLocked ==> s.isSet))
  }

  /** Where the message of each call is. */
  ghost predicate Located(s: State) {
    && (forall i :: i in s.queued || i in s.delivered ==> 0 <= i < |s.calls|)
    && (forall i: nat :: i < |s.calls| ==>
          && (i in s.queued ==> At(s, i) == Leaving || At(s, i) == Returned)
          && (i in s.delivered ==> At(s, i) == Returned || i in s.queued)
          && (At(s, i) == Leaving ==> i in s.queued)
          && (At(s, i) == Returned ==> i in s.queued || i in s.delivered))
    && NoRepeats(s.queued) && NoRepeats(s.delivered)
  }

  /** How much of the queue has been handed over. */
  function HandedOver(s: State): nat {
    if !s.isSet || s.setter == Assign then 0
    else if s.setter.Replay? && s.setter.k <= |s.queued| then s.setter.k
    else |s.queued|
  }

  ghost predicate InOrder(s: State) {
    && (s.setter.Replay? ==> s.setter.k <= |s.pending|)
    && s.pending == (if s.setter == Unlock || s.setter == Done then [] else s.queued)
    && Only(s.delivered, s.queued) == s.queued[..HandedOver(s)]
  }

  ghost predicate Inv(s: State) {
    LockHeld(s) && TargetSet(s) && Located(s) && InOrder(s)
  }

  /** The call that takes the step; -1 if it is the setter's. */
  function Who(step: Step): int {
    match step
    case Load(i) => i
    case Deliver(i) => i
    case Acquire(i) => i
    case Reload(i) => i
    case Enqueue(i) => i
    case Release(i) => i
    case _ => -1
  }

  lemma OthersStay(s: State, step: Step)
    requires Enabled(s, step)
    ensures |Apply(s, step).calls| == |s.calls|
    ensures forall j: nat :: j != Who(step) ==> At(Apply(s, step), j) == At(s, j)
  {
  }

  lemma KeepsLockHeld(s: State, step: Step)
    requires LockHeld(s) && Enabled(s, step)
    ensures LockHeld(Apply(s, step))
  {
    OthersStay(s, step);
    var t := Apply(s, step);
    if Who(step) >= 0 {
      assert InSection(At(s, Who(step))) ==> s.lock == Who(step);
    }
    forall i: nat | i < |t.calls| && InSection(At(t, i))
      ensures t.lock == i
    {
      assert i != Who(step) ==> InSection(At(s, i));
    }
  }

  lemma KeepsTargetSet(s: State, step: Step)
    requires LockHeld(s) && TargetSet(s) && Enabled(s, step)
    ensures TargetSet(Apply(s, step))
  {
    OthersStay(s, step);
    var t := Apply(s, step);
    forall i: nat | i < |t.calls|
      ensures At(t, i) == Push || At(t, i) == Leaving ==> !t.isSet
      ensures At(t, i) == Direct || At(t, i) == DirectLocked ==> t.isSet
    {
      assert InSection(At(s, i)) ==> s.lock == i;
      assert At(s, i) == Push || At(s, i) == Leaving ==> !s.isSet;
    }
  }

  lemma OnlyAppend(s: seq<int>, x: int, q: seq<int>)
    ensures Only(s + [x], q) == Only(s, q) + if x in q then [x] else []
  {
    assert (s + [x])[..|s|] == s;
  }

  lemma {:induction false} OnlyHas(s: seq<int>, x: int, q: seq<int>)
    requires x in s && x in q
    ensures x in Only(s, q)
  {
    var k := |s| - 1;
    assert s == s[..k] + [s[k]];
    if x != s[k] {
      OnlyHas(s[..k], x, q);
    }
  }

  lemma AppendNew(s: seq<int>, x: int)
    requires NoRepeats(s) && x !in s
    ensures NoRepeats(s + [x])
  {
  }

  /** The message to be replayed next has not been delivered yet. */
  lemma NextIsNew(s: State)
    requires Inv(s) && Enabled(s, SetReplay)
    ensures s.pending[s.setter.k] == s.queued[s.setter.k] && s.queued[s.setter.k] !in s.delivered
  {
    var k := s.setter.k;
    var x := s.queued[k];
    if x in s.delivered {
      OnlyHas(s.delivered, x, s.queued);
      RepeatsAt(s.queued, k);
    }
  }

  lemma RepeatsAt(q: seq<int>, k: nat)
    requires k < |q| && q[k] in q[..k]
    ensures !NoRepeats(q)
  {
  }

  lemma DeliveredIsNew(s: State, i: nat)
    requires Inv(s) && Enabled(s, Deliver(i))
    ensures s.isSet && i !in s.queued && i !in s.delivered && !(At(s, i) == Leaving)
  {
    hide Only, Apply;
    assert At(s, i) == Direct || At(s, i) == DirectLocked;
  }

  lemma EnqueuedIsNew(s: State, i: nat)
    requires Inv(s) && Enabled(s, Enqueue(i))
    ensures !s.isSet && s.delivered == [] && i !in s.queued && s.pending == s.queued
  {
    hide Only, Apply;
    assert At(s, i) == Push;
  }

  lemma KeepsLocated(s: State, step: Step)
    requires Inv(s) && Enabled(s, step)
    ensures Located(Apply(s, step))
  {
    hide Only, InOrder, TargetSet;
    OthersStay(s, step);
    match step
    case Deliver(i) =>
      DeliveredIsNew(s, i);
      AppendNew(s.delivered, i);
    case Enqueue(i) =>
      EnqueuedIsNew(s, i);
      AppendNew(s.queued, i);
    case SetReplay =>
      ReplayKeepsLocated(s);
    case _ =>
  }

  lemma ReplayKeepsLocated(s: State)
    requires Inv(s) && Enabled(s, SetReplay)
    ensures Located(Apply(s, SetReplay))
  {
    hide Only;
    NextIsNew(s);
    AppendNew(s.delivered, s.pending[s.setter.k]);
    OthersStay(s, SetReplay);
    assert s.queued[s.setter.k] in s.queued;
    hide InOrder, TargetSet, LockHeld, NoRepeats;
  }

  lemma DeliverKeepsInOrder(s: State, i: nat)
    requires Inv(s) && Enabled(s, Deliver(i))
    ensures InOrder(Apply(s, Deliver(i)))
  {
    DeliveredIsNew(s, i);
    OnlyAppend(s.delivered, i, s.queued);
    hide Only, LockHeld, TargetSet, Located;
  }

  lemma EnqueueKeepsInOrder(s: State, i: nat)
    requires Inv(s) && Enabled(s, Enqueue(i))
    ensures InOrder(Apply(s, Enqueue(i)))
  {
    EnqueuedIsNew(s, i);
    OnlyNothing(s.queued + [i]);
    hide Only, LockHeld, Located;
  }

  lemma OnlyNothing(q: seq<int>)
    ensures Only([], q) == []
  {
  }

  lemma ReplayKeepsInOrder(s: State)
    requires Inv(s) && Enabled(s, SetReplay)
    ensures InOrder(Apply(s, SetReplay))
  {
    NextIsNew(s);
    var k := s.setter.k;
    OnlyAppend(s.delivered, s.pending[k], s.queued);
    assert s.queued[..k + 1] == s.queued[..k] + [s.queued[k]];
    hide Only, LockHeld, Located;
  }

  lemma KeepsInOrder(s: State, step: Step)
    requires Inv(s) && Enabled(s, step)
    ensures InOrder(Apply(s, step))
  {
    match step
    case Deliver(i) => DeliverKeepsInOrder(s, i);
    case Enqueue(i) => EnqueueKeepsInOrder(s, i);
    case SetReplay => ReplayKeepsInOrder(s);
    case _ => hide Only, LockHeld, Located;
  }

  lemma StepKeepsInv(s: State, step: Step)
    requires Inv(s) && Enabled(s, step)
    ensures Inv(Apply(s, step))
  {
    KeepsLockHeld(s, step);
    KeepsTargetSet(s, step);
    KeepsLocated(s, step);
    KeepsInOrder(s, step);
  }

  lemma {:induction false} RunKeepsInv(run: seq<State>, steps: seq<Step>, i: nat)
    requires IsRun(run, steps) && i < |run|
    ensures Inv(run[i])
    decreases i
  {
    if 0 < i {
      RunKeepsInv(run, steps, i - 1);
      assert run[i] == Apply(run[i - 1], steps[i - 1]);
      hide Inv, Enabled, Apply;
      StepKeepsInv(run[i - 1], steps[i - 1]);
    }
  }

  // ---------------------------------------------------------------- over whole runs

  /** No message is delivered twice. */
  lemma NoDoubleDelivery(run: seq<State>, steps: seq<Step>, i: nat)
    requires IsRun(run, steps) && i < |run|
    ensures NoRepeats(run[i].delivered)
  {
    RunKeepsInv(run, steps, i);
  }

  /** The calls that have put their message into the queue, in the order in which they did. */
  function Enqueued(steps: seq<Step>): seq<int> {
    if steps == [] then []
    else
      var k := |steps| - 1;
      Enqueued(steps[..k]) + if steps[k].Enqueue? then [steps[k].i] else []
  }

  lemma {:induction false} QueueIsEnqueued(run: seq<State>, steps: seq<Step>, i: nat)
    requires IsRun(run, steps) && i < |run|
    ensures run[i].queued == Enqueued(steps[..i])
    decreases i
  {
    if 0 < i {
      QueueIsEnqueued(run, steps, i - 1);
      assert run[i] == Apply(run[i - 1], steps[i - 1]);
      assert steps[..i][..i - 1] == steps[..i - 1];
    }
  }

  /** Of the messages that were queued, those delivered so far are the first ones, in the order of the queue. */
  lemma ReplayedInOrder(run: seq<State>, steps: seq<Step>, i: nat)
    requires IsRun(run, steps) && i < |run|
    ensures Only(run[i].delivered, Enqueued(steps[..i])) <= Enqueued(steps[..i])
    ensures run[i].setter == Done ==> Only(run[i].delivered, Enqueued(steps[..i])) == Enqueued(steps[..i])
  {
    RunKeepsInv(run, steps, i);
    QueueIsEnqueued(run, steps, i);
  }

  /** A call that finds the target set at once delivers without the lock; any other goes for the lock. */
  lemma {:induction false} FastPath(run: seq<State>, steps: seq<Step>, m: nat, j: nat)
    requires IsRun(run, steps) && m < |steps| && m < j < |run| && steps[m].Load?
    ensures run[m].isSet ==> At(run[j], steps[m].i) == Direct || At(run[j], steps[m].i) == Returned
    ensures !run[m].isSet ==> At(run[j], steps[m].i) != Start && At(run[j], steps[m].i) != Direct
    decreases j
  {
    hide IsRun, Apply, Enabled;
    StepTaken(run, steps, j - 1);
    if m + 1 < j {
      FastPath(run, steps, m, j - 1);
    }
    CallGoesOn(run[j - 1], steps[j - 1], steps[m].i);
  }

  lemma StepTaken(run: seq<State>, steps: seq<Step>, j: nat)
    requires IsRun(run, steps) && j + 1 < |run|
    ensures j < |steps| && Enabled(run[j], steps[j]) && run[j + 1] == Apply(run[j], steps[j])
  {
  }

  lemma CallGoesOn(s: State, step: Step, i: nat)
    requires Enabled(s, step)
    ensures step == Load(i) ==> At(s, i) == Start && At(Apply(s, step), i) == if s.isSet then Direct else WantLock
    ensures At(s, i) == Direct || At(s, i) == Returned ==>
      At(Apply(s, step), i) == At(s, i) || At(Apply(s, step), i) == Returned
    ensures At(s, i) != Start && At(s, i) != Direct ==>
      At(Apply(s, step), i) != Start && At(Apply(s, step), i) != Direct
  {
  }

  /** The target gets one message after the other: what it has got stays, and a call that delivers adds its own. */
  lemma {:induction false} DeliveredGrows(run: seq<State>, steps: seq<Step>, i: nat, j: nat)
    requires IsRun(run, steps) && i <= j < |run|
    ensures run[i].delivered <= run[j].delivered
    ensures i < j && steps[i].Deliver? ==> run[i].delivered + [steps[i].i] <= run[j].delivered
    decreases j
  {
    if i < j {
      assert run[i + 1] == Apply(run[i], steps[i]);
      if i + 1 < j {
        DeliveredGrows(run, steps, i, j - 1);
      }
      assert run[j] == Apply(run[j - 1], steps[j - 1]);
    }
  }

  lemma {:induction false} OnlyIsPart(s: seq<int>, q: seq<int>, x: int)
    requires x in Only(s, q)
    ensures x in s
  {
    var k := |s| - 1;
    if x !in Only(s[..k], q) {
      assert x == s[k];
    } else {
      OnlyIsPart(s[..k], q, x);
    }
  }

  function Count(s: seq<int>, x: int): nat {
    multiset(s)[x]
  }

  lemma {:induction false} CountIsOne(s: seq<int>, x: int)
    requires NoRepeats(s) && x in s
    ensures Count(s, x) == 1
  {
    var k := |s| - 1;
    assert s == s[..k] + [s[k]];
    if x == s[k] {
      assert x !in s[..k];
    } else {
      CountIsOne(s[..k], x);
    }
  }

  /** Once `Set` has returned, every message whose `Log` call has returned has been delivered exactly once. */
  lemma ReturnedIsDelivered(run: seq<State>, steps: seq<Step>, i: nat, call: nat)
    requires IsRun(run, steps) && i < |run| && call < |run[i].calls|
    requires run[i].setter == Done && At(run[i], call) == Returned
    ensures Count(run[i].delivered, call) == 1
  {
    RunKeepsInv(run, steps, i);
    var s := run[i];
    if call in s.queued {
      assert call in Only(s.delivered, s.queued);
      OnlyIsPart(s.delivered, s.queued, call);
    }
    CountIsOne(s.delivered, call);
  }

  // ---------------------------------------------------------------- the lock that is not given back

  /** A call that has returned still holds the lock. */
  predicate Leaked(s: State) {
    0 <= s.lock < |s.calls| && At(s, s.lock) == Returned
  }

  /** The step after which the lock is lost. */
  predicate Leaks(s: State, step: Step) {
    step.Deliver? && At(s, step.i) == DirectLocked
  }

  lemma LeakedIffStep(s: State, step: Step)
    requires Inv(s) && Enabled(s, step)
    ensures Leaked(Apply(s, step)) <==> Leaked(s) || Leaks(s, step)
    ensures Leaked(s) ==> Apply(s, step).lock == s.lock
  {
    hide Only, InOrder, Located, TargetSet;
    OthersStay(s, step);
    if Who(step) >= 0 {
      assert InSection(At(s, Who(step))) ==> s.lock == Who(step);
    }
  }

  ghost predicate LeakedBefore(run: seq<State>, steps: seq<Step>, j: nat)
    requires j < |run| == |steps| + 1
  {
    exists i :: 0 <= i < j && Leaks(run[i], steps[i])
  }

  /** The lock is lost exactly when some call found the target set only on its second look. */
  lemma {:induction false} LeakedIff(run: seq<State>, steps: seq<Step>, j: nat)
    requires IsRun(run, steps) && j < |run|
    ensures Leaked(run[j]) <==> LeakedBefore(run, steps, j)
    decreases j
  {
    if 0 < j {
      LeakedIff(run, steps, j - 1);
      RunKeepsInv(run, steps, j - 1);
      assert run[j] == Apply(run[j - 1], steps[j - 1]);
      LeakedIffStep(run[j - 1], steps[j - 1]);
    }
  }

  lemma WaiterStays(s: State, step: Step, call: nat)
    requires Inv(s) && Enabled(s, step) && Leaked(s) && At(s, call) == WantLock
    ensures Leaked(Apply(s, step)) && At(Apply(s, step), call) == WantLock
  {
    LeakedIffStep(s, step);
    OthersStay(s, step);
    hide Inv;
  }

  /** From then on no waiting call ever returns. */
  lemma {:induction false} WaitersWaitForever(run: seq<State>, steps: seq<Step>, i: nat, j: nat, call: nat)
    requires IsRun(run, steps) && i <= j < |run| && Leaked(run[i]) && At(run[i], call) == WantLock
    ensures Leaked(run[j]) && At(run[j], call) == WantLock
    decreases j
  {
    hide Inv, Enabled, Apply, Leaked, At;
    if i < j {
      WaitersWaitForever(run, steps, i, j - 1, call);
      RunKeepsInv(run, steps, j - 1);
      assert run[j] == Apply(run[j - 1], steps[j - 1]);
      WaiterStays(run[j - 1], steps[j - 1], call);
    }
  }

  // ---------------------------------------------------------------- the schedules that lose it

  /** A call has got to the lock with the target already set. */
  predicate Lost(s: State) {
    s.isSet && 0 <= s.lock
  }

  lemma LostStep(s: State, step: Step)
    requires Inv(s) && Enabled(s, step)
    ensures Lost(Apply(s, step)) <==> Lost(s) || (step.Acquire? && s.isSet)
    ensures Lost(s) ==> Apply(s, step).lock == s.lock
    ensures s.isSet ==> Apply(s, step).isSet
  {
    hide Only, InOrder, Located;
    if Who(step) >= 0 {
      assert InSection(At(s, Who(step))) ==> s.lock == Who(step);
    }
  }

  /** Some call takes the lock after the target was set. */
  ghost predicate LateAcquire(run: seq<State>, steps: seq<Step>, j: nat)
    requires j < |run| == |steps| + 1
  {
    exists i :: 0 <= i < j && steps[i].Acquire? && run[i].isSet
  }

  lemma {:induction false} LostIff(run: seq<State>, steps: seq<Step>, j: nat)
    requires IsRun(run, steps) && j < |run|
    ensures Lost(run[j]) <==> LateAcquire(run, steps, j)
    decreases j
  {
    hide Inv, Enabled, Apply, Lost;
    if j == 0 {
      StartsFree(run, steps);
    } else {
      LostIff(run, steps, j - 1);
      RunKeepsInv(run, steps, j - 1);
      assert run[j] == Apply(run[j - 1], steps[j - 1]);
      LostStep(run[j - 1], steps[j - 1]);
    }
  }

  lemma StartsFree(run: seq<State>, steps: seq<Step>)
    requires IsRun(run, steps)
    ensures !Lost(run[0]) && !run[0].isSet && run[0].setter == Before
  {
  }

  lemma {:induction false} LostStays(run: seq<State>, steps: seq<Step>, j: nat)
    requires IsPath(run, steps) && j < |run| && Inv(run[0]) && Lost(run[0])
    ensures Inv(run[j]) && Lost(run[j]) && run[j].lock == run[0].lock
    decreases j
  {
    hide Inv, Enabled, Apply, Lost;
    if 0 < j {
      LostStays(run, steps, j - 1);
      assert run[j] == Apply(run[j - 1], steps[j - 1]);
      LostStep(run[j - 1], steps[j - 1]);
      StepKeepsInv(run[j - 1], steps[j - 1]);
    }
  }

  /** The step that brings the holder of the lock closer to giving it back. */
  function Onward(s: State): Step {
    if s.lock >= 0 then
      match At(s, s.lock)
      case Check => Reload(s.lock)
      case Push => Enqueue(s.lock)
      case _ => Release(s.lock)
    else
      match s.setter
      case Holding => SetExchange
      case Assign => SetAssign
      case Replay(k) => if k < |s.pending| then SetReplay else SetClear
      case _ => SetRelease
  }

  /** How many such steps there are. */
  function Remaining(s: State): int {
    if s.lock == FREE then 0
    else if s.lock >= 0 then
      match At(s, s.lock)
      case Check => 3
      case Push => 2
      case _ => 1
    else
      match s.setter
      case Holding => |s.pending| + 4
      case Assign => |s.pending| + 3
      case Replay(k) => |s.pending| - k + 2
      case _ => 1
  }

  lemma OnwardWorks(s: State)
    requires Inv(s) && !Lost(s) && s.lock != FREE
    ensures Enabled(s, Onward(s)) && !Onward(s).Acquire?
    ensures 0 <= Remaining(Apply(s, Onward(s))) < Remaining(s)
  {
    hide Only, Located;
    if s.lock >= 0 {
      assert At(s, s.lock) == Check || At(s, s.lock) == Push || At(s, s.lock) == Leaving;
    }
  }

  /** A lock that is not lost can be given back. */
  lemma {:induction false} GivesBack(s: State) returns (run: seq<State>, steps: seq<Step>)
    requires Inv(s) && !Lost(s)
    ensures IsPath(run, steps) && run[0] == s && run[|run| - 1].lock == FREE
    decreases Remaining(s)
  {
    hide Inv, Enabled, Apply, Lost, Remaining, Onward;
    if s.lock == FREE {
      run, steps := [s], [];
    } else {
      var step := Onward(s);
      OnwardWorks(s);
      StepKeepsInv(s, step);
      LostStep(s, step);
      var more, after := GivesBack(Apply(s, step));
      run, steps := [s] + more, [step] + after;
      forall i | 0 <= i < |steps|
        ensures Enabled(run[i], steps[i]) && run[i + 1] == Apply(run[i], steps[i])
      {
        if 0 < i {
          assert run[i] == more[i - 1] && run[i + 1] == more[i - 1 + 1] && steps[i] == after[i - 1];
        }
      }
    }
  }

  /** However things go on from `s`, the lock is never free. */
  ghost predicate NeverFree(s: State) {
    forall run: seq<State>, steps, j :: IsPath(run, steps) && run[0] == s && 0 <= j < |run| ==> run[j].lock != FREE
  }

  /** The lock is lost for good exactly when some call has taken it after the target was set. */
  lemma LockIsLostIff(run: seq<State>, steps: seq<Step>, j: nat)
    requires IsRun(run, steps) && j < |run|
    ensures NeverFree(run[j]) <==> LateAcquire(run, steps, j)
  {
    hide Inv, Enabled, Apply;
    RunKeepsInv(run, steps, j);
    LostIff(run, steps, j);
    if Lost(run[j]) {
      forall path: seq<State>, onward, k | IsPath(path, onward) && path[0] == run[j] && 0 <= k < |path|
        ensures path[k].lock != FREE
      {
        LostStays(path, onward, k);
      }
    } else {
      var path, onward := GivesBack(run[j]);
      assert path[|path| - 1].lock == FREE;
    }
  }

  /** Nothing can happen any more: every call has been made and no thread can go on. */
  ghost predicate AtRest(s: State) {
    forall step :: !Enabled(s, step)
  }

  lemma RestShape(s: State)
    requires Inv(s) && AtRest(s)
    ensures s.setter == Done && s.isSet && (Leaked(s) <==> Lost(s))
    ensures forall i: nat :: i < |s.calls| ==> At(s, i) == Returned || (At(s, i) == WantLock && s.lock != FREE)
    ensures !Lost(s) ==> s.lock == FREE
  {
    hide Only, Located;
    SetterRests(s);
    forall i: nat | i < |s.calls|
      ensures At(s, i) == Returned || (At(s, i) == WantLock && s.lock != FREE)
    {
      CallRests(s, i);
    }
  }

  lemma CallRests(s: State, i: nat)
    requires AtRest(s) && i < |s.calls|
    ensures At(s, i) == Returned || (At(s, i) == WantLock && s.lock != FREE)
  {
    assert !Enabled(s, Load(i)) && !Enabled(s, Deliver(i)) && !Enabled(s, Acquire(i));
    assert !Enabled(s, Reload(i)) && !Enabled(s, Enqueue(i)) && !Enabled(s, Release(i));
  }

  lemma SetterRests(s: State)
    requires Inv(s) && AtRest(s)
    ensures s.setter == Done
  {
    hide Only, Located;
    assert !Enabled(s, SetAcquire) && !Enabled(s, SetExchange) && !Enabled(s, SetAssign);
    assert !Enabled(s, SetReplay) && !Enabled(s, SetClear) && !Enabled(s, SetRelease);
    if s.lock >= 0 {
      CallRests(s, s.lock);
    }
  }

  /** When `Set` gives the lock back, some call is waiting for it. */
  ghost predicate WaiterAtRelease(run: seq<State>, steps: seq<Step>) {
    exists k, i: nat :: 0 <= k < |steps| && k < |run| && steps[k] == SetRelease && At(run[k], i) == WantLock
  }

  /** The step at which `Set` gave the lock back. */
  lemma {:induction false} ReleasedAt(run: seq<State>, steps: seq<Step>, j: nat) returns (k: nat)
    requires IsRun(run, steps) && j < |run| && run[j].setter == Done
    ensures k < j && steps[k] == SetRelease
    decreases j
  {
    if j == 0 {
      StartsFree(run, steps);
    } else {
      assert run[j] == Apply(run[j - 1], steps[j - 1]);
      if run[j - 1].setter == Done {
        k := ReleasedAt(run, steps, j - 1);
      } else {
        k := j - 1;
      }
    }
  }

  lemma {:induction false} StaysSet(run: seq<State>, steps: seq<Step>, k: nat, m: nat)
    requires IsRun(run, steps) && k <= m < |run| && run[k].isSet
    ensures run[m].isSet
    decreases m
  {
    hide Inv, Enabled, Apply;
    if k < m {
      StaysSet(run, steps, k, m - 1);
      RunKeepsInv(run, steps, m - 1);
      assert run[m] == Apply(run[m - 1], steps[m - 1]);
      LostStep(run[m - 1], steps[m - 1]);
    }
  }

  /** With the target set nobody begins to wait, and nobody stops but by taking the lock. */
  lemma WaitingStep(s: State, step: Step, i: nat)
    requires Enabled(s, step)
    ensures s.isSet && At(Apply(s, step), i) == WantLock ==> At(s, i) == WantLock
    ensures At(s, i) == WantLock && At(Apply(s, step), i) != WantLock ==> step == Acquire(i)
  {
    OthersStay(s, step);
  }

  lemma {:induction false} WaitedSince(run: seq<State>, steps: seq<Step>, k: nat, m: nat, i: nat)
    requires IsRun(run, steps) && k <= m < |run| && run[k].isSet && At(run[m], i) == WantLock
    ensures At(run[k], i) == WantLock
    decreases m
  {
    hide Enabled, Apply, At;
    if k < m {
      StaysSet(run, steps, k, m - 1);
      assert run[m] == Apply(run[m - 1], steps[m - 1]);
      WaitingStep(run[m - 1], steps[m - 1], i);
      WaitedSince(run, steps, k, m - 1, i);
    }
  }

  lemma {:induction false} AcquiredAt(run: seq<State>, steps: seq<Step>, k: nat, n: nat, i: nat) returns (m: nat)
    requires IsRun(run, steps) && k <= n < |run| && At(run[k], i) == WantLock && At(run[n], i) != WantLock
    ensures k <= m < n && steps[m] == Acquire(i)
    decreases n
  {
    hide Enabled, Apply, At;
    assert run[n] == Apply(run[n - 1], steps[n - 1]);
    if At(run[n - 1], i) == WantLock {
      WaitingStep(run[n - 1], steps[n - 1], i);
      m := n - 1;
    } else {
      m := AcquiredAt(run, steps, k, n - 1, i);
    }
  }

  /** A run that has come to rest has lost the lock exactly when some call was waiting as `Set` gave it back. */
  lemma RestLeaksIff(run: seq<State>, steps: seq<Step>)
    requires IsRun(run, steps) && AtRest(run[|steps|])
    ensures Leaked(run[|steps|]) <==> WaiterAtRelease(run, steps)
  {
    var n := |steps|;
    RunKeepsInv(run, steps, n);
    RestShape(run[n]);
    LostIff(run, steps, n);
    if Leaked(run[n]) {
      var m :| 0 <= m < n && steps[m].Acquire? && run[m].isSet;
      LateWaiter(run, steps, m);
    }
    if WaiterAtRelease(run, steps) {
      var k, i: nat :| 0 <= k < n && steps[k] == SetRelease && At(run[k], i) == WantLock;
      WaiterLeaks(run, steps, k, i);
    }
  }

  lemma LateWaiter(run: seq<State>, steps: seq<Step>, m: nat)
    requires IsRun(run, steps) && m < |steps| && steps[m].Acquire? && run[m].isSet
    ensures WaiterAtRelease(run, steps)
  {
    RunKeepsInv(run, steps, m);
    FreeAndSet(run[m], steps[m].i);
    var k := ReleasedAt(run, steps, m);
    RunKeepsInv(run, steps, k);
    FreeAndSet(run[k], steps[m].i);
    hide Inv, Enabled, Apply;
    WaitedSince(run, steps, k, m, steps[m].i);
  }

  lemma FreeAndSet(s: State, i: nat)
    requires Inv(s)
    ensures s.isSet && Enabled(s, Acquire(i)) ==> s.setter == Done && At(s, i) == WantLock
    ensures Enabled(s, SetRelease) ==> s.isSet
  {
    hide Only, InOrder, Located;
  }

  lemma WaiterLeaks(run: seq<State>, steps: seq<Step>, k: nat, i: nat)
    requires IsRun(run, steps) && AtRest(run[|steps|])
    requires k < |steps| && steps[k] == SetRelease && At(run[k], i) == WantLock
    ensures Leaked(run[|steps|])
  {
    var n := |steps|;
    RunKeepsInv(run, steps, k);
    FreeAndSet(run[k], i);
    RunKeepsInv(run, steps, n);
    RestShape(run[n]);
    LostIff(run, steps, n);
    hide Inv, Enabled, Apply, AtRest;
    if !Lost(run[n]) {
      var m := AcquiredAt(run, steps, k, n, i);
      StaysSet(run, steps, k, m);
    }
  }

  /** Two calls look before the target is set and get to the lock afterwards. */
  function LeakingStep(k: nat): Step {
    match k
    case 0 => Load(0)
    case 1 => Load(1)
    case 2 => SetAcquire
    case 3 => SetExchange
    case 4 => SetAssign
    case 5 => SetClear
    case 6 => SetRelease
    case 7 => Acquire(0)
    case 8 => Reload(0)
    case _ => Deliver(0)
  }

  function LeakingState(k: nat): State {
    var calls := match k
      case 0 => [Start, Start]
      case 1 => [WantLock, Start]
      case 8 => [Check, WantLock]
      case 9 => [DirectLocked, WantLock]
      case _ => if k <= 7 then [WantLock, WantLock] else [Returned, WantLock];
    var setter := match k
      case 3 => Holding
      case 4 => Assign
      case 5 => Replay(0)
      case 6 => Unlock
      case _ => if k <= 2 then Before else Done;
    var lock := if 3 <= k <= 6 then SETTER else if k >= 8 then 0 else FREE;
    State(calls, setter, k >= 4, lock, [], if k >= 10 then [0] else [], [])
  }

  lemma LeakingRun(k: nat)
    requires k < 10
    ensures Enabled(LeakingState(k), LeakingStep(k))
    ensures LeakingState(k + 1) == Apply(LeakingState(k), LeakingStep(k))
  {
  }

  /** It happens: after this run one call has returned with the lock and the other waits for it. */
  lemma LeakHappens() returns (run: seq<State>, steps: seq<Step>)
    ensures IsRun(run, steps) && run[0] == Initial(2)
    ensures var s := run[|run| - 1]; Leaked(s) && s.setter == Done && At(s, 1) == WantLock
  {
    run := seq(11, k requires 0 <= k < 11 => LeakingState(k));
    steps := seq(10, k requires 0 <= k < 10 => LeakingStep(k));
    assert Initial(2).calls == [Start, Start];
    forall k | 0 <= k < |steps|
      ensures Enabled(run[k], steps[k]) && run[k + 1] == Apply(run[k], steps[k])
    {
      LeakingRun(k);
    }
    hide Enabled, Apply;
    assert run[0] == Initial(2);
  }

  // ---------------------------------------------------------------- the object, one thread at a time

  /** The logger behind it: what it has been given. */
  class Sink {
    var received: seq<int>

    constructor ()
      ensures received == []
    {
      received := [];
    }

    method Log(message: int)
      modifies this
      ensures received == old(received) + [message]
    {
      received := received + [message];
    }
  }

  class CFutureLogger {
    var target: Sink?
    var pending: seq<int>

    ghost predicate Valid()
      reads this
    {
      target != null ==> pending == []
    }

    /** All messages so far, handed over or still kept. */
    ghost function Sent(): seq<int>
      reads this, target
    {
      (if target == null then [] else target.received) + pending
    }

    constructor ()
      ensures Valid() && target == null && Sent() == []
    {
      target, pending := null, [];
    }

    /** The new target gets everything logged so far, behind what it had before. */
    method Set(sink: Sink)
      requires Valid() && target == null
      modifies this, sink
      ensures Valid() && target == sink && pending == []
      ensures sink.received == old(sink.received) + old(Sent()) == old(sink.received) + old(pending)
    {
      target := sink;
      for k := 0 to |pending|
        invariant target == sink && pending == old(pending)
        invariant sink.received == old(sink.received) + pending[..k]
      {
        target.Log(pending[k]);
      }
      assert pending[..|pending|] == old(Sent());
      pending := [];
    }

    /** A message goes to the target, or is kept for it. */
    method Log(message: int)
      requires Valid()
      modifies this`pending, target
      ensures Valid() && target == old(target)
      ensures Sent() == old(Sent()) + [message]
      ensures if target == null then pending == old(pending) + [message]
        else pending == [] && target.received == old(target.received) + [message]
    {
      if target != null {
        target.Log(message);
        return;
      }
      pending := pending + [message];
    }
  }
}
