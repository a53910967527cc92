/**
  The asynchronous file writer as a step relation: any number of caller threads and one worker
  thread share a lock, a counting semaphore, the queue, the finish flag and the reference count.
  Each step below is one lock-protected section, one semaphore operation, one file write or one
  release of memory. The queue appears as the byte sequence that `AsyncRing.AsyncBuffer` refines.
 */
module AsyncProtocol {
  import opened AsyncRing
  import opened Bytes

  type Text = seq<byte>

  datatype Finish = Running | Close | Exit

  datatype Holder = Free | Worker | Caller(t: nat)

  /** Where the worker is; `Writing` and `Releasing` are outside the lock. */
  datatype WorkerPc =
    | WantLock                    // about to take the lock
    | LoopTop                     // holds the lock, at the head of its loop
    | Sleeping                    // gave the lock up to wait for the semaphore
    | Writing(local: Text)        // gave the lock up to write its own buffer to the file
    | Releasing(last: bool)       // dropped its reference; frees the memory if it was the last
    | Finished

  /** Where a caller thread is. */
  datatype CallerPc =
    | Idle
    | InWrite                     // between aio_lock and aio_unlock
    | InClose                     // in aio_close, holding the lock
    | InWait                      // in aio_wait, holding the lock
    | InFree                      // in aio_free, holding the lock
    | MustSignal(join: bool)      // has unlocked, still has to signal; then joins if in aio_wait
    | Joining                     // in thread_wait
    | CallerReleasing(last: bool) // dropped the callers' reference; frees the memory if last
    | Gone                        // has returned from aio_free

  datatype State = State(
    lock: Holder,
    sem: nat,
    ring: Text,
    finish: Finish,
    refcount: int,
    worker: WorkerPc,
    callers: seq<CallerPc>,
    released: bool,               // some caller has entered aio_free
    file: Text,                   // what has been written to the file
    closed: bool,                 // io_close was called
    enqueued: Text,               // history: everything queued, in lock order
    frees: nat)                   // how often the memory has been freed

  datatype Step =
    | WorkerLock
    | WorkerSleep
    | WorkerTake
    | WorkerQuit
    | WorkerWake
    | WorkerWrite
    | WorkerRelease
    | Begin(t: nat, call: CallerPc)
    | Append(t: nat, data: Text)
    | UnlockWrite(t: nat)
    | SetClose(t: nat)
    | SetExit(t: nat)
    | DropReference(t: nat)
    | Signal(t: nat)
    | Join(t: nat)
    | CallerRelease(t: nat)

  predicate InCritical(c: CallerPc) {
    c.InWrite? || c.InClose? || c.InWait? || c.InFree?
  }

  function At(s: State, t: nat): CallerPc {
    if t < |s.callers| then s.callers[t] else Idle
  }

  function Put(s: State, t: nat, c: CallerPc): State
    requires t < |s.callers|
  {
    s.(callers := s.callers[t := c])
  }

  /** When a step can happen. Blocking operations wait for the lock, the semaphore or the worker. */
  predicate Enabled(s: State, step: Step) {
    match step
    case WorkerLock => s.worker.WantLock? && s.lock.Free?
    case WorkerSleep => s.worker.LoopTop? && s.ring == [] && s.finish.Running?
    case WorkerTake => s.worker.LoopTop? && s.ring != []
    case WorkerQuit => s.worker.LoopTop? && s.ring == [] && !s.finish.Running?
    case WorkerWake => s.worker.Sleeping? && 0 < s.sem
    case WorkerWrite => s.worker.Writing?
    case WorkerRelease => s.worker.Releasing?
    case Begin(t, call) =>
      && t < |s.callers| && s.callers[t].Idle? && InCritical(call) && s.lock.Free?
      // the callers' side of the contract: nothing is called once aio_free has begun, and
      // aio_free is called when no other call is under way
      && !s.released
      && (call.InFree? ==> forall i :: 0 <= i < |s.callers| ==> s.callers[i].Idle?)
    case Append(t, data) => At(s, t).InWrite?
    case UnlockWrite(t) => At(s, t).InWrite?
    case SetClose(t) => At(s, t).InClose?
    case SetExit(t) => At(s, t).InWait?
    case DropReference(t) => At(s, t).InFree?
    case Signal(t) => At(s, t).MustSignal?
    case Join(t) => At(s, t).Joining? && s.worker.Finished?
    case CallerRelease(t) => At(s, t).CallerReleasing?
  }

  function Apply(s: State, step: Step): State
    requires Enabled(s, step)
  {
    match step
    case WorkerLock => s.(lock := Worker, worker := LoopTop)
    case WorkerSleep => s.(lock := Free, worker := Sleeping)
    case WorkerTake =>
      var n := Least(|s.ring|, ASYNC_LOCAL_BUFSIZE);
      s.(lock := Free, ring := s.ring[n..], worker := Writing(s.ring[..n]))
    case WorkerQuit =>
      s.(lock := Free, closed := s.closed || s.finish.Close?,
         refcount := s.refcount - 1, worker := Releasing(s.refcount - 1 == 0))
    case WorkerWake => s.(sem := s.sem - 1, worker := WantLock)
    case WorkerWrite => s.(file := s.file + s.worker.local, worker := WantLock)
    case WorkerRelease => s.(frees := s.frees + (if s.worker.last then 1 else 0), worker := Finished)
    case Begin(t, call) => Put(s, t, call).(lock := Caller(t), released := s.released || call.InFree?)
    case Append(t, data) => s.(ring := s.ring + data, enqueued := s.enqueued + data)
    case UnlockWrite(t) => Put(s, t, MustSignal(false)).(lock := Free)
    case SetClose(t) => Put(s, t, MustSignal(false)).(lock := Free, finish := Close)
    case SetExit(t) =>
      Put(s, t, MustSignal(true)).(lock := Free, finish := if s.finish.Running? then Exit else s.finish)
    case DropReference(t) =>
      Put(s, t, CallerReleasing(s.refcount - 1 == 0)).(lock := Free, refcount := s.refcount - 1)
    case Signal(t) => Put(s, t, if s.callers[t].join then Joining else Idle).(sem := s.sem + 1)
    case Join(t) => Put(s, t, Idle)
    case CallerRelease(t) =>
      Put(s, t, Gone).(frees := s.frees + (if s.callers[t].last then 1 else 0))
  }

  /** Whether a step dereferences the shared structure: all but joining, and dropping out without freeing. */
  predicate Touches(s: State, step: Step)
    requires Enabled(s, step)
  {
    match step
    case Join(_) => false
    case WorkerRelease => s.worker.last
    case CallerRelease(t) => s.callers[t].last
    case _ => true
  }

  function Start(threads: nat): State {
    State(Free, 0, [], Running, 2, WantLock, seq(threads, _ => Idle), false, [], false, [], 0)
  }

  /** A run: its states, linked by the steps taken between them. */
  ghost predicate IsRun(run: seq<State>, steps: seq<Step>) {
    && |run| == |steps| + 1
    && (exists threads: nat :: run[0] == Start(threads))
    && forall i :: 0 <= i < |steps| ==> Enabled(run[i], steps[i]) && run[i + 1] == Apply(run[i], steps[i])
  }

  // ---------------------------------------------------------------- what every step keeps

  function Local(s: State): Text {
    if s.worker.Writing? then s.worker.local else []
  }

  ghost predicate Conserved(s: State) {
    s.file + Local(s) + s.ring == s.enqueued
  }

  ghost predicate LockHeld(s: State) {
    && (s.lock.Worker? <==> s.worker.LoopTop?)
    && (forall t: nat :: t < |s.callers| ==> (InCritical(s.callers[t]) <==> s.lock == Caller(t)))
    && (s.lock.Caller? ==> s.lock.t < |s.callers|)
  }

  predicate WorkerHolds(s: State) {
    !s.worker.Releasing? && !s.worker.Finished?
  }

  predicate Leaving(c: CallerPc) {
    c.InFree? || c.CallerReleasing? || c.Gone?
  }

  /** The callers' reference is theirs until the one that frees has dropped it. */
  ghost predicate CallersHold(s: State) {
    forall t :: 0 <= t < |s.callers| ==> !s.callers[t].CallerReleasing? && !s.callers[t].Gone?
  }

  ghost predicate Discipline(s: State) {
    && (s.released <==> exists t :: 0 <= t < |s.callers| && Leaving(s.callers[t]))
    && (forall t, u :: 0 <= t < |s.callers| && 0 <= u < |s.callers| && Leaving(s.callers[t]) && u != t
          ==> s.callers[u].Idle?)
  }

  ghost predicate Counted(s: State) {
    && s.refcount == (if WorkerHolds(s) then 1 else 0) + (if CallersHold(s) then 1 else 0)
    && (!WorkerHolds(s) ==> !s.finish.Running?)
    && (forall t :: 0 <= t < |s.callers| && (s.callers[t].Joining? || s.callers[t] == MustSignal(true))
          ==> !s.finish.Running?)
  }

  /** Exactly one holder is bound to free, or has freed, once the count is down to zero. */
  ghost predicate FreedOnce(s: State) {
    var workerLast := s.worker.Releasing? && s.worker.last;
    && (0 < s.refcount ==> s.frees == 0 && !workerLast && NoCallerLast(s))
    && (s.refcount == 0 ==>
          || (s.frees == 0 && workerLast && NoCallerLast(s))
          || (s.frees == 0 && !workerLast && !NoCallerLast(s))
          || (s.frees == 1 && !workerLast && NoCallerLast(s)))
  }

  ghost predicate NoCallerLast(s: State) {
    forall t :: 0 <= t < |s.callers| && s.callers[t].CallerReleasing? ==> !s.callers[t].last
  }

  /** A signal is on its way: already counted by the semaphore, or owed by a caller. */
  ghost predicate SignalDue(s: State) {
    || 0 < s.sem
    || exists t :: 0 <= t < |s.callers| && (s.callers[t].InWrite? || s.callers[t].MustSignal?)
  }

  ghost predicate NoLostWakeup(s: State) {
    s.worker.Sleeping? && (s.ring != [] || !s.finish.Running?) ==> SignalDue(s)
  }

  ghost predicate Inv(s: State) {
    Conserved(s) && LockHeld(s) && Discipline(s) && Counted(s) && FreedOnce(s) && NoLostWakeup(s)
  }

  lemma TakeConserves(file: Text, ring: Text, n: nat)
    requires n <= |ring|
    ensures file + ring[..n] + ring[n..] == file + [] + ring
  {
  }

  lemma WriteConserves(file: Text, local: Text, ring: Text)
    ensures (file + local) + [] + ring == file + local + ring
  {
  }

  lemma KeepsConserved(s: State, step: Step)
    requires Inv(s) && Enabled(s, step)
    ensures Conserved(Apply(s, step))
  {
    var s' := Apply(s, step);
    match step
    case WorkerTake =>
      TakeConserves(s.file, s.ring, Least(|s.ring|, ASYNC_LOCAL_BUFSIZE));
    case WorkerWrite =>
      WriteConserves(s.file, Local(s), s.ring);
    case Append(t, data) =>
      assert s.file + Local(s) + (s.ring + data) == s.file + Local(s) + s.ring + data;
    case _ =>
  }

  predicate WorkerStep(step: Step) {
    match step
    case WorkerLock | WorkerSleep | WorkerTake | WorkerQuit | WorkerWake | WorkerWrite | WorkerRelease => true
    case _ => false
  }

  lemma WorkerKeepsLockHeld(s: State, step: Step)
    requires Inv(s) && Enabled(s, step) && WorkerStep(step)
    ensures LockHeld(Apply(s, step)) && Discipline(Apply(s, step))
  {
  }

  lemma WorkerKeepsCounted(s: State, step: Step)
    requires Inv(s) && Enabled(s, step) && WorkerStep(step)
    ensures Counted(Apply(s, step)) && FreedOnce(Apply(s, step))
  {
    var s' := Apply(s, step);
    assert CallersHold(s') == CallersHold(s) && NoCallerLast(s') == NoCallerLast(s);
  }

  lemma CallerKeepsLockHeld(s: State, step: Step)
    requires Inv(s) && Enabled(s, step) && !WorkerStep(step)
    ensures LockHeld(Apply(s, step))
  {
  }

  lemma CallerKeepsDiscipline(s: State, step: Step)
    requires Inv(s) && Enabled(s, step) && !WorkerStep(step)
    ensures Discipline(Apply(s, step))
  {
    var s' := Apply(s, step);
    if s.released {
      var t :| 0 <= t < |s.callers| && Leaving(s.callers[t]);
      assert Leaving(s'.callers[t]);
    } else if step.Begin? {
      assert Leaving(s'.callers[step.t]) <==> step.call.InFree?;
    }
  }

  /** While any call other than the last stretch of aio_free is under way, the callers' reference stands. */
  lemma CallersHoldDuringCalls(s: State, step: Step)
    requires Inv(s) && Enabled(s, step) && !WorkerStep(step) && !step.DropReference? && !step.CallerRelease?
    ensures CallersHold(s)
  {
    forall t | 0 <= t < |s.callers|
      ensures !s.callers[t].CallerReleasing? && !s.callers[t].Gone?
    {
      if Leaving(s.callers[t]) {
        assert s.released;
        assert t == step.t;
      }
    }
  }

  lemma CallerKeepsCounted(s: State, step: Step)
    requires Inv(s) && Enabled(s, step) && !WorkerStep(step)
    ensures Counted(Apply(s, step))
  {
    var s' := Apply(s, step);
    if step.DropReference? || step.CallerRelease? {
      assert Leaving(s.callers[step.t]);
      assert s'.callers[step.t].CallerReleasing? || s'.callers[step.t].Gone?;
    } else {
      CallersHoldDuringCalls(s, step);
      assert CallersHold(s');
    }
  }

  lemma CallerKeepsFreedOnce(s: State, step: Step)
    requires Inv(s) && Enabled(s, step) && !WorkerStep(step)
    ensures FreedOnce(Apply(s, step))
  {
    var s' := Apply(s, step);
    if step.DropReference? || step.CallerRelease? {
      assert Leaving(s.callers[step.t]);
      assert s'.callers[step.t].CallerReleasing? <==> step.DropReference?;
    } else {
      CallersHoldDuringCalls(s, step);
      assert NoCallerLast(s');
    }
  }

  lemma KeepsNoLostWakeup(s: State, step: Step)
    requires Inv(s) && Enabled(s, step)
    ensures NoLostWakeup(Apply(s, step))
  {
    var s' := Apply(s, step);
    if s.worker.Sleeping? && (s.ring != [] || !s.finish.Running?) && s.sem == 0 {
      var t :| 0 <= t < |s.callers| && (s.callers[t].InWrite? || s.callers[t].MustSignal?);
      assert step.Signal? || s'.callers[t].InWrite? || s'.callers[t].MustSignal?;
    } else if step.Append? || step.SetClose? || step.SetExit? {
      assert s'.callers[step.t].InWrite? || s'.callers[step.t].MustSignal?;
    }
  }

  lemma StepKeepsInv(s: State, step: Step)
    requires Inv(s) && Enabled(s, step)
    ensures Inv(Apply(s, step))
  {
    KeepsConserved(s, step);
    KeepsNoLostWakeup(s, step);
    if WorkerStep(step) {
      WorkerKeepsLockHeld(s, step);
      WorkerKeepsCounted(s, step);
    } else {
      CallerKeepsLockHeld(s, step);
      CallerKeepsDiscipline(s, step);
      CallerKeepsCounted(s, step);
      CallerKeepsFreedOnce(s, step);
    }
  }

  lemma {:induction false} RunKeepsInv(run: seq<State>, steps: seq<Step>, i: nat)
    requires IsRun(run, steps) && i < |run|
    ensures Inv(run[i])
    decreases i
  {
    if 0 < i {
      RunKeepsInv(run, steps, i - 1);
      assert run[i] == Apply(run[i - 1], steps[i - 1]);
      StepKeepsInv(run[i - 1], steps[i - 1]);
    }
  }

  // ---------------------------------------------------------------- what the steps asked for

  /** Everything the calls of `aio_write_unlocked` among these steps hand over, in order. */
  function Queued(steps: seq<Step>): Text {
    if steps == [] then []
    else
      var k := |steps| - 1;
      Queued(steps[..k]) + if steps[k].Append? then steps[k].data else []
  }

  /** The finish flag as the closing and waiting calls among these steps leave it: closing prevails. */
  function Told(steps: seq<Step>): Finish {
    if exists m :: 0 <= m < |steps| && steps[m].SetClose? then Close
    else if exists m :: 0 <= m < |steps| && steps[m].SetExit? then Exit
    else Running
  }

  /** The latest call of caller `t`, if it has made one. */
  function LatestCall(steps: seq<Step>, t: nat): CallerPc {
    if steps == [] then Idle
    else
      var k := |steps| - 1;
      if steps[k].Begin? && steps[k].t == t then steps[k].call else LatestCall(steps[..k], t)
  }

  lemma Linked(run: seq<State>, steps: seq<Step>, i: nat)
    requires IsRun(run, steps) && i + 1 < |run|
    ensures i < |steps| && Enabled(run[i], steps[i]) && run[i + 1] == Apply(run[i], steps[i])
  {
  }

  lemma Latest(run: seq<State>, steps: seq<Step>, i: nat)
    requires IsRun(run, steps) && 0 < i < |run|
    ensures Enabled(run[i - 1], steps[i - 1]) && run[i] == Apply(run[i - 1], steps[i - 1])
    ensures steps[..i] == steps[..i - 1] + [steps[i - 1]] && steps[..i][..i - 1] == steps[..i - 1]
  {
  }

  /** The history of a run is what its steps handed over. */
  lemma {:induction false} HistoryIsQueued(run: seq<State>, steps: seq<Step>, i: nat)
    requires IsRun(run, steps) && i < |run|
    ensures run[i].enqueued == Queued(steps[..i])
    decreases i
  {
    if 0 < i {
      hide IsRun;
      HistoryIsQueued(run, steps, i - 1);
      Latest(run, steps, i);
    }
  }

  /** The finish flag is what the steps told it to be. */
  lemma {:induction false} FinishIsTold(run: seq<State>, steps: seq<Step>, i: nat)
    requires IsRun(run, steps) && i < |run|
    ensures run[i].finish == Told(steps[..i])
    decreases i
  {
    if i == 0 {
      assert steps[..0] == [];
    } else {
      hide IsRun, Told, Apply;
      FinishIsTold(run, steps, i - 1);
      Latest(run, steps, i);
      ToldNext(steps[..i - 1], steps[i - 1]);
      FinishAndClosed(run[i - 1], steps[i - 1]);
    }
  }

  /** How a step changes the finish flag, and whether it closes the file. */
  lemma FinishAndClosed(s: State, step: Step)
    requires Enabled(s, step)
    ensures Apply(s, step).finish ==
      if step.SetClose? then Close else if step.SetExit? && s.finish.Running? then Exit else s.finish
    ensures Apply(s, step).closed <==> s.closed || (step.WorkerQuit? && s.finish.Close?)
  {
  }

  lemma ToldNext(steps: seq<Step>, step: Step)
    ensures Told(steps + [step]) ==
      if step.SetClose? then Close
      else if step.SetExit? && Told(steps).Running? then Exit
      else Told(steps)
  {
    var all := steps + [step];
    assert all[|steps|] == step && forall m :: 0 <= m < |steps| ==> all[m] == steps[m];
  }

  /** Where a caller can be during a call. */
  predicate During(call: CallerPc, c: CallerPc) {
    || c.Idle? || (c == call && InCritical(call))
    || (c == MustSignal(false) && (call.InWrite? || call.InClose?))
    || ((c == MustSignal(true) || c.Joining?) && call.InWait?)
    || ((c.CallerReleasing? || c.Gone?) && call.InFree?)
  }

  /** Every caller goes through the stages of the call it made. */
  lemma {:induction false} CallsTakeTheirCourse(run: seq<State>, steps: seq<Step>, i: nat, t: nat)
    requires IsRun(run, steps) && i < |run|
    ensures During(LatestCall(steps[..i], t), At(run[i], t))
    decreases i
  {
    if 0 < i {
      hide IsRun, Apply, During;
      CallsTakeTheirCourse(run, steps, i - 1, t);
      Latest(run, steps, i);
      CallTakesItsCourse(run[i - 1], steps[i - 1], LatestCall(steps[..i - 1], t), t);
    }
  }

  lemma CallTakesItsCourse(s: State, step: Step, call: CallerPc, t: nat)
    requires Enabled(s, step) && During(call, At(s, t))
    ensures During(if step.Begin? && step.t == t then step.call else call, At(Apply(s, step), t))
  {
  }

  /** The callers' reference is being given up exactly if `aio_free` has been called. */
  lemma {:induction false} ReleasedIff(run: seq<State>, steps: seq<Step>, i: nat)
    requires IsRun(run, steps) && i < |run|
    ensures run[i].released <==> exists m :: 0 <= m < i && steps[m].Begin? && steps[m].call.InFree?
    decreases i
  {
    if 0 < i {
      ReleasedIff(run, steps, i - 1);
      Latest(run, steps, i);
    }
  }

  /** What the worker holds while it writes is the front of the queue, 64 KiB of it or all. */
  lemma TakesTheFront(s: State)
    requires Enabled(s, WorkerTake)
    ensures var t := Apply(s, WorkerTake);
      && t.worker == Writing(s.ring[..|t.worker.local|]) && t.ring == s.ring[|t.worker.local|..]
      && 0 < |t.worker.local| <= 65536 && (t.ring == [] || |t.worker.local| == 65536)
  {
  }

  // ---------------------------------------------------------------- over whole runs

  /** Nothing is lost, duplicated or reordered on the way to the file, in any interleaving. */
  lemma BytesAreConserved(run: seq<State>, steps: seq<Step>, i: nat)
    requires IsRun(run, steps) && i < |run|
    ensures run[i].file + Local(run[i]) + run[i].ring == Queued(steps[..i])
    ensures run[i].file <= Queued(steps[..i])
  {
    hide IsRun, Queued, Inv;
    RunKeepsInv(run, steps, i);
    HistoryIsQueued(run, steps, i);
    FileFirst(run[i]);
  }

  lemma FileFirst(s: State)
    requires Inv(s)
    ensures s.file + Local(s) + s.ring == s.enqueued && s.file <= s.enqueued
  {
    hide LockHeld, Discipline, Counted, FreedOnce, NoLostWakeup;
    assert s.enqueued == s.file + (Local(s) + s.ring);
  }

  /** When the worker gives up its reference the file holds everything queued so far, and it
      stays that way for the rest of the run. */
  lemma {:induction false} FileIsCompleteAtExit(run: seq<State>, steps: seq<Step>, i: nat, j: nat)
    requires IsRun(run, steps) && i < j < |run| && steps[i].WorkerQuit?
    ensures run[j].file == Queued(steps[..i]) && !WorkerHolds(run[j])
    decreases j
  {
    hide IsRun, Queued, Inv, Apply, WorkerHolds, Enabled;
    Linked(run, steps, j - 1);
    if i + 1 < j {
      FileIsCompleteAtExit(run, steps, i, j - 1);
      WorkerStaysGone(run[j - 1], steps[j - 1]);
    } else {
      RunKeepsInv(run, steps, i);
      HistoryIsQueued(run, steps, i);
      QuitLeavesAll(run[i]);
    }
  }

  lemma QuitLeavesAll(s: State)
    requires Inv(s) && Enabled(s, WorkerQuit)
    ensures !WorkerHolds(Apply(s, WorkerQuit)) && Apply(s, WorkerQuit).file == s.enqueued
  {
    assert s.file + Local(s) + s.ring == s.file;
  }

  lemma WorkerStaysGone(s: State, step: Step)
    requires Enabled(s, step) && !WorkerHolds(s)
    ensures !WorkerHolds(Apply(s, step)) && Apply(s, step).file == s.file
  {
  }

  /** The memory is freed at most once, by the last of the two reference holders to let go, and
      no enabled step dereferences it afterwards. */
  lemma NoUseAfterFree(run: seq<State>, steps: seq<Step>, i: nat, step: Step)
    requires IsRun(run, steps) && i < |run|
    ensures run[i].frees <= 1
    ensures run[i].refcount == (if WorkerHolds(run[i]) then 1 else 0) + (if CallersHold(run[i]) then 1 else 0)
    ensures run[i].frees == 1 ==> run[i].refcount == 0
    ensures Enabled(run[i], step) && Touches(run[i], step) ==> run[i].frees == 0
  {
    RunKeepsInv(run, steps, i);
    var s := run[i];
    if s.frees == 1 && Enabled(s, step) {
      var t :| 0 <= t < |s.callers| && (s.callers[t].CallerReleasing? || s.callers[t].Gone?);
      assert Leaving(s.callers[t]);
      forall u | 0 <= u < |s.callers|
        ensures s.callers[u].Idle? || u == t
      {
      }
    }
  }

  /** Two callers are never both in a critical section, nor is a caller in one with the worker. */
  lemma SectionsExclude(run: seq<State>, steps: seq<Step>, i: nat, t: nat, u: nat)
    requires IsRun(run, steps) && i < |run|
    requires InCritical(At(run[i], t)) && InCritical(At(run[i], u))
    ensures t == u && !run[i].worker.LoopTop?
  {
    RunKeepsInv(run, steps, i);
    assert run[i].lock == Caller(t) && run[i].lock == Caller(u);
  }

  // ---------------------------------------------------------------- termination and quiescence

  /** The steps that finish work already begun: no new call, no further bytes. */
  predicate Continues(step: Step) {
    !step.Begin? && !step.Append?
  }

  function CallerWork(c: CallerPc): nat {
    match c
    case InWrite => 10
    case InClose => 10
    case InWait => 10
    case MustSignal(_) => 9
    case InFree => 2
    case Joining => 1
    case CallerReleasing(_) => 1
    case Idle => 0
    case Gone => 0
  }

  function TotalWork(cs: seq<CallerPc>): nat {
    if cs == [] then 0 else CallerWork(cs[0]) + TotalWork(cs[1..])
  }

  lemma {:induction false} TotalWorkUpdate(cs: seq<CallerPc>, t: nat, c: CallerPc)
    requires t < |cs|
    ensures TotalWork(cs[t := c]) == TotalWork(cs) - CallerWork(cs[t]) + CallerWork(c)
  {
    if t == 0 {
      assert cs[t := c][1..] == cs[1..];
    } else {
      TotalWorkUpdate(cs[1..], t - 1, c);
      assert cs[t := c][1..] == cs[1..][t - 1 := c];
    }
  }

  function WorkerWork(w: WorkerPc): nat {
    match w
    case Writing(_) => 4
    case WantLock => 3
    case LoopTop => 2
    case Releasing(_) => 1
    case Sleeping => 0
    case Finished => 0
  }

  function Measure(s: State): nat {
    6 * |s.ring| + 6 * s.sem + TotalWork(s.callers) + WorkerWork(s.worker)
  }

  /** Without new calls or bytes a run cannot go on for ever. */
  lemma ContinuingDecreases(s: State, step: Step)
    requires Enabled(s, step) && Continues(step)
    ensures Measure(Apply(s, step)) < Measure(s)
  {
    if !WorkerStep(step) {
      CallerDecreases(s, step);
    }
  }

  lemma CallerDecreases(s: State, step: Step)
    requires Enabled(s, step) && Continues(step) && !WorkerStep(step)
    ensures Measure(Apply(s, step)) < Measure(s)
  {
    var s' := Apply(s, step);
    TotalWorkUpdate(s.callers, step.t, s'.callers[step.t]);
  }

  ghost predicate Quiescent(s: State) {
    forall step :: Continues(step) ==> !Enabled(s, step)
  }

  /**
    No deadlock and no lost wake-up: once nothing under way can move, every call has returned. If nothing
    was closed or waited for, the worker sleeps with everything in the file; otherwise it has ended. The
    memory has been freed exactly if it was released and the worker ended.
   */
  lemma QuiescentIsDone(run: seq<State>, steps: seq<Step>)
    requires IsRun(run, steps) && Quiescent(run[|steps|])
    ensures var s := run[|steps|];
      && (forall t :: 0 <= t < |s.callers| ==> s.callers[t].Idle? || s.callers[t].Gone?)
      && (Told(steps).Running? ==> s.worker.Sleeping? && s.ring == [] && s.file == Queued(steps))
      && (!Told(steps).Running? ==> s.worker.Finished?)
      && (s.frees == 1 <==>
            !Told(steps).Running? && exists m :: 0 <= m < |steps| && steps[m].Begin? && steps[m].call.InFree?)
  {
    var s := run[|steps|];
    RunKeepsInv(run, steps, |steps|);
    QuiescentCallers(s);
    QuiescentWorker(s);
    FinishIsTold(run, steps, |steps|);
    HistoryIsQueued(run, steps, |steps|);
    ReleasedIff(run, steps, |steps|);
    assert steps[..|steps|] == steps;
    QuiescentFrees(s);
    if s.finish.Running? {
      assert s.file + Local(s) + s.ring == s.file;
    }
  }

  lemma QuiescentFrees(s: State)
    requires Inv(s) && forall t :: 0 <= t < |s.callers| ==> s.callers[t].Idle? || s.callers[t].Gone?
    requires if s.finish.Running? then s.worker.Sleeping? else s.worker.Finished?
    ensures s.frees == 1 <==> s.released && !s.finish.Running?
  {
    if s.released {
      var t :| 0 <= t < |s.callers| && Leaving(s.callers[t]);
      assert s.callers[t].Gone?;
    } else {
      forall t | 0 <= t < |s.callers|
        ensures !Leaving(s.callers[t])
      {
      }
    }
  }

  /** The step at which the worker gave up its reference. */
  lemma {:induction false} WorkerQuitAt(run: seq<State>, steps: seq<Step>, j: nat) returns (i: nat)
    requires IsRun(run, steps) && j < |run| && !WorkerHolds(run[j])
    ensures i < j && steps[i].WorkerQuit?
    decreases j
  {
    assert run[j] == Apply(run[j - 1], steps[j - 1]);
    if steps[j - 1].WorkerQuit? {
      i := j - 1;
    } else {
      i := WorkerQuitAt(run, steps, j - 1);
    }
  }

  lemma {:induction false} QueuedFixed(steps: seq<Step>, i: nat, j: nat)
    requires i <= j <= |steps| && forall m :: i <= m < j ==> !steps[m].Append?
    ensures Queued(steps[..j]) == Queued(steps[..i])
    decreases j
  {
    if i < j {
      QueuedFixed(steps, i, j - 1);
      assert steps[..j][..j - 1] == steps[..j - 1];
    }
  }

  /** The worker gives up its reference only after a call to close or to wait. */
  lemma QuitIsTold(run: seq<State>, steps: seq<Step>, i: nat)
    requires IsRun(run, steps) && i < |steps| && steps[i].WorkerQuit?
    ensures !Told(steps[..i]).Running?
  {
    FinishIsTold(run, steps, i);
    assert Enabled(run[i], steps[i]);
  }

  lemma ToldSince(steps: seq<Step>, k: nat)
    requires k < |steps| && (steps[k].SetClose? || steps[k].SetExit?)
    requires forall m :: 0 <= m < k ==> !steps[m].SetClose? && !steps[m].SetExit?
    ensures !Told(steps).Running? && forall i :: 0 <= i <= k ==> Told(steps[..i]).Running?
  {
  }

  lemma EndedHoldsNot(s: State)
    ensures s.worker.Finished? ==> !WorkerHolds(s)
  {
  }

  /** What aio_close and aio_wait are for: if nothing is queued after the first of them took
      effect (step `k`), then when all calls have returned the file is everything queued. */
  lemma CloseDelivers(run: seq<State>, steps: seq<Step>, k: nat)
    requires IsRun(run, steps) && Quiescent(run[|steps|])
    requires k < |steps| && (steps[k].SetClose? || steps[k].SetExit?)
    requires forall m :: 0 <= m < k ==> !steps[m].SetClose? && !steps[m].SetExit?
    requires forall m :: k <= m < |steps| ==> !steps[m].Append?
    ensures run[|steps|].file == Queued(steps) && run[|steps|].worker.Finished?
  {
    var n := |steps|;
    assert |run| == n + 1 && steps[..n] == steps;
    hide IsRun, Quiescent, Queued, Told, WorkerHolds;
    ToldSince(steps, k);
    QuiescentIsDone(run, steps);
    EndedHoldsNot(run[n]);
    var i := WorkerQuitAt(run, steps, n);
    QuitIsTold(run, steps, i);
    FileIsCompleteAtExit(run, steps, i, n);
    QueuedFixed(steps, i, n);
  }

  /** What a call of aio_wait returns to: the worker has ended, and the file is all it found queued. */
  lemma WaitDelivers(run: seq<State>, steps: seq<Step>, j: nat) returns (i: nat)
    requires IsRun(run, steps) && j < |steps| && steps[j].Join?
    ensures i < j && steps[i].WorkerQuit? && LatestCall(steps[..j], steps[j].t).InWait?
    ensures run[j].worker.Finished? && run[j + 1].file == Queued(steps[..i])
    ensures (forall m :: i <= m < j ==> !steps[m].Append?) ==> run[j + 1].file == Queued(steps[..j])
  {
    hide Queued, Apply, WorkerHolds, LatestCall;
    JoinInWait(run, steps, j);
    i := WorkerQuitAt(run, steps, j);
    FileIsCompleteAtExit(run, steps, i, j + 1);
    if forall m :: i <= m < j ==> !steps[m].Append? {
      QueuedFixed(steps, i, j);
    }
  }

  /** Only `aio_wait` joins, and it joins a worker that has ended. */
  lemma JoinInWait(run: seq<State>, steps: seq<Step>, j: nat)
    requires IsRun(run, steps) && j < |steps| && steps[j].Join?
    ensures run[j].worker.Finished? && !WorkerHolds(run[j]) && LatestCall(steps[..j], steps[j].t).InWait?
  {
    hide LatestCall;
    assert Enabled(run[j], steps[j]);
    CallsTakeTheirCourse(run, steps, j, steps[j].t);
  }

  /** The worker gives up its reference but once. */
  lemma QuitsOnce(run: seq<State>, steps: seq<Step>, i: nat, j: nat)
    requires IsRun(run, steps) && i < j < |steps| && steps[i].WorkerQuit?
    ensures !steps[j].WorkerQuit?
  {
    FileIsCompleteAtExit(run, steps, i, j);
    assert Enabled(run[j], steps[j]);
  }

  /** Step `i` gives up the worker's reference when some call has closed the file. */
  predicate ClosingQuit(steps: seq<Step>, i: nat)
    requires i < |steps|
  {
    steps[i].WorkerQuit? && Told(steps[..i]).Close?
  }

  /** The file is closed exactly if some call had closed it by the time the worker gave up its reference. */
  lemma {:induction false} ClosedIff(run: seq<State>, steps: seq<Step>, j: nat)
    requires IsRun(run, steps) && j < |run|
    ensures run[j].closed <==> exists i :: 0 <= i < j && ClosingQuit(steps, i)
    decreases j
  {
    if 0 < j {
      hide IsRun, Apply, Told;
      ClosedIff(run, steps, j - 1);
      Latest(run, steps, j);
      FinishAndClosed(run[j - 1], steps[j - 1]);
      FinishIsTold(run, steps, j - 1);
      assert ClosingQuit(steps, j - 1) <==> steps[j - 1].WorkerQuit? && run[j - 1].finish.Close?;
    }
  }

  lemma QuiescentWorker(s: State)
    requires Inv(s) && Quiescent(s)
    requires forall t :: 0 <= t < |s.callers| ==> !InCritical(s.callers[t]) && !s.callers[t].MustSignal?
    ensures if s.finish.Running? then s.worker.Sleeping? && s.ring == [] else s.worker.Finished?
  {
    assert !Enabled(s, WorkerLock);
    assert !Enabled(s, WorkerSleep);
    assert !Enabled(s, WorkerTake);
    assert !Enabled(s, WorkerQuit);
    assert !Enabled(s, WorkerWake);
    assert !Enabled(s, WorkerWrite);
    assert !Enabled(s, WorkerRelease);
  }

  lemma QuiescentCallers(s: State)
    requires Inv(s) && Quiescent(s)
    ensures forall t :: 0 <= t < |s.callers| ==> s.callers[t].Idle? || s.callers[t].Gone?
  {
    forall t: nat | t < |s.callers|
      ensures s.callers[t].Idle? || s.callers[t].Gone? || s.callers[t].Joining?
    {
      QuiescentCaller(s, t);
    }
    QuiescentWorker(s);
    forall t: nat | t < |s.callers|
      ensures !s.callers[t].Joining?
    {
      assert !Enabled(s, Join(t));
    }
  }

  lemma QuiescentCaller(s: State, t: nat)
    requires Quiescent(s) && t < |s.callers|
    ensures s.callers[t].Idle? || s.callers[t].Gone? || s.callers[t].Joining?
  {
    assert !Enabled(s, UnlockWrite(t));
    assert !Enabled(s, SetClose(t));
    assert !Enabled(s, SetExit(t));
    assert !Enabled(s, DropReference(t));
    assert !Enabled(s, Signal(t));
    assert !Enabled(s, CallerRelease(t));
  }
}
