/**
  The hook of one character as a state machine: what one tick does to the state, the timer and the
  hooked player, whatever the world around it answers.
 */
module HookMachine {
  const MAX_CLIENTS := 64
  const SERVER_TICK_SPEED := 50
  const HOLD_LIMIT := SERVER_TICK_SPEED + SERVER_TICK_SPEED / 5

  const HOOK_RETRACTED := -1
  const HOOK_IDLE := 0
  const HOOK_RETRACT_START := 1
  const HOOK_RETRACT_END := 3
  const HOOK_FLYING := 4
  const HOOK_GRABBED := 5

  /** `hooked` is the slot of the hooked player, or -1. */
  datatype Hook = Hook(state: int, tick: int, hooked: int)

  /** What the flight of the hook runs into first. */
  datatype Hit = NoHit | HitGround | HitNoHook | HitTele

  /**
    Everything one tick learns from the player and from the world: the input, the timer at launch,
    the outcome of the flight, the player caught (or -1) and whether the hooked player may be kept.
   */
  datatype Input = Input(
    useInput: bool,
    held: bool,
    launchTick: int,
    tooFar: bool,
    hit: Hit,
    teleOut: bool,
    picked: int,
    keeps: bool)

  /** The player's input: launch an idle hook, or let go. */
  function Handle(h: Hook, w: Input): Hook {
    if !w.useInput then h
    else if !w.held then h.(state := HOOK_IDLE, hooked := -1)
    else if h.state == HOOK_IDLE then Hook(HOOK_FLYING, w.launchTick, -1)
    else h
  }

  /** The flight: a caught player beats the length limit, and both beat the ground. */
  function Fly(h: Hook, w: Input): Hook {
    if w.picked != -1 then h.(state := HOOK_GRABBED, hooked := w.picked)
    else if w.tooFar then h.(state := HOOK_RETRACT_START)
    else
      match w.hit
      case NoHit => h
      case HitGround => h.(state := HOOK_GRABBED)
      case HitNoHook => h.(state := HOOK_RETRACT_START)
      case HitTele => if w.teleOut then h.(hooked := -1) else h
  }

  function Advance(h: Hook, w: Input): Hook {
    if h.state == HOOK_IDLE then h.(hooked := -1)
    else if HOOK_RETRACT_START <= h.state < HOOK_RETRACT_END then h.(state := h.state + 1)
    else if h.state == HOOK_RETRACT_END then h.(state := HOOK_RETRACTED)
    else if h.state == HOOK_FLYING then Fly(h, w)
    else h
  }

  /** A grabbing hook: drop a player who may not be kept, count, drop a player held too long. */
  function Hold(h: Hook, w: Input): Hook {
    if h.state != HOOK_GRABBED then h
    else
      var k := if h.hooked != -1 && !w.keeps then Hook(HOOK_RETRACTED, h.tick + 1, -1) else h.(tick := h.tick + 1);
      if k.hooked != -1 && k.tick > HOLD_LIMIT then Hook(HOOK_RETRACTED, k.tick, -1) else k
  }

  /** The hook after one tick. */
  function Next(h: Hook, w: Input): Hook {
    Hold(Advance(Handle(h, w), w), w)
  }

  function Ticks(h: Hook, ws: seq<Input>): Hook
    decreases |ws|
  {
    if ws == [] then h else Next(Ticks(h, ws[..|ws| - 1]), ws[|ws| - 1])
  }

  const RESET := Hook(HOOK_IDLE, 0, -1)

  predicate Sane(h: Hook) {
    && HOOK_RETRACTED <= h.state <= HOOK_GRABBED
    && -1 <= h.hooked < MAX_CLIENTS
    && (h.hooked != -1 ==> h.state == HOOK_GRABBED && h.tick <= HOLD_LIMIT)
  }

  predicate Allowed(w: Input) {
    -1 <= w.picked < MAX_CLIENTS
  }

  lemma NextKeepsSane(h: Hook, w: Input)
    requires Sane(h) && Allowed(w)
    ensures Sane(Next(h, w))
  {
  }

  /** Over any ticks from a reset: the state is a state, and only a grabbing hook has a player. */
  lemma {:induction false} TicksKeepSane(h: Hook, ws: seq<Input>)
    requires Sane(h) && forall w :: w in ws ==> Allowed(w)
    ensures Sane(Ticks(h, ws))
    decreases |ws|
  {
    if ws != [] {
      var k := |ws| - 1;
      TicksKeepSane(h, ws[..k]);
      assert ws[k] in ws;
      NextKeepsSane(Ticks(h, ws[..k]), ws[k]);
    }
  }

  // ---------------------------------------------------------------- which states follow which

  /** The states that can follow, given the player's input. */
  function Successors(h: Hook, useInput: bool, held: bool): set<int> {
    if useInput && !held then {HOOK_IDLE}
    else if h.state == HOOK_IDLE && !useInput then {HOOK_IDLE}
    else if h.state == HOOK_IDLE || h.state == HOOK_FLYING then
      {HOOK_FLYING, HOOK_RETRACT_START, HOOK_GRABBED, HOOK_RETRACTED}
    else if h.state == HOOK_GRABBED then
      if h.hooked == -1 then {HOOK_GRABBED}
      else if h.tick == HOLD_LIMIT then {HOOK_RETRACTED}
      else {HOOK_GRABBED, HOOK_RETRACTED}
    else if h.state == HOOK_RETRACTED || h.state == HOOK_RETRACT_END then {HOOK_RETRACTED}
    else {h.state + 1}
  }

  ghost predicate CanStep(h: Hook, useInput: bool, held: bool, t: int) {
    exists w: Input :: w.useInput == useInput && w.held == held && Allowed(w) && Next(h, w).state == t
  }

  lemma OnlySuccessors(h: Hook, w: Input)
    requires Sane(h) && Allowed(w)
    ensures Next(h, w).state in Successors(h, w.useInput, w.held)
  {
  }

  /** A tick in which the hook meets nobody and nothing else happens but what is named. */
  function Plain(useInput: bool, held: bool, tooFar: bool, hit: Hit, picked: int): Input {
    Input(useInput, held, 0, tooFar, hit, false, picked, picked == -1)
  }

  lemma Witness(h: Hook, w: Input)
    requires Allowed(w)
    ensures CanStep(h, w.useInput, w.held, Next(h, w).state)
  {
  }

  lemma AllSuccessors(h: Hook, useInput: bool, held: bool, t: int)
    requires Sane(h) && t in Successors(h, useInput, held)
    ensures CanStep(h, useInput, held, t)
  {
    Witness(h, Plain(useInput, held, t == HOOK_RETRACT_START, if t == HOOK_GRABBED then HitGround else NoHit,
                     if t == HOOK_RETRACTED then 0 else -1));
  }

  /** Exactly these steps are possible. */
  lemma ExactTransitions(h: Hook, useInput: bool, held: bool, t: int)
    requires Sane(h)
    ensures CanStep(h, useInput, held, t) <==> t in Successors(h, useInput, held)
  {
    hide Next, Successors;
    if t in Successors(h, useInput, held) {
      AllSuccessors(h, useInput, held, t);
    }
    if CanStep(h, useInput, held, t) {
      var w: Input :| w.useInput == useInput && w.held == held && Allowed(w) && Next(h, w).state == t;
      OnlySuccessors(h, w);
    }
  }

  // ---------------------------------------------------------------- what one tick does

  /** What becomes of a flight: a caught player beats the length limit, and both beat what the hook hit. */
  lemma FlightOutcome(h: Hook, w: Input)
    requires h.state == HOOK_FLYING && h.hooked == -1 && (w.useInput ==> w.held)
    ensures var n := Next(h, w);
      && (n.state == 5 && n.hooked == -1 <==> w.picked == -1 && !w.tooFar && w.hit == HitGround)
      && (n.state == 1 <==> w.picked == -1 && (w.tooFar || w.hit == HitNoHook))
      && (n.state == 4 <==> w.picked == -1 && !w.tooFar && (w.hit == NoHit || w.hit == HitTele))
      && (n.state == -1 <==> w.picked != -1 && !(w.keeps && h.tick < 60))
      && n.hooked == (if w.picked != -1 && w.keeps && h.tick < 60 then w.picked else -1)
      && n.tick == h.tick + if n.state == 5 || n.state == -1 then 1 else 0
  {
  }

  /** A tick of a hook that does not fly. */
  lemma OtherOutcomes(h: Hook, w: Input)
    requires Sane(h) && h.state != HOOK_FLYING
    ensures w.useInput && !w.held ==> Next(h, w) == Hook(0, h.tick, -1)
    ensures h.state == 0 && !w.useInput ==> Next(h, w) == h
    ensures h.state == 0 && w.useInput && w.held ==> Next(h, w) == Next(Hook(4, w.launchTick, -1), w)
    ensures (w.useInput ==> w.held) && (h.state == 1 || h.state == 2) ==> Next(h, w) == h.(state := h.state + 1)
    ensures (w.useInput ==> w.held) && (h.state == 3 || h.state == -1) ==> Next(h, w) == h.(state := -1)
    ensures (w.useInput ==> w.held) && h.state == 5 ==>
      Next(h, w) ==
        if h.hooked == -1 || (w.keeps && h.tick < 60) then h.(tick := h.tick + 1) else Hook(-1, h.tick + 1, -1)
  {
  }

  // ---------------------------------------------------------------- how long a player is held

  /** The timer a hook starts its next tick with. */
  function StartTick(h: Hook, w: Input): int {
    Handle(h, w).tick
  }

  /**
    A player hooked at the end of each of these ticks: it is the same player throughout, the timer
    counts every tick, and so there are at most `HOLD_LIMIT` minus the first timer of them.
   */
  lemma {:induction false} HoldIsBounded(h: Hook, ws: seq<Input>)
    requires Sane(h) && ws != [] && forall w :: w in ws ==> Allowed(w)
    requires forall n :: 0 < n <= |ws| ==> Ticks(h, ws[..n]).hooked != -1
    ensures Ticks(h, ws).tick == StartTick(h, ws[0]) + |ws|
    ensures |ws| <= HOLD_LIMIT - StartTick(h, ws[0])
    ensures forall n :: 0 < n <= |ws| ==> Ticks(h, ws[..n]).hooked == Ticks(h, ws).hooked
    decreases |ws|
  {
    var k := |ws| - 1;
    var prev := ws[..k];
    TicksKeepSane(h, prev);
    assert ws[..|ws|] == ws;
    if prev == [] {
      assert Ticks(h, ws) == Next(Ticks(h, ws[..k]), ws[k]);
    } else {
      forall n | 0 < n <= k
        ensures Ticks(h, prev[..n]).hooked != -1 && prev[..n] == ws[..n]
      {
        assert prev[..n] == ws[..n];
      }
      HoldIsBounded(h, prev);
      assert Ticks(h, ws[..k]).hooked != -1;
    }
  }

  predicate Withdrawn(h: Hook) {
    h.state == HOOK_RETRACTED || HOOK_RETRACT_START <= h.state <= HOOK_RETRACT_END
  }

  /** A hook that is drawing back is not launched again, and catches nobody, until the player lets go. */
  lemma {:induction false} NoRelaunch(h: Hook, ws: seq<Input>)
    requires Sane(h) && Withdrawn(h)
    requires forall w :: w in ws ==> Allowed(w) && (w.useInput ==> w.held)
    ensures Withdrawn(Ticks(h, ws)) && Ticks(h, ws).hooked == -1
    ensures |ws| >= 3 ==> Ticks(h, ws).state == HOOK_RETRACTED
    decreases |ws|
  {
    Drawing(h, ws);
  }

  /** How many ticks are left until the hook is back. */
  function TicksBack(h: Hook): int {
    if h.state == HOOK_RETRACTED then 0 else HOOK_RETRACT_END + 1 - h.state
  }

  lemma {:induction false} Drawing(h: Hook, ws: seq<Input>)
    requires Sane(h) && Withdrawn(h)
    requires forall w :: w in ws ==> Allowed(w) && (w.useInput ==> w.held)
    ensures Withdrawn(Ticks(h, ws)) && Ticks(h, ws).hooked == -1
    ensures TicksBack(Ticks(h, ws)) == if |ws| < TicksBack(h) then TicksBack(h) - |ws| else 0
    decreases |ws|
  {
    if ws != [] {
      var k := |ws| - 1;
      Drawing(h, ws[..k]);
      assert ws[k] in ws;
    }
  }
}
