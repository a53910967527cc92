/**
  Every step the hook machine allows happens in some world: two characters, one map, and one tick of
  the first character that leads from any sane hook to any of the states that may follow.
 */
module HookWorlds {
  import opened CharacterCore
  import opened HookMachine
  import opened Vectors
  import opened Wrappers

  /** The slots of the hook's owner and of the other character, who is the hooked one if there is one. */
  function OwnSlot(h: Hook): int {
    if h.hooked == 0 then 1 else 0
  }

  function OtherSlot(h: Hook): int {
    if h.hooked != -1 then h.hooked else 1
  }

  /** The hook hangs at the origin and points at the other character. */
  function StartingFrom(h: Hook): NetObj {
    NetObj(0, 0, 0, 0, h.state, h.tick, 0, 0, 256, 0, h.hooked, 0, 0, 0)
  }

  /** Tuning, map and rules under which the next state is `t`. */
  function Leading(h: Hook, useInput: bool, held: bool, t: int): Env {
    var rules := if t == HOOK_RETRACTED then {} else {OtherSlot(h)};
    Env(useInput, held, Vec(1.0, 0.0), 0, 10.0, if t == HOOK_RETRACT_START then -1.0 else 1000.0, Vec(10.0, 0.0),
        if t == HOOK_GRABBED then HitGround else NoHit, Vec(10.0, 0.0), false, Vec(0.0, 0.0),
        t == HOOK_RETRACTED, {OtherSlot(h)}, rules, Vec(0.0, 0.0), 0, 0, 0)
  }

  /** What the machine has to be told for that. */
  predicate Told(h: Hook, w: Input, t: int) {
    && w.tooFar == (t == HOOK_RETRACT_START) && !w.teleOut
    && w.hit == (if t == HOOK_GRABBED then HitGround else NoHit)
    && (w.picked != -1 <==> t == HOOK_RETRACTED && Handle(h, w).state == HOOK_FLYING)
    && (Advance(Handle(h, w), w).hooked != -1 ==> w.keeps == (t != HOOK_RETRACTED))
  }

  lemma ToldLeads(h: Hook, w: Input, t: int)
    requires Sane(h) && Allowed(w) && t in Successors(h, w.useInput, w.held) && Told(h, w, t)
    ensures Next(h, w).state == t
  {
  }

  lemma Distances()
    ensures Dist2(Vec(0.0, 0.0), Vec(10.0, 0.0)) == 100.0 && Dist2(Vec(0.0, 0.0), Vec(52.0, 0.0)) == 2704.0
    ensures Dist2(Vec(20.0, 0.0), Vec(10.0, 0.0)) == 100.0 && Dist2(Vec(20.0, 0.0), Vec(42.0, 0.0)) == 484.0
  {
  }

  lemma OneStep(x: real)
    ensures Add(Vec(x, 0.0), Scale(Vec(1.0, 0.0), 10.0)) == Vec(x + 10.0, 0.0)
  {
  }

  lemma NeverTooLong(p: Place, e: Env)
    requires p.dir == Vec(1.0, 0.0) && (p.pos == Vec(0.0, 0.0) || p.pos == Vec(42.0, 0.0)) && !p.newHook
    requires e.fireSpeed == 10.0 && (e.hookLength == 1000.0 || e.hookLength == -1.0)
    ensures TooFar(p, e, Vec(0.0, 0.0)) <==> e.hookLength == -1.0
    ensures e.hit == NoHit && e.hookLength == 1000.0 ==>
      FlightEnd(p, e, Vec(0.0, 0.0)) == Vec(p.pos.x + 10.0, 0.0)
  {
    hide Dist2, Add, Scale;
    Distances();
    OneStep(p.pos.x);
    assert 0.0 + 10.0 == 10.0 && 42.0 + 10.0 == 52.0;
    Beyond(p.pos.x + 10.0, e.hookLength);
  }

  lemma Beyond(x: real, length: real)
    requires (x == 10.0 || x == 52.0) && (length == 1000.0 || length == -1.0)
    ensures Farther(Vec(0.0, 0.0), Vec(x, 0.0), length) <==> length == -1.0
  {
    hide Dist2;
    Distances();
    assert 1000.0 * 1000.0 == 1000000.0;
  }

  lemma ClosestIsEnd(x: real)
    requires x == 0.0 || x == 42.0
    ensures ClosestPoint(Vec(x, 0.0), Vec(x + 10.0, 0.0), Vec(20.0, 0.0)) ==
            Some(if x == 0.0 then Vec(10.0, 0.0) else Vec(42.0, 0.0))
  {
    hide Dot, Add, Scale, ClosestPoint;
    Products(x);
    Ends(x);
    if x == 0.0 {
      ClosestBy(x, 200.0, 1.0);
    } else {
      ClosestBy(x, -220.0, 0.0);
    }
  }

  /** The closest point from its two products. */
  lemma ClosestBy(x: real, n: real, t: real)
    requires Dot(Vec(10.0, 0.0), Vec(10.0, 0.0)) == 100.0 && Dot(Vec(20.0 - x, 0.0), Vec(10.0, 0.0)) == n
    requires (n == 200.0 && t == 1.0) || (n == -220.0 && t == 0.0)
    ensures ClosestPoint(Vec(x, 0.0), Vec(x + 10.0, 0.0), Vec(20.0, 0.0)) ==
            Some(Add(Vec(x, 0.0), Scale(Vec(10.0, 0.0), t)))
  {
    hide Dot, Add, Scale;
    assert Sub(Vec(x + 10.0, 0.0), Vec(x, 0.0)) == Vec(10.0, 0.0);
    assert Sub(Vec(20.0, 0.0), Vec(x, 0.0)) == Vec(20.0 - x, 0.0);
    assert 200.0 / 100.0 == 2.0 && -220.0 / 100.0 == -2.2;
  }

  lemma Products(x: real)
    requires x == 0.0 || x == 42.0
    ensures Dot(Vec(10.0, 0.0), Vec(10.0, 0.0)) == 100.0
    ensures Dot(Vec(20.0 - x, 0.0), Vec(10.0, 0.0)) == if x == 0.0 then 200.0 else -220.0
  {
    if x == 0.0 {
      assert Dot(Vec(20.0, 0.0), Vec(10.0, 0.0)) == 200.0;
    } else {
      assert Dot(Vec(-22.0, 0.0), Vec(10.0, 0.0)) == -220.0;
    }
  }

  lemma Ends(x: real)
    ensures Add(Vec(x, 0.0), Scale(Vec(10.0, 0.0), 1.0)) == Vec(x + 10.0, 0.0)
    ensures Add(Vec(x, 0.0), Scale(Vec(10.0, 0.0), 0.0)) == Vec(x, 0.0)
  {
  }

  lemma CloseEnough(from: Vec)
    requires from == Vec(0.0, 0.0) || from == Vec(42.0, 0.0)
    ensures var c := ClosestPoint(from, Vec(from.x + 10.0, 0.0), Vec(20.0, 0.0));
      c.Some? && Dist2(Vec(20.0, 0.0), c.value) < CATCH_RADIUS2
  {
    hide Dist2, ClosestPoint;
    Distances();
    ClosestIsEnd(from.x);
  }

  /** Two characters of one world: the first has hook `h`, the other stands in its way. */
  ghost predicate Staged(h: Hook, c: CharacterCore, other: CharacterCore)
    reads c, other, c.world.characters, c.world.characters[..]
  {
    && c.InWorld() && 0 <= OtherSlot(h) < MAX_CLIENTS && c.world.characters[OtherSlot(h)] == other != c
    && c.TheHook() == h && c.pos == c.hookPos == Vec(0.0, 0.0) && c.hookDir == Vec(1.0, 0.0)
    && other.pos == Vec(20.0, 0.0) && !other.solo && !other.super
    && !c.newHook && !c.hookHitDisabled && !c.solo && !c.super
  }

  /** There is such a world for every sane hook. */
  method Stage(h: Hook) returns (c: CharacterCore, other: CharacterCore)
    requires Sane(h)
    ensures fresh(c) && fresh(other) && fresh(c.world) && fresh(c.world.characters)
    ensures forall i :: 0 <= i < c.world.characters.Length && c.world.characters[i] != null ==>
      fresh(c.world.characters[i])
    ensures Staged(h, c, other)
  {
    hide WorldCore.Valid;
    c, other := Pair(OwnSlot(h), OtherSlot(h));
    c.Read(StartingFrom(h));
  }

  /** A new world with two new characters. */
  method Pair(i: int, j: int) returns (c: CharacterCore, other: CharacterCore)
    requires 0 <= i < MAX_CLIENTS && 0 <= j < MAX_CLIENTS && i != j
    ensures fresh(c) && fresh(other) && fresh(c.world) && fresh(c.world.characters)
    ensures c.InWorld() && other.InWorld() && c.world == other.world && c.id == i && other.id == j
    ensures forall k :: 0 <= k < MAX_CLIENTS ==>
      c.world.characters[k] == if k == i then c else if k == j then other else null
    ensures c.pos == Vec(0.0, 0.0) && other.pos == Vec(20.0, 0.0)
    ensures !c.newHook && !c.hookHitDisabled && !c.solo && !c.super && !other.solo && !other.super
  {
    var world := new WorldCore();
    c := new CharacterCore(world, i, Vec(0.0, 0.0));
    other := new CharacterCore(world, j, Vec(20.0, 0.0));
    world.Spawn(c);
    world.Spawn(other);
  }

  /** Where the hook is once the input is handled. */
  lemma HandledPlace(h: Hook, p: Place, e: Env)
    requires p.pos == Vec(0.0, 0.0) && p.dir == Vec(1.0, 0.0) && !p.newHook && e.target == Vec(1.0, 0.0)
    ensures var q := HandlePlace(h.state, p, e, Vec(0.0, 0.0));
      q.dir == Vec(1.0, 0.0) && !q.newHook && (q.pos == Vec(0.0, 0.0) || q.pos == Vec(42.0, 0.0))
  {
  }

  /** The other character is in the way of the hook, so some player is caught if one is looked for. */
  lemma SomebodyIsCaught(c: CharacterCore, i: int, from: Vec, picked: int)
    requires c.world.characters.Length == MAX_CLIENTS && 0 <= i < MAX_CLIENTS
    requires from == Vec(0.0, 0.0) || from == Vec(42.0, 0.0)
    requires var other := c.world.characters[i];
      other != null && other != c && other.pos == Vec(20.0, 0.0) && !other.solo
    requires !c.solo && c.Nearest(picked, MAX_CLIENTS, from, Vec(from.x + 10.0, 0.0), {i})
    ensures picked != -1
  {
    hide ClosestPoint, Dist2;
    CloseEnough(from);
    assert c.Catchable(i, from, Vec(from.x + 10.0, 0.0), {i});
  }

  /** What the tick tells the machine under `Leading`. */
  lemma LeadingTells(h: Hook, useInput: bool, held: bool, t: int, w: Input)
    requires Sane(h) && t in Successors(h, useInput, held)
    requires var e := Leading(h, useInput, held, t);
      && w == AsInput(e, w.tooFar, w.picked, w.keeps) && w.tooFar == (e.hookLength == -1.0)
      && var handled := Handle(h, w);
      && (w.picked != -1 <==> handled.state == HOOK_FLYING && handled.hooked == -1 && e.playerHooking)
      && var a := Advance(handled, w); w.keeps == (a.state == HOOK_GRABBED && a.hooked in e.canKeep)
    ensures Told(h, w, t)
  {
  }

  /** From every sane hook one tick leads to each of its successors; `w` is what the world answered. */
  method Transition(h: Hook, useInput: bool, held: bool, t: int, c: CharacterCore, other: CharacterCore)
    returns (ghost w: Input)
    requires Sane(h) && t in Successors(h, useInput, held) && Staged(h, c, other)
    modifies c, c.world.characters[..]
    ensures c.InWorld() && Allowed(w) && w.useInput == useInput && w.held == held
    ensures var e := Leading(h, useInput, held, t);
      w == AsInput(e, w.tooFar, w.picked, w.keeps) && c.Answered(e, false, w)
    ensures c.TheHook() == Next(old(c.TheHook()), w) && c.hookState == t
  {
    hide WorldCore.Valid, Successors, Next, TooFar, FlightEnd, Handle, Advance, HandlePlace, CharacterCore.Nearest,
         AdvancePlace, Sane, Told;
    var e := Leading(h, useInput, held, t);
    ghost var place := c.ThePlace();
    HandledPlace(h, place, e);
    ghost var p := HandlePlace(h.state, place, e, c.pos);
    NeverTooLong(p, e);
    if t == HOOK_RETRACTED {
      forall k | c.Nearest(k, MAX_CLIENTS, p.pos, FlightEnd(p, e, c.pos), e.canHook)
        ensures k != -1
      {
        SomebodyIsCaught(c, OtherSlot(h), p.pos, k);
      }
    }
    w := c.Tick(e, false, seq(MAX_CLIENTS, _ => Vec(0.0, 0.0)));
    LeadingTells(h, useInput, held, t, w);
    ToldLeads(h, w, t);
  }
}
