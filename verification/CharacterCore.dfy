/**
  Characters of a world, each with a hook, and the index every character keeps of those who have it
  hooked. One tick of a character is proved against the hook machine; every operation keeps the index.
 */
module CharacterCore {
  import opened HookMachine
  import opened Vectors
  import opened Rounding

  /** `PhysicalSize() + 2`, squared. */
  const CATCH_RADIUS2 := 900.0

  /** The part of a character that goes over the network. */
  datatype NetObj = NetObj(x: int, y: int, velX: int, velY: int, hookState: int, hookTick: int,
                           hookX: int, hookY: int, hookDx: int, hookDy: int, hookedPlayer: int,
                           jumped: int, direction: int, angle: int)

  /** What of a character goes over the network, before rounding. */
  datatype State = State(pos: Vec, vel: Vec, hookPos: Vec, hookDir: Vec, hookState: int, hookTick: int,
                         hookedPlayer: int, jumped: int, direction: int, angle: int)

  function Pack(s: State): NetObj {
    NetObj(RoundToInt(s.pos.x), RoundToInt(s.pos.y), RoundToInt(s.vel.x * 256.0), RoundToInt(s.vel.y * 256.0),
           s.hookState, s.hookTick, RoundToInt(s.hookPos.x), RoundToInt(s.hookPos.y),
           RoundToInt(s.hookDir.x * 256.0), RoundToInt(s.hookDir.y * 256.0), s.hookedPlayer,
           s.jumped, s.direction, s.angle)
  }

  function Unpack(o: NetObj): State {
    State(Vec(o.x as real, o.y as real), Vec(o.velX as real / 256.0, o.velY as real / 256.0),
          Vec(o.hookX as real, o.hookY as real), Vec(o.hookDx as real / 256.0, o.hookDy as real / 256.0),
          o.hookState, o.hookTick, o.hookedPlayer, o.jumped, o.direction, o.angle)
  }

  /** What was read is written back unchanged. */
  lemma PackUnpack(o: NetObj)
    ensures Pack(Unpack(o)) == o
  {
    hide RoundToInt;
    RoundOfInt(o.x);
    RoundOfInt(o.y);
    RoundOfInt(o.velX);
    RoundOfInt(o.velY);
    RoundOfInt(o.hookX);
    RoundOfInt(o.hookY);
    RoundOfInt(o.hookDx);
    RoundOfInt(o.hookDy);
    assert o.velX as real / 256.0 * 256.0 == o.velX as real && o.velY as real / 256.0 * 256.0 == o.velY as real;
    assert o.hookDx as real / 256.0 * 256.0 == o.hookDx as real && o.hookDy as real / 256.0 * 256.0 == o.hookDy as real;
  }

  /** What is sent of each field: whole units of positions, 1/256 of velocities and directions, the rest as it is. */
  lemma PackIs(s: State)
    ensures var o := Pack(s);
      && -0.5 <= s.pos.x - o.x as real <= 0.5 && -0.5 <= s.pos.y - o.y as real <= 0.5
      && -0.5 <= s.hookPos.x - o.hookX as real <= 0.5 && -0.5 <= s.hookPos.y - o.hookY as real <= 0.5
      && -0.5 <= s.vel.x * 256.0 - o.velX as real <= 0.5 && -0.5 <= s.vel.y * 256.0 - o.velY as real <= 0.5
      && -0.5 <= s.hookDir.x * 256.0 - o.hookDx as real <= 0.5 && -0.5 <= s.hookDir.y * 256.0 - o.hookDy as real <= 0.5
      && o.hookState == s.hookState && o.hookTick == s.hookTick && o.hookedPlayer == s.hookedPlayer
      && o.jumped == s.jumped && o.direction == s.direction && o.angle == s.angle
  {
    hide RoundToInt;
    RoundIsNearest(s.pos.x);
    RoundIsNearest(s.pos.y);
    RoundIsNearest(s.hookPos.x);
    RoundIsNearest(s.hookPos.y);
    RoundIsNearest(s.vel.x * 256.0);
    RoundIsNearest(s.vel.y * 256.0);
    RoundIsNearest(s.hookDir.x * 256.0);
    RoundIsNearest(s.hookDir.y * 256.0);
  }

  function Quantized(s: State): State {
    Unpack(Pack(s))
  }

  /** Quantizing moves positions by at most 1/2 and velocities by at most 1/512, and a second time not at all. */
  lemma QuantizedIsClose(s: State)
    ensures var q := Quantized(s);
            && -0.5 <= s.pos.x - q.pos.x <= 0.5 && -0.5 <= s.pos.y - q.pos.y <= 0.5
            && -0.5 <= (s.vel.x - q.vel.x) * 256.0 <= 0.5 && -0.5 <= (s.vel.y - q.vel.y) * 256.0 <= 0.5
            && Quantized(q) == q
  {
    PackUnpack(Pack(s));
    hide RoundToInt;
    RoundIsNearest(s.pos.x);
    RoundIsNearest(s.pos.y);
    RoundIsNearest(s.vel.x * 256.0);
    RoundIsNearest(s.vel.y * 256.0);
  }

  /** What a tick takes from outside: input, tuning, teams, map, and the movement, which is not modelled. */
  datatype Env = Env(useInput: bool, held: bool, target: Vec, launchTick: int,
                     fireSpeed: real, hookLength: real, stopPos: Vec, hit: Hit, hitPos: Vec,
                     teleOut: bool, telePos: Vec, playerHooking: bool, canHook: set<int>, canKeep: set<int>,
                     vel: Vec, jumped: int, direction: int, angle: int)

  /** The tick as the hook machine sees it. */
  function AsInput(e: Env, tooFar: bool, picked: int, keeps: bool): Input {
    Input(e.useInput, e.held, e.launchTick, tooFar, e.hit, e.teleOut, picked, keeps)
  }

  /** distance(a, b) > length */
  predicate Farther(a: Vec, b: Vec, length: real) {
    length < 0.0 || Dist2(a, b) > length * length
  }

  /** Where the end of the hook is and where it flies; through a teleporter its length counts from `teleBase`. */
  datatype Place = Place(pos: Vec, dir: Vec, newHook: bool, teleBase: Vec)

  /** Where a hook thrown or sent on from `start` begins. */
  function Thrown(start: Vec, e: Env): Vec {
    Add(start, Scale(e.target, 42.0))
  }

  function HandlePlace(state: int, p: Place, e: Env, body: Vec): Place {
    if !e.useInput then p
    else if !e.held then p.(pos := body)
    else if state == HOOK_IDLE then p.(pos := Thrown(body, e), dir := e.target)
    else p
  }

  /** The hook would be drawn further out than it may be. */
  predicate TooFar(p: Place, e: Env, body: Vec) {
    Farther(if p.newHook then p.teleBase else body, Add(p.pos, Scale(p.dir, e.fireSpeed)), e.hookLength)
  }

  /** Where the flight ends: at the map, at the length limit, or after one step. */
  function FlightEnd(p: Place, e: Env, body: Vec): Vec {
    if e.hit != NoHit then e.hitPos
    else if TooFar(p, e, body) then e.stopPos
    else Add(p.pos, Scale(p.dir, e.fireSpeed))
  }

  function LandPlace(p: Place, e: Env, to: Vec): Place {
    if e.hit == HitTele && e.teleOut then Place(Thrown(e.telePos, e), e.target, true, Thrown(e.telePos, e))
    else p.(pos := to)
  }

  /** A hook that caught somebody or is drawn back stays for now where it was. */
  function FlyPlace(p: Place, e: Env, body: Vec, picked: int): Place {
    if picked != -1 || TooFar(p, e, body) then p else LandPlace(p, e, FlightEnd(p, e, body))
  }

  function AdvancePlace(state: int, p: Place, e: Env, body: Vec, picked: int): Place {
    if state == HOOK_IDLE then p.(pos := body)
    else if state == HOOK_FLYING then FlyPlace(p, e, body, picked)
    else p
  }

  /** One step of a flight, and the distance at which it is too long. */
  lemma StepOfFlight(a: Vec, dir: Vec, speed: real, x: real, y: real)
    requires x == dir.x * speed && y == dir.y * speed
    ensures Add(a, Scale(dir, speed)) == Vec(a.x + x, a.y + y)
  {
    var s := Scale(dir, speed);
    assert s == Vec(x, y);
    hide Scale;
  }

  lemma FartherIs(a: Vec, b: Vec, length: real)
    ensures Farther(a, b, length) <==> length < 0.0 || Dist2(a, b) > length * length
  {
    hide Dist2;
  }

  lemma TooFarIs(p: Place, e: Env, body: Vec)
    ensures TooFar(p, e, body) <==>
      Farther(if p.newHook then p.teleBase else body, Add(p.pos, Scale(p.dir, e.fireSpeed)), e.hookLength)
  {
    hide Add, Scale, Farther;
  }

  lemma FlightEndIs(p: Place, e: Env, body: Vec)
    ensures FlightEnd(p, e, body) ==
      if e.hit != NoHit then e.hitPos
      else if TooFar(p, e, body) then e.stopPos
      else Add(p.pos, Scale(p.dir, e.fireSpeed))
  {
    hide TooFar, Add, Scale;
  }

  /** One tick of a flying hook: where it starts, its timer, and what the tick takes and answers. */
  datatype Flight = Flight(start: Vec, dir: Vec, tick: int, e: Env, deferred: bool, w: Input)

  /** A hook flies from `start` in this tick: it did so before, or it is launched. */
  predicate Flies(h: Hook, p: Place, e: Env, body: Vec, start: Vec, dir: Vec, tick: int) {
    || (h.state == 4 && h.hooked == -1 && (e.useInput ==> e.held) && start == p.pos && dir == p.dir && tick == h.tick)
    || (h.state == 0 && e.useInput && e.held && tick == e.launchTick && dir == e.target
        && start == Vec(body.x + e.target.x * 42.0, body.y + e.target.y * 42.0))
  }

  lemma Launched(h: Hook, p: Place, e: Env, body: Vec)
    ensures h.state == 4 && h.hooked == -1 && (e.useInput ==> e.held) ==> Flies(h, p, e, body, p.pos, p.dir, h.tick)
    ensures h.state == 0 && e.useInput && e.held ==>
      Flies(h, p, e, body, Vec(body.x + e.target.x * 42.0, body.y + e.target.y * 42.0), e.target, e.launchTick)
  {
  }

  /** The player lets go, or does not throw an idle hook. */
  predicate RestsIdle(state: int, e: Env) {
    (e.useInput && !e.held) || (state == 0 && !e.useInput)
  }

  /** What the stages of the tick make of a flying hook. */
  lemma FlightParts(h0: Hook, p0: Place, e: Env, body: Vec, w: Input, start: Vec, dir: Vec, tick: int)
    requires Flies(h0, p0, e, body, start, dir, tick) && w == AsInput(e, w.tooFar, w.picked, w.keeps)
    ensures var h, p := Handle(h0, w), HandlePlace(h0.state, p0, e, body);
      var a, q := Advance(h, w), AdvancePlace(h.state, p, e, body, w.picked);
      var out := Vec(e.telePos.x + e.target.x * 42.0, e.telePos.y + e.target.y * 42.0);
      && h == Hook(4, tick, -1) && p == p0.(pos := start, dir := dir)
      && a == (if w.picked != -1 then Hook(5, tick, w.picked)
               else if w.tooFar || w.hit == HitNoHook then Hook(1, tick, -1)
               else if w.hit == HitGround then Hook(5, tick, -1)
               else Hook(4, tick, -1))
      && q == (if w.picked != -1 || TooFar(p, e, body) then p
               else if e.hit == HitTele && e.teleOut then Place(out, e.target, true, out)
               else p.(pos := FlightEnd(p, e, body)))
      && Next(h0, w) == if a.state != 5 then a
           else if a.hooked == -1 || (w.keeps && tick < 60) then a.(tick := tick + 1)
           else Hook(-1, tick + 1, -1)
  {
    hide TooFar, FlightEnd;
  }

  predicate Within30(a: Vec, b: Vec) {
    Dist2(a, b) < 30.0 * 30.0
  }

  lemma Within30Iff(a: Vec, b: Vec)
    ensures Within30(a, b) <==> Dist2(a, b) < CATCH_RADIUS2
  {
  }

  /** The closest point decides whether any point of the way is near enough. */
  lemma WithinIff(from: Vec, to: Vec, target: Vec)
    ensures var p := ClosestPoint(from, to, target);
      (p.Some? && Dist2(target, p.value) < CATCH_RADIUS2) <==>
      (from != to && exists t: real :: 0.0 <= t <= 1.0 && Within30(target, OnSegment(from, to, t)))
  {
    hide ClosestPoint, Dist2, Within30;
    ClosestIsOnSegment(from, to, target);
    forall t: real | from != to && 0.0 <= t <= 1.0
      ensures Dist2(target, ClosestPoint(from, to, target).value) <= Dist2(target, OnSegment(from, to, t))
      ensures Within30(target, OnSegment(from, to, t)) <==> Dist2(target, OnSegment(from, to, t)) < CATCH_RADIUS2
    {
      ClosestIsClosest(from, to, target, t);
      Within30Iff(target, OnSegment(from, to, t));
      assert OnSegment(from, to, t) == Add(from, Scale(Sub(to, from), t));
    }
    hide OnSegment;
  }

  class WorldCore {
    const characters: array<CharacterCore?>

    constructor ()
      ensures Valid() && fresh(characters)
      ensures forall i :: 0 <= i < MAX_CLIENTS ==> characters[i] == null
    {
      characters := new CharacterCore?[MAX_CLIENTS](i => null);
    }

    /** A character in slot `i` knows its slot and its world. */
    ghost predicate Slots()
      reads characters, characters[..]`hookedPlayer, characters[..]`attachedPlayers
    {
      && characters.Length == MAX_CLIENTS
      && forall i :: 0 <= i < MAX_CLIENTS && characters[i] != null ==>
           && characters[i].id == i
           && characters[i].world == this
           && -1 <= characters[i].hookedPlayer < MAX_CLIENTS
    }

    /** There is a character in slot `i`. */
    predicate Has(i: int)
      reads characters
    {
      0 <= i < characters.Length && characters[i] != null
    }

    /** `i` has `h` hooked. */
    ghost predicate Hooks(i: int, h: int)
      requires characters.Length == MAX_CLIENTS
      reads characters, characters[..]`hookedPlayer, characters[..]`attachedPlayers
    {
      0 <= i < MAX_CLIENTS && characters[i] != null && characters[i].hookedPlayer == h
    }

    /** The index is exact: a character's set holds just those who have it hooked. */
    ghost predicate Valid()
      reads characters, characters[..]`hookedPlayer, characters[..]`attachedPlayers
    {
      && Slots()
      && forall h, i :: 0 <= h < MAX_CLIENTS && characters[h] != null ==>
           (i in characters[h].attachedPlayers <==> Hooks(i, h))
    }

    lemma Members()
      requires Valid()
      ensures characters.Length == MAX_CLIENTS
      ensures forall i :: 0 <= i < MAX_CLIENTS && characters[i] != null ==>
        characters[i].InWorld() && characters[i].world == this && characters[i].id == i
    {
    }

    /** A new character takes an empty slot: the index stays exact if and only if nobody has that slot hooked. */
    method Spawn(c: CharacterCore)
      requires Valid() && c.world == this && 0 <= c.id < MAX_CLIENTS && characters[c.id] == null
      requires c.hookedPlayer == -1 && c.attachedPlayers == {}
      modifies characters
      ensures characters[..] == old(characters[..])[c.id := c]
      ensures Valid() <==> forall i :: !old(Hooks(i, c.id))
    {
      characters[c.id] := c;
      forall i
        ensures Hooks(i, c.id) <==> old(Hooks(i, c.id))
      {
      }
    }

    /** A character leaves its slot: the index stays exact if and only if it has nobody else hooked who is there. */
    method Destroy(id: int)
      requires Valid() && 0 <= id < MAX_CLIENTS && characters[id] != null
      modifies characters
      ensures characters[..] == old(characters[..])[id := null]
      ensures Valid() <==> var h := old(characters[id].hookedPlayer); h == -1 || h == id || characters[h] == null
    {
      ghost var h := characters[id].hookedPlayer;
      assert Hooks(id, h);
      characters[id] := null;
      assert !Hooks(id, h);
    }
  }

  class CharacterCore {
    const world: WorldCore
    const id: int
    var pos: Vec
    var vel: Vec
    var hookPos: Vec
    var hookDir: Vec
    var hookTeleBase: Vec
    var hookTick: int
    var hookState: int
    var hookedPlayer: int
    var attachedPlayers: set<int>
    var newHook: bool
    var jumped: int
    var direction: int
    var angle: int
    var solo: bool
    var super: bool
    var hookHitDisabled: bool

    ghost predicate InWorld()
      reads world.characters, world.characters[..]`hookedPlayer, world.characters[..]`attachedPlayers
    {
      world.Valid() && world.characters.Length == MAX_CLIENTS && 0 <= id < MAX_CLIENTS && world.characters[id] == this
    }

    ghost function TheHook(): Hook
      reads this`hookState, this`hookTick, this`hookedPlayer
    {
      Hook(hookState, hookTick, hookedPlayer)
    }

    /** `Reset` and `Init` for a character that is about to enter a slot. */
    constructor (world: WorldCore, id: int, pos: Vec)
      ensures this.world == world && this.id == id && this.pos == pos
      ensures TheHook() == RESET && attachedPlayers == {} && !newHook && !solo && !super && !hookHitDisabled
    {
      this.world, this.id, this.pos := world, id, pos;
      vel, hookPos, hookDir, hookTeleBase := Vec(0.0, 0.0), Vec(0.0, 0.0), Vec(0.0, 0.0), Vec(0.0, 0.0);
      hookTick, hookState, hookedPlayer := 0, HOOK_IDLE, -1;
      attachedPlayers, newHook := {}, false;
      jumped, direction, angle := 0, 0, 0;
      solo, super, hookHitDisabled := false, false, false;
    }

    /** This character is in exactly one set: that of the one it has hooked, if there is one. */
    lemma IndexOfThis()
      requires InWorld()
      ensures world.Slots() && -1 <= hookedPlayer < MAX_CLIENTS
      ensures forall h :: 0 <= h < MAX_CLIENTS && world.characters[h] != null ==>
        (id in world.characters[h].attachedPlayers <==> hookedPlayer == h)
    {
      forall h | 0 <= h < MAX_CLIENTS && world.characters[h] != null
        ensures id in world.characters[h].attachedPlayers <==> hookedPlayer == h
      {
        assert world.Hooks(id, h) <==> hookedPlayer == h;
      }
    }

    /** The sets after this character has let go of everybody and hooked `player`. */
    twostate predicate Rehooked(player: int)
      requires world.characters.Length == MAX_CLIENTS
      reads world.characters, world.characters[..]`attachedPlayers
    {
      && old(world.characters[..]) == world.characters[..]
      && forall h :: 0 <= h < MAX_CLIENTS && world.characters[h] != null ==>
           world.characters[h].attachedPlayers ==
             old(world.characters[h].attachedPlayers) - {id} + if h == player then {id} else {}
    }

    twostate lemma RehookingKeepsIndex(player: int)
      requires old(InWorld()) && world.characters.Length == MAX_CLIENTS && -1 <= player < MAX_CLIENTS
      requires Rehooked(player) && hookedPlayer == player
      requires forall i :: 0 <= i < MAX_CLIENTS && i != id && world.characters[i] != null ==>
        world.characters[i].hookedPlayer == old(world.characters[i].hookedPlayer)
      ensures InWorld()
    {
      assert forall i :: 0 <= i < MAX_CLIENTS ==> world.characters[i] == world.characters[..][i];
      assert world.Slots();
      forall h, i | 0 <= h < MAX_CLIENTS && world.characters[h] != null
        ensures i in world.characters[h].attachedPlayers <==> world.Hooks(i, h)
      {
        assert i != id ==> (world.Hooks(i, h) <==> old(world.Hooks(i, h)));
      }
    }

    ghost function ThePlace(): Place
      reads this`hookPos, this`hookDir, this`newHook, this`hookTeleBase
    {
      Place(hookPos, hookDir, newHook, hookTeleBase)
    }

    method SetHookedPlayer(player: int)
      requires InWorld() && -1 <= player < MAX_CLIENTS
      modifies this`hookedPlayer, world.characters[..]`attachedPlayers
      ensures InWorld() && hookedPlayer == player && Rehooked(player)
    {
      hide WorldCore.Valid;
      IndexOfThis();
      if player != hookedPlayer {
        if hookedPlayer != -1 {
          var c := world.characters[hookedPlayer];
          if c != null {
            c.attachedPlayers := c.attachedPlayers - {id};
          }
        }
        if player != -1 {
          var c := world.characters[player];
          if c != null {
            c.attachedPlayers := c.attachedPlayers + {id};
          }
        }
        hookedPlayer := player;
      }
      RehookingKeepsIndex(player);
    }

    // -------------------------------------------------------------- the flight

    /** The player in slot `i` may be hooked and stands close enough to the hook's way. */
    predicate Catchable(i: int, from: Vec, to: Vec, canHook: set<int>)
      requires world.characters.Length == MAX_CLIENTS
      reads this`solo, this`super, world.characters
      reads world.characters[..]`pos, world.characters[..]`solo, world.characters[..]`super
    {
      && 0 <= i < MAX_CLIENTS
      && var c := world.characters[i];
      && c != null && c != this
      && (super || c.super || (i in canHook && !c.solo && !solo))
      && var p := ClosestPoint(from, to, c.pos);
      && p.Some? && Dist2(c.pos, p.value) < CATCH_RADIUS2
    }

    /** How far slot `i` is from where the hook was. */
    function Away(i: int, from: Vec): (d: real)
      requires 0 <= i < world.characters.Length
      reads world.characters, world.characters[..]`pos
      ensures 0.0 <= d
    {
      var c := world.characters[i];
      if c == null then 0.0 else Dist2(from, c.pos)
    }

    /** Among the first `n` slots, `p` is the nearest that can be caught, the lowest of several; -1 if there is none. */
    ghost predicate Nearest(p: int, n: int, from: Vec, to: Vec, canHook: set<int>)
      requires world.characters.Length == MAX_CLIENTS
      reads this`solo, this`super, world.characters
      reads world.characters[..]`pos, world.characters[..]`solo, world.characters[..]`super
    {
      if p == -1 then forall i :: 0 <= i < n ==> !Catchable(i, from, to, canHook)
      else
        && 0 <= p < n && p < MAX_CLIENTS && Catchable(p, from, to, canHook)
        && forall i :: 0 <= i < n && i < MAX_CLIENTS && Catchable(i, from, to, canHook) ==>
             Away(p, from) <= Away(i, from) && (i < p ==> Away(p, from) < Away(i, from))
    }

    /** The rules let the player in slot `i` be hooked, who is less than 30 units from some point of the way. */
    ghost predicate InReach(i: int, from: Vec, to: Vec, canHook: set<int>)
      requires world.characters.Length == MAX_CLIENTS
      reads this`solo, this`super, world.characters
      reads world.characters[..]`pos, world.characters[..]`solo, world.characters[..]`super
    {
      && world.Has(i) && world.characters[i] != this && from != to
      && var c := world.characters[i];
      && (super || c.super || (i in canHook && !c.solo && !solo))
      && exists t: real :: 0.0 <= t <= 1.0 && Within30(c.pos, OnSegment(from, to, t))
    }

    lemma CatchableIff(i: int, from: Vec, to: Vec, canHook: set<int>)
      requires world.characters.Length == MAX_CLIENTS
      ensures Catchable(i, from, to, canHook) <==> InReach(i, from, to, canHook)
    {
      if world.Has(i) {
        WithinIff(from, to, world.characters[i].pos);
      }
    }

    /** The player caught is the one in reach that is nearest to where the hook was, the lowest slot of several. */
    /** Slot `p` is not farther from where the hook was than slot `i`, and nearer if it comes later. */
    predicate NotBehind(p: int, i: int, from: Vec)
      requires world.Has(p) && world.Has(i)
      reads world.characters, world.characters[..]`pos
    {
      var d, e := Dist2(from, world.characters[p].pos), Dist2(from, world.characters[i].pos);
      d <= e && (i < p ==> d < e)
    }

    lemma NotBehindIff(p: int, i: int, from: Vec)
      requires world.Has(p) && world.Has(i)
      ensures NotBehind(p, i, from) <==> Away(p, from) <= Away(i, from) && (i < p ==> Away(p, from) < Away(i, from))
    {
    }

    /** The player caught is the one in reach that is nearest to where the hook was, the lowest slot of several. */
    lemma NearestIff(p: int, from: Vec, to: Vec, canHook: set<int>)
      requires world.characters.Length == MAX_CLIENTS
      ensures Nearest(p, MAX_CLIENTS, from, to, canHook) <==>
        if p == -1 then forall i :: 0 <= i < MAX_CLIENTS ==> !InReach(i, from, to, canHook)
        else InReach(p, from, to, canHook) && forall i :: InReach(i, from, to, canHook) ==> NotBehind(p, i, from)
    {
      forall i
        ensures Catchable(i, from, to, canHook) <==> InReach(i, from, to, canHook)
        ensures InReach(i, from, to, canHook) ==> 0 <= i < MAX_CLIENTS && world.Has(i)
      {
        CatchableIff(i, from, to, canHook);
      }
      forall i | world.Has(p) && world.Has(i)
        ensures NotBehind(p, i, from) <==>
                Away(p, from) <= Away(i, from) && (i < p ==> Away(p, from) < Away(i, from))
      {
        NotBehindIff(p, i, from);
      }
      hide Catchable, InReach, Away, NotBehind;
    }

    lemma NearestStep(p: int, n: int, from: Vec, to: Vec, canHook: set<int>)
      requires world.characters.Length == MAX_CLIENTS && 0 <= n < MAX_CLIENTS
      requires Nearest(p, n, from, to, canHook)
      ensures var takes := Catchable(n, from, to, canHook) && (p == -1 || Away(n, from) < Away(p, from));
              Nearest(if takes then n else p, n + 1, from, to, canHook)
    {
      hide Catchable, Away;
    }

    method CatchPlayer(to: Vec, canHook: set<int>)
      requires InWorld()
      modifies this`hookState, this`hookedPlayer, world.characters[..]`attachedPlayers
      ensures InWorld()
      ensures old(hookedPlayer) != -1 ==> hookedPlayer == old(hookedPlayer) && hookState == old(hookState)
      ensures old(hookedPlayer) == -1 ==>
        && -1 <= hookedPlayer < MAX_CLIENTS
        && Nearest(hookedPlayer, MAX_CLIENTS, hookPos, to, canHook) && (hookedPlayer == -1 || world.Has(hookedPlayer))
        && hookState == if hookedPlayer == -1 then old(hookState) else HOOK_GRABBED
    {
      hide Catchable, Away, Nearest, WorldCore.Valid;
      var distance := 0.0;
      assert old(hookedPlayer) == -1 ==> Nearest(-1, 0, hookPos, to, canHook) by {
        NobodyYet(to, canHook);
      }
      for i := 0 to MAX_CLIENTS
        invariant InWorld()
        invariant old(hookedPlayer) != -1 ==>
          distance == 0.0 && hookedPlayer == old(hookedPlayer) && hookState == old(hookState)
        invariant old(hookedPlayer) == -1 ==>
          && Nearest(hookedPlayer, i, hookPos, to, canHook) && (hookedPlayer == -1 || world.Has(hookedPlayer))
          && -1 <= hookedPlayer < MAX_CLIENTS
          && (hookedPlayer != -1 ==> distance == Away(hookedPlayer, hookPos))
          && hookState == if hookedPlayer == -1 then old(hookState) else HOOK_GRABBED
      {
        if old(hookedPlayer) == -1 {
          NearestStep(hookedPlayer, i, hookPos, to, canHook);
        }
        if Catchable(i, hookPos, to, canHook) {
          if hookedPlayer == -1 || Away(i, hookPos) < distance {
            CatchableIsThere(i, to, canHook);
            hookState := HOOK_GRABBED;
            SetHookedPlayer(i);
            distance := Away(i, hookPos);
          }
        }
      }
    }

    lemma CatchableIsThere(i: int, to: Vec, canHook: set<int>)
      requires world.characters.Length == MAX_CLIENTS && Catchable(i, hookPos, to, canHook)
      ensures world.Has(i)
    {
    }

    lemma NobodyYet(to: Vec, canHook: set<int>)
      requires world.characters.Length == MAX_CLIENTS
      ensures Nearest(-1, 0, hookPos, to, canHook)
    {
    }

    /** A flying hook without a player looks for one. */
    predicate Catching(h: Hook, e: Env)
      reads this`hookHitDisabled
    {
      h.state == HOOK_FLYING && h.hooked == -1 && !hookHitDisabled && e.playerHooking
    }

    method FlyHook(e: Env) returns (ghost picked: int)
      requires InWorld() && hookState == HOOK_FLYING
      modifies this`hookState, this`hookedPlayer, this`hookPos, this`hookDir, this`newHook, this`hookTeleBase
      modifies world.characters[..]`attachedPlayers
      ensures InWorld() && -1 <= picked < MAX_CLIENTS && (picked == -1 || world.Has(picked))
      ensures Catching(old(TheHook()), e) ==>
        old(Nearest(picked, MAX_CLIENTS, hookPos, FlightEnd(ThePlace(), e, pos), e.canHook))
      ensures !Catching(old(TheHook()), e) ==> picked == -1
      ensures TheHook() == Fly(old(TheHook()), AsInput(e, TooFar(old(ThePlace()), e, pos), picked, false))
      ensures ThePlace() == FlyPlace(old(ThePlace()), e, pos, picked)
    {
      hide Catchable, Away, Nearest, WorldCore.Valid, Farther;
      picked := -1;
      var to := Add(hookPos, Scale(hookDir, e.fireSpeed));
      if Farther(if newHook then hookTeleBase else pos, to, e.hookLength) {
        hookState := HOOK_RETRACT_START;
        to := e.stopPos;
      }
      if e.hit != NoHit {
        to := e.hitPos;
      }
      if !hookHitDisabled && e.playerHooking {
        CatchPlayer(to, e.canHook);
        picked := if old(hookedPlayer) == -1 then hookedPlayer else -1;
      }
      if hookState == HOOK_FLYING {
        LandHook(e, to);
      }
    }

    /** The end of a flight that met nobody and was not too long. */
    method LandHook(e: Env, to: Vec)
      requires InWorld() && hookState == HOOK_FLYING
      modifies this`hookState, this`hookedPlayer, this`hookPos, this`hookDir, this`newHook, this`hookTeleBase
      modifies world.characters[..]`attachedPlayers
      ensures InWorld()
      ensures TheHook() == Fly(old(TheHook()), AsInput(e, false, -1, false))
      ensures ThePlace() == LandPlace(old(ThePlace()), e, to)
    {
      hide WorldCore.Valid;
      var goingToHitGround, goingToRetract, goingThroughTele := false, false, false;
      if e.hit != NoHit {
        if e.hit == HitNoHook {
          goingToRetract := true;
        } else if e.hit == HitTele {
          goingThroughTele := true;
        } else {
          goingToHitGround := true;
        }
      }
      if goingToHitGround {
        hookState := HOOK_GRABBED;
      } else if goingToRetract {
        hookState := HOOK_RETRACT_START;
      }
      if goingThroughTele && e.teleOut {
        SetHookedPlayer(-1);
        newHook := true;
        hookPos := Thrown(e.telePos, e);
        hookDir := e.target;
        hookTeleBase := hookPos;
      } else {
        hookPos := to;
      }
    }

    method GrabHook(e: Env) returns (ghost keeps: bool)
      requires InWorld() && hookState == HOOK_GRABBED
      modifies this`hookState, this`hookedPlayer, this`hookPos, this`hookTick
      modifies world.characters[..]`attachedPlayers
      ensures InWorld()
      ensures keeps == (0 <= old(hookedPlayer) < MAX_CLIENTS &&
                        world.characters[old(hookedPlayer)] != null && old(hookedPlayer) in e.canKeep)
      ensures TheHook() == Hold(old(TheHook()), AsInput(e, false, -1, keeps))
      ensures hookPos ==
        if hookedPlayer != -1 then world.characters[hookedPlayer].pos
        else if old(hookedPlayer) != -1 then pos else old(hookPos)
    {
      hide WorldCore.Valid;
      IndexOfThis();
      keeps := false;
      if hookedPlayer != -1 {
        var c := world.characters[hookedPlayer];
        if c != null && c.id in e.canKeep {
          keeps := true;
          hookPos := c.pos;
        } else {
          SetHookedPlayer(-1);
          hookState := HOOK_RETRACTED;
          hookPos := pos;
        }
      }
      hookTick := hookTick + 1;
      if hookedPlayer != -1 &&
         (hookTick > SERVER_TICK_SPEED + SERVER_TICK_SPEED / 5 || world.characters[hookedPlayer] == null) {
        SetHookedPlayer(-1);
        hookState := HOOK_RETRACTED;
        hookPos := pos;
      }
    }

    method HandleHook(e: Env)
      requires InWorld()
      modifies this`hookState, this`hookedPlayer, this`hookPos, this`hookDir, this`hookTick
      modifies world.characters[..]`attachedPlayers
      ensures InWorld()
      ensures TheHook() == Handle(old(TheHook()), AsInput(e, false, -1, false))
      ensures ThePlace() == HandlePlace(old(hookState), old(ThePlace()), e, pos)
    {
      hide WorldCore.Valid;
      if e.useInput {
        if e.held {
          if hookState == HOOK_IDLE {
            hookState := HOOK_FLYING;
            hookPos := Thrown(pos, e);
            hookDir := e.target;
            SetHookedPlayer(-1);
            hookTick := e.launchTick;
          }
        } else {
          SetHookedPlayer(-1);
          hookState := HOOK_IDLE;
          hookPos := pos;
        }
      }
    }

    /** Pushing other characters around is arbitrary here; the hook only forgets that it came through a teleporter. */
    method TickDeferred(vels: seq<Vec>)
      requires InWorld() && |vels| == MAX_CLIENTS
      modifies this`newHook, world.characters[..]`vel
      ensures InWorld() && newHook == (old(newHook) && hookState == HOOK_FLYING)
    {
      hide WorldCore.Valid;
      for i := 0 to MAX_CLIENTS
        invariant InWorld() && newHook == old(newHook)
      {
        var c := world.characters[i];
        if c != null {
          c.vel := vels[i];
        }
      }
      if hookState != HOOK_FLYING {
        newHook := false;
      }
    }

    // -------------------------------------------------------------- a whole tick

    method AdvanceHook(e: Env) returns (ghost picked: int)
      requires InWorld()
      modifies this`hookState, this`hookedPlayer, this`hookPos, this`hookDir, this`newHook, this`hookTeleBase
      modifies world.characters[..]`attachedPlayers
      ensures InWorld() && -1 <= picked < MAX_CLIENTS && (picked == -1 || world.Has(picked))
      ensures Catching(old(TheHook()), e) ==>
        old(Nearest(picked, MAX_CLIENTS, hookPos, FlightEnd(ThePlace(), e, pos), e.canHook))
      ensures !Catching(old(TheHook()), e) ==> picked == -1
      ensures TheHook() == Advance(old(TheHook()), AsInput(e, TooFar(old(ThePlace()), e, pos), picked, false))
      ensures ThePlace() == AdvancePlace(old(hookState), old(ThePlace()), e, pos, picked)
    {
      hide Catchable, Away, Nearest, WorldCore.Valid, TooFar, Fly, FlightEnd, FlyPlace;
      picked := -1;
      if hookState == HOOK_IDLE {
        SetHookedPlayer(-1);
        hookPos := pos;
      } else if HOOK_RETRACT_START <= hookState < HOOK_RETRACT_END {
        hookState := hookState + 1;
      } else if hookState == HOOK_RETRACT_END {
        hookState := HOOK_RETRACTED;
      } else if hookState == HOOK_FLYING {
        picked := FlyHook(e);
      }
    }

    /** What the flight of this tick caught: the nearest player on the hook's way, if it was looking for one. */
    twostate predicate Caught(h: Hook, p: Place, e: Env, picked: int)
      requires world.characters.Length == MAX_CLIENTS
      reads this`hookHitDisabled
    {
      if Catching(h, e) then old(Nearest(picked, MAX_CLIENTS, p.pos, FlightEnd(p, e, pos), e.canHook))
      else picked == -1
    }

    /** Input, movement and flight: the tick up to a grabbing hook. */
    method StartTick(e: Env) returns (ghost tooFar: bool, ghost picked: int)
      requires InWorld()
      modifies this`hookState, this`hookedPlayer, this`hookPos, this`hookDir, this`newHook, this`hookTeleBase
      modifies this`hookTick, this`vel, this`jumped, this`direction, this`angle, world.characters[..]`attachedPlayers
      ensures InWorld() && -1 <= picked < MAX_CLIENTS && (picked == -1 || world.Has(picked))
      ensures var h := Handle(old(TheHook()), AsInput(e, false, -1, false));
        var p := HandlePlace(old(hookState), old(ThePlace()), e, pos);
        && TheHook() == Advance(h, AsInput(e, tooFar, picked, false))
        && ThePlace() == AdvancePlace(h.state, p, e, pos, picked)
        && tooFar == TooFar(p, e, pos) && Caught(h, p, e, picked)
    {
      hide Catchable, Away, Nearest, WorldCore.Valid, TooFar, FlightEnd, Fly, Advance, AdvancePlace, Handle,
           HandlePlace;
      HandleHook(e);
      vel, jumped, direction, angle := e.vel, e.jumped, e.direction, e.angle;
      tooFar := TooFar(ThePlace(), e, pos);
      picked := AdvanceHook(e);
    }

    /** `w` is what the world answered in this tick; and where the hook is then. */
    twostate predicate Answered(e: Env, deferred: bool, w: Input)
      requires world.characters.Length == MAX_CLIENTS
      reads this`hookPos, this`hookDir, this`newHook, this`hookTeleBase, this`pos
      reads this`hookState, this`hookedPlayer, this`hookHitDisabled
      reads world.characters, world.characters[..]`pos
    {
      var h := Handle(old(TheHook()), w);
      var p := HandlePlace(old(hookState), old(ThePlace()), e, pos);
      var a := Advance(h, w);
      var q := AdvancePlace(h.state, p, e, pos, w.picked);
      && w.tooFar == TooFar(p, e, pos) && Caught(h, p, e, w.picked)
      && w.keeps == (a.state == HOOK_GRABBED && 0 <= a.hooked < MAX_CLIENTS &&
                     world.characters[a.hooked] != null && a.hooked in e.canKeep)
      && (if a.state != HOOK_GRABBED || a.hooked == -1 then hookPos == q.pos
          else if hookedPlayer == -1 then hookPos == pos
          else && 0 <= hookedPlayer < MAX_CLIENTS && world.characters[hookedPlayer] != null
               && hookPos == world.characters[hookedPlayer].pos)
      && newHook == (q.newHook && (deferred ==> hookState == HOOK_FLYING))
      && hookDir == q.dir && hookTeleBase == q.teleBase
    }

    /**
      What has become of a hook that flew from `start` in this tick: it caught the nearest player on its way,
      was too long, or ran into the map, in this order. Its length counts from the character, or from the
      way out of a teleporter it came through; a player is kept only for as long as is allowed.
     */
    twostate predicate Flown(start: Vec, dir: Vec, tick: int, e: Env, w: Input)
      requires world.characters.Length == MAX_CLIENTS
      reads this`hookPos, this`hookDir, this`newHook, this`hookTeleBase, this`pos
      reads this`hookState, this`hookTick, this`hookedPlayer, this`hookHitDisabled
      reads world.characters, world.characters[..]`pos
    {
      var to := Add(start, Scale(dir, e.fireSpeed));
      var far := Farther(if old(newHook) then old(hookTeleBase) else pos, to, e.hookLength);
      var end := if e.hit != NoHit then e.hitPos else if far then e.stopPos else to;
      && (if !hookHitDisabled && e.playerHooking then old(Nearest(w.picked, MAX_CLIENTS, start, end, e.canHook))
          else w.picked == -1)
      && if w.picked != -1 then
           && 0 <= w.picked < MAX_CLIENTS && world.characters[w.picked] != null && hookTick == tick + 1
           && if w.picked in e.canKeep && tick < 60 then
                hookState == 5 && hookedPlayer == w.picked && hookPos == world.characters[w.picked].pos
              else hookState == -1 && hookedPlayer == -1 && hookPos == pos
         else
           && hookedPlayer == -1
           && if far then hookState == 1 && hookTick == tick && hookPos == start && hookDir == dir
              else match e.hit
                case NoHit => hookState == 4 && hookTick == tick && hookPos == to && hookDir == dir
                case HitGround => hookState == 5 && hookTick == tick + 1 && hookPos == e.hitPos
                case HitNoHook => hookState == 1 && hookTick == tick && hookPos == e.hitPos
                case HitTele =>
                  && hookState == 4 && hookTick == tick
                  && if e.teleOut then
                       && hookPos == Vec(e.telePos.x + e.target.x * 42.0, e.telePos.y + e.target.y * 42.0)
                       && hookDir == e.target && newHook && hookTeleBase == hookPos
                     else hookPos == e.hitPos && hookDir == dir
    }

    twostate lemma AnsweredIsFlown(f: Flight)
      requires InWorld() && pos == old(pos) && hookHitDisabled == old(hookHitDisabled)
      requires f.w == AsInput(f.e, f.w.tooFar, f.w.picked, f.w.keeps) && (f.w.picked == -1 || world.Has(f.w.picked))
      requires Answered(f.e, f.deferred, f.w) && TheHook() == Next(old(TheHook()), f.w)
      requires Flies(old(TheHook()), old(ThePlace()), f.e, pos, f.start, f.dir, f.tick)
      ensures Flown(f.start, f.dir, f.tick, f.e, f.w)
    {
      hide Nearest, WorldCore.Valid, TooFar, FlightEnd, Handle, HandlePlace, Advance, AdvancePlace, Next, Flies,
           Add, Scale, Farther;
      var p := old(ThePlace()).(pos := f.start, dir := f.dir);
      FlightParts(old(TheHook()), old(ThePlace()), f.e, pos, f.w, f.start, f.dir, f.tick);
      TooFarIs(p, f.e, pos);
      FlightEndIs(p, f.e, pos);
    }

    twostate lemma AnsweredIsIdle(f: Flight)
      requires InWorld() && RestsIdle(old(hookState), f.e)
      requires f.w == AsInput(f.e, f.w.tooFar, f.w.picked, f.w.keeps)
      requires Answered(f.e, f.deferred, f.w) && TheHook() == Next(old(TheHook()), f.w)
      ensures hookState == 0 && hookTick == old(hookTick) && hookedPlayer == -1 && hookPos == pos
    {
      hide WorldCore.Valid, TooFar, Caught;
    }

    /** What has become of a grabbing hook in this tick: a player is kept only while that is allowed. */
    twostate predicate StillHeld(e: Env)
      requires world.characters.Length == MAX_CLIENTS
      reads this`hookPos, this`pos, this`hookState, this`hookTick, this`hookedPlayer
      reads world.characters, world.characters[..]`pos
    {
      && hookTick == old(hookTick) + 1
      && if old(hookedPlayer) == -1 then hookState == 5 && hookedPlayer == -1 && hookPos == old(hookPos)
         else if world.Has(old(hookedPlayer)) && old(hookedPlayer) in e.canKeep && old(hookTick) < 60 then
           hookState == 5 && hookedPlayer == old(hookedPlayer) && hookPos == world.characters[hookedPlayer].pos
         else hookState == -1 && hookedPlayer == -1 && hookPos == pos
    }

    twostate lemma AnsweredIsHeld(f: Flight)
      requires InWorld() && old(hookState) == HOOK_GRABBED && (f.e.useInput ==> f.e.held)
      requires f.w == AsInput(f.e, f.w.tooFar, f.w.picked, f.w.keeps)
      requires Answered(f.e, f.deferred, f.w) && TheHook() == Next(old(TheHook()), f.w)
      ensures StillHeld(f.e)
    {
      hide WorldCore.Valid, TooFar, Caught;
    }

    /** A retracting hook goes on retracting, and stays where it was. */
    twostate lemma AnsweredIsRetracting(f: Flight)
      requires InWorld() && (f.e.useInput ==> f.e.held) && -1 <= old(hookState) <= 3 && old(hookState) != HOOK_IDLE
      requires f.w == AsInput(f.e, f.w.tooFar, f.w.picked, f.w.keeps)
      requires Answered(f.e, f.deferred, f.w) && TheHook() == Next(old(TheHook()), f.w)
      ensures hookState == (if 1 <= old(hookState) <= 2 then old(hookState) + 1 else -1) && hookTick == old(hookTick)
      ensures hookedPlayer == old(hookedPlayer) && hookPos == old(hookPos)
    {
      hide WorldCore.Valid, TooFar, Caught;
    }

    /** One tick of the character, against the hook machine; `w` is what the machine is told. */
    method Tick(e: Env, deferred: bool, vels: seq<Vec>) returns (ghost w: Input)
      requires InWorld() && |vels| == MAX_CLIENTS
      modifies this`hookState, this`hookedPlayer, this`hookPos, this`hookDir, this`newHook, this`hookTeleBase
      modifies this`hookTick, this`vel, this`jumped, this`direction, this`angle
      modifies world.characters[..]`attachedPlayers, world.characters[..]`vel
      ensures InWorld() && Allowed(w)
      ensures w == AsInput(e, w.tooFar, w.picked, w.keeps) && Answered(e, deferred, w)
      ensures TheHook() == Next(old(TheHook()), w)
      ensures old(hookState) == HOOK_FLYING && old(hookedPlayer) == -1 && (e.useInput ==> e.held) ==>
        Flown(old(hookPos), old(hookDir), old(hookTick), e, w)
      ensures old(hookState) == HOOK_IDLE && e.useInput && e.held ==>
        Flown(Vec(pos.x + e.target.x * 42.0, pos.y + e.target.y * 42.0), e.target, e.launchTick, e, w)
      ensures RestsIdle(old(hookState), e) ==>
        hookState == 0 && hookTick == old(hookTick) && hookedPlayer == -1 && hookPos == pos
      ensures old(hookState) == HOOK_GRABBED && (e.useInput ==> e.held) ==> StillHeld(e)
      ensures -1 <= old(hookState) <= 3 && old(hookState) != HOOK_IDLE && (e.useInput ==> e.held) ==>
        && hookState == (if 1 <= old(hookState) <= 2 then old(hookState) + 1 else -1) && hookTick == old(hookTick)
        && hookedPlayer == old(hookedPlayer) && hookPos == old(hookPos)
    {
      hide Flown, Answered, Next, WorldCore.Valid, Flies, StillHeld;
      w := HookTick(e, deferred, vels);
      Launched(old(TheHook()), old(ThePlace()), e, pos);
      ghost var launched := old(hookState) == HOOK_IDLE;
      ghost var start := if launched then Vec(pos.x + e.target.x * 42.0, pos.y + e.target.y * 42.0) else old(hookPos);
      ghost var dir := if launched then e.target else old(hookDir);
      ghost var tick := if launched then e.launchTick else old(hookTick);
      if Flies(old(TheHook()), old(ThePlace()), e, pos, start, dir, tick) {
        AnsweredIsFlown(Flight(start, dir, tick, e, deferred, w));
      }
      if RestsIdle(old(hookState), e) {
        AnsweredIsIdle(Flight(start, dir, tick, e, deferred, w));
      } else if old(hookState) == HOOK_GRABBED {
        AnsweredIsHeld(Flight(start, dir, tick, e, deferred, w));
      } else if -1 <= old(hookState) <= 3 && old(hookState) != HOOK_IDLE {
        AnsweredIsRetracting(Flight(start, dir, tick, e, deferred, w));
      }
    }

    /** The tick against the functions that make up the hook machine. */
    method HookTick(e: Env, deferred: bool, vels: seq<Vec>) returns (ghost w: Input)
      requires InWorld() && |vels| == MAX_CLIENTS
      modifies this`hookState, this`hookedPlayer, this`hookPos, this`hookDir, this`newHook, this`hookTeleBase
      modifies this`hookTick, this`vel, this`jumped, this`direction, this`angle
      modifies world.characters[..]`attachedPlayers, world.characters[..]`vel
      ensures InWorld() && Allowed(w)
      ensures w == AsInput(e, w.tooFar, w.picked, w.keeps) && Answered(e, deferred, w)
      ensures TheHook() == Next(old(TheHook()), w) && (w.picked == -1 || world.Has(w.picked))
    {
      hide Catchable, Away, Nearest, WorldCore.Valid, TooFar, FlightEnd, Handle, Advance, Next, AdvancePlace,
           HandlePlace, Catching, Hold;
      ghost var tooFar, picked := StartTick(e);
      ghost var keeps := FinishTick(e, deferred, vels);
      w := AsInput(e, tooFar, picked, keeps);
      NextInParts(old(TheHook()), e, tooFar, picked, keeps);
    }

    /** The rest of the tick: a grabbing hook, and the other characters if they are not left for later. */
    method FinishTick(e: Env, deferred: bool, vels: seq<Vec>) returns (ghost keeps: bool)
      requires InWorld() && |vels| == MAX_CLIENTS
      modifies this`hookState, this`hookedPlayer, this`hookPos, this`hookTick, this`newHook
      modifies world.characters[..]`attachedPlayers, world.characters[..]`vel
      ensures InWorld()
      ensures keeps == (old(hookState) == HOOK_GRABBED && 0 <= old(hookedPlayer) < MAX_CLIENTS &&
                        world.characters[old(hookedPlayer)] != null && old(hookedPlayer) in e.canKeep)
      ensures TheHook() ==
        if old(hookState) == HOOK_GRABBED then Hold(old(TheHook()), AsInput(e, false, -1, keeps)) else old(TheHook())
      ensures if old(hookState) != HOOK_GRABBED || old(hookedPlayer) == -1 then hookPos == old(hookPos)
        else if hookedPlayer == -1 then hookPos == pos
        else && 0 <= hookedPlayer < MAX_CLIENTS && world.characters[hookedPlayer] != null
             && hookPos == world.characters[hookedPlayer].pos
      ensures newHook == (old(newHook) && (deferred ==> hookState == HOOK_FLYING))
    {
      hide WorldCore.Valid;
      keeps := false;
      if hookState == HOOK_GRABBED {
        keeps := GrabHook(e);
      }
      if deferred {
        TickDeferred(vels);
      }
    }

    // -------------------------------------------------------------- the network

    ghost function TheState(): State
      reads this
    {
      State(pos, vel, hookPos, hookDir, hookState, hookTick, hookedPlayer, jumped, direction, angle)
    }

    method Write() returns (o: NetObj)
      ensures o == Pack(TheState())
    {
      hide RoundToInt;
      var velX, velY := RoundToInt(vel.x * 256.0), RoundToInt(vel.y * 256.0);
      var hookDx, hookDy := RoundToInt(hookDir.x * 256.0), RoundToInt(hookDir.y * 256.0);
      o := NetObj(RoundToInt(pos.x), RoundToInt(pos.y), velX, velY, hookState, hookTick,
                  RoundToInt(hookPos.x), RoundToInt(hookPos.y), hookDx, hookDy, hookedPlayer, jumped, direction, angle);
    }

    method Read(o: NetObj)
      requires InWorld() && -1 <= o.hookedPlayer < MAX_CLIENTS
      modifies this`pos, this`vel, this`hookState, this`hookTick, this`hookPos, this`hookDir, this`hookedPlayer
      modifies this`jumped, this`direction, this`angle, world.characters[..]`attachedPlayers
      ensures InWorld() && TheState() == Unpack(o)
    {
      hide WorldCore.Valid, Rehooked;
      pos := Vec(o.x as real, o.y as real);
      vel := Vec(o.velX as real / 256.0, o.velY as real / 256.0);
      hookState := o.hookState;
      hookTick := o.hookTick;
      hookPos := Vec(o.hookX as real, o.hookY as real);
      hookDir := Vec(o.hookDx as real / 256.0, o.hookDy as real / 256.0);
      SetHookedPlayer(o.hookedPlayer);
      jumped := o.jumped;
      direction := o.direction;
      angle := o.angle;
    }

    method Quantize()
      requires InWorld()
      modifies this`pos, this`vel, this`hookState, this`hookTick, this`hookPos, this`hookDir, this`hookedPlayer
      modifies this`jumped, this`direction, this`angle, world.characters[..]`attachedPlayers
      ensures InWorld() && TheState() == Quantized(old(TheState()))
    {
      hide WorldCore.Valid, Pack, Unpack;
      IndexOfThis();
      var core := Write();
      assert core.hookedPlayer == hookedPlayer by {
        PackKeepsHooked(TheState());
      }
      Read(core);
      PackKeepsHooked(old(TheState()));
    }
  }

  lemma PackKeepsHooked(s: State)
    ensures Pack(s).hookedPlayer == s.hookedPlayer && Quantized(s).hookedPlayer == s.hookedPlayer
  {
    hide RoundToInt;
  }

  // ---------------------------------------------------------------- runs

  /** What can happen to a character of a world. */
  datatype Op =
    | Ticked(id: int, e: Env, deferred: bool, vels: seq<Vec>)
    | Deferred(id: int, vels: seq<Vec>)
    | ReadFrom(id: int, o: NetObj)
    | Rounded(id: int)
    | Hooked(id: int, player: int)

  predicate Legal(op: Op) {
    match op
    case Ticked(_, _, _, vels) => |vels| == MAX_CLIENTS
    case Deferred(_, vels) => |vels| == MAX_CLIENTS
    case ReadFrom(_, o) => -1 <= o.hookedPlayer < MAX_CLIENTS
    case Rounded(_) => true
    case Hooked(_, player) => -1 <= player < MAX_CLIENTS
  }

  /** The hook in slot `i`; that of a new character if the slot is empty. */
  ghost function HookAt(world: WorldCore, i: int): Hook
    requires 0 <= i < world.characters.Length
    reads world.characters
    reads world.characters[..]`hookState, world.characters[..]`hookTick, world.characters[..]`hookedPlayer
  {
    var c := world.characters[i];
    if c == null then RESET else c.TheHook()
  }

  ghost function AllHooks(world: WorldCore): (hs: seq<Hook>)
    requires world.characters.Length == MAX_CLIENTS
    reads world.characters, world.characters[..]
    ensures |hs| == MAX_CLIENTS && forall i :: 0 <= i < MAX_CLIENTS ==> hs[i] == HookAt(world, i)
  {
    seq(MAX_CLIENTS, i requires 0 <= i < MAX_CLIENTS reads world.characters, world.characters[..] => HookAt(world, i))
  }

  /** The slots that hold a character. */
  ghost function LiveSlots(world: WorldCore): set<int>
    reads world.characters
  {
    set i | 0 <= i < world.characters.Length && world.characters[i] != null
  }

  /** The hook `h` of a character after an operation on it; a tick is told `w`. */
  function Effect(op: Op, h: Hook, w: Input): Hook {
    match op
    case Ticked(_, _, _, _) => Next(h, w)
    case Deferred(_, _) => h
    case ReadFrom(_, o) => Hook(o.hookState, o.hookTick, o.hookedPlayer)
    case Rounded(_) => h
    case Hooked(_, player) => h.(hooked := player)
  }

  /** What a tick with the environment of `op` can be told. */
  predicate CanTell(op: Op, w: Input) {
    op.Ticked? ==> Allowed(w) && w == AsInput(op.e, w.tooFar, w.picked, w.keeps)
  }

  /** All hooks before and after an operation that tells the hook machine `w`. */
  predicate Step(op: Op, slots: set<int>, hs: seq<Hook>, w: Input, next: seq<Hook>) {
    && |hs| == |next| == MAX_CLIENTS && CanTell(op, w)
    && forall i :: 0 <= i < MAX_CLIENTS ==>
         next[i] == if i == op.id && i in slots then Effect(op, hs[i], w) else hs[i]
  }

  /** One operation; `w` is what a tick tells the hook machine of its character. */
  method Do(world: WorldCore, op: Op) returns (ghost w: Input)
    requires world.Valid() && Legal(op)
    modifies world.characters[..]
    ensures world.Valid() && world.characters.Length == MAX_CLIENTS
    ensures Step(op, LiveSlots(world), old(AllHooks(world)), w, AllHooks(world))
  {
    hide WorldCore.Valid, Next, CharacterCore.Answered, CharacterCore.Rehooked;
    world.Members();
    w := Input(false, false, 0, false, NoHit, false, -1, false);
    if op.Ticked? {
      w := AsInput(op.e, false, -1, false);
    }
    if 0 <= op.id < MAX_CLIENTS {
      var c := world.characters[op.id];
      if c != null {
        match op
        case Ticked(_, e, deferred, vels) =>
          w := c.Tick(e, deferred, vels);
        case Deferred(_, vels) => c.TickDeferred(vels);
        case ReadFrom(_, o) => c.Read(o);
        case Rounded(_) => c.Quantize();
        case Hooked(_, player) => c.SetHookedPlayer(player);
      }
    }
  }

  /** Nothing happens to character `i` but ticks. */
  predicate OnlyTicked(ops: seq<Op>, i: int) {
    forall op :: op in ops && op.id == i ==> op.Ticked? || op.Deferred?
  }

  function TickCount(ops: seq<Op>, i: int): nat {
    if ops == [] then 0
    else
      var k := |ops| - 1;
      TickCount(ops[..k], i) + if ops[k].Ticked? && ops[k].id == i then 1 else 0
  }

  /** What the ticks of character `i` tell the hook machine. */
  function Told(ops: seq<Op>, ws: seq<Input>, i: int): (r: seq<Input>)
    requires |ops| == |ws|
    ensures |r| == TickCount(ops, i)
  {
    if ops == [] then []
    else
      var k := |ops| - 1;
      Told(ops[..k], ws[..k], i) + if ops[k].Ticked? && ops[k].id == i then [ws[k]] else []
  }

  /** The hooks before the first and after every operation. */
  predicate Traced(ops: seq<Op>, slots: set<int>, trace: seq<seq<Hook>>, ws: seq<Input>) {
    && |trace| == |ops| + 1 && |ws| == |ops|
    && (forall n :: 0 <= n <= |ops| ==> |trace[n]| == MAX_CLIENTS)
    && forall n :: 0 <= n < |ops| ==> Step(ops[n], slots, trace[n], ws[n], trace[n + 1])
  }

  /** Character `i` has a player hooked before operation `m` and after each one from there up to `n`. */
  predicate Held(trace: seq<seq<Hook>>, i: int, m: nat, n: nat)
    requires m <= n < |trace| && 0 <= i < MAX_CLIENTS
    requires forall k :: 0 <= k < |trace| ==> |trace[k]| == MAX_CLIENTS
  {
    forall k :: m <= k <= n ==> trace[k][i].hooked != -1
  }

  /**
    The hook went from `h` to `h'` by ticks of the hook machine that were told `told`: it is sane if it was,
    and if it had a player all the time, the same one, the timer counted every tick, and they are bounded.
   */
  predicate Ticking(h: Hook, h': Hook, told: seq<Input>, held: bool) {
    && h' == Ticks(h, told)
    && (Sane(h) ==> Sane(h'))
    && (Sane(h) && held ==>
          h'.hooked == h.hooked && h'.tick == h.tick + |told| && |told| <= HOLD_LIMIT - h.tick)
  }

  /** From `m` to `n` the hook of character `i` did what the hook machine does. */
  predicate Followed(ops: seq<Op>, trace: seq<seq<Hook>>, ws: seq<Input>, i: int, m: nat, n: nat)
    requires m <= n <= |ops| == |ws| && |trace| == |ops| + 1 && 0 <= i < MAX_CLIENTS
    requires forall k :: 0 <= k < |trace| ==> |trace[k]| == MAX_CLIENTS
  {
    Ticking(trace[m][i], trace[n][i], Told(ops[m..n], ws[m..n], i), Held(trace, i, m, n))
  }

  /** One more tick. */
  lemma TickingOn(h: Hook, g: Hook, told: seq<Input>, w: Input, held: bool)
    requires Ticking(h, g, told, held) && Allowed(w)
    ensures Ticking(h, Next(g, w), told + [w], held && g.hooked != -1 && Next(g, w).hooked != -1)
  {
    hide Ticks, Next, Sane;
    assert Ticks(h, told + [w]) == Next(g, w) by {
      TicksNext(h, told, w);
    }
    if Sane(h) {
      NextKeepsSane(g, w);
      if g.hooked != -1 && Next(g, w).hooked != -1 {
        HeldOn(g, w);
      }
    }
  }

  /** One more tick with a player hooked before and after it: the same player, and the timer counts it. */
  lemma HeldOn(h: Hook, w: Input)
    requires Sane(h) && h.hooked != -1 && Next(h, w).hooked != -1
    ensures Next(h, w) == h.(tick := h.tick + 1) && h.tick < HOLD_LIMIT
  {
  }

  lemma NoTicks(h: Hook, held: bool)
    requires held ==> h.hooked != -1
    ensures Ticking(h, h, [], held)
  {
  }

  lemma HeldOnlyLess(h: Hook, g: Hook, told: seq<Input>, held: bool, less: bool)
    requires Ticking(h, g, told, held) && (less ==> held)
    ensures Ticking(h, g, told, less)
  {
  }

  /** Over any part of a run in which nothing but ticks happens to a character, it follows the hook machine. */
  lemma {:induction false} FollowsMachine(ops: seq<Op>, slots: set<int>, trace: seq<seq<Hook>>, ws: seq<Input>,
                                          i: int, m: nat, n: nat)
    requires Traced(ops, slots, trace, ws) && m <= n <= |ops| && 0 <= i < MAX_CLIENTS && i in slots
    requires OnlyTicked(ops[m..n], i)
    ensures Followed(ops, trace, ws, i, m, n)
    decreases n
  {
    hide Next, Step, Ticking;
    if m == n {
      NoTicks(trace[m][i], Held(trace, i, m, n));
    } else {
      hide Told, TickCount, OnlyTicked;
      var k := n - 1;
      LastOf(ops, ws, m, n, i);
      FollowsMachine(ops, slots, trace, ws, i, m, k);
      StepOfOne(ops[k], slots, trace[k], ws[k], trace[n], i);
      var h, g, told := trace[m][i], trace[k][i], Told(ops[m..k], ws[m..k], i);
      var before, held := Held(trace, i, m, k), Held(trace, i, m, n);
      assert held ==> before;
      if ops[k].id == i && ops[k].Ticked? {
        TickingOn(h, g, told, ws[k], before);
        HeldOnlyLess(h, trace[n][i], told + [ws[k]], before && g.hooked != -1 && trace[n][i].hooked != -1, held);
      } else {
        HeldOnlyLess(h, g, told, before, held);
      }
    }
  }

  /** The part of a run up to operation `n`, by its last operation. */
  lemma LastOf(ops: seq<Op>, ws: seq<Input>, m: nat, n: nat, i: int)
    requires m < n <= |ops| == |ws| && OnlyTicked(ops[m..n], i)
    ensures var k := n - 1; var counts := ops[k].Ticked? && ops[k].id == i;
      && OnlyTicked(ops[m..k], i) && (ops[k].id == i ==> ops[k].Ticked? || ops[k].Deferred?)
      && TickCount(ops[m..n], i) == TickCount(ops[m..k], i) + (if counts then 1 else 0)
      && var told := Told(ops[m..k], ws[m..k], i);
         Told(ops[m..n], ws[m..n], i) == if counts then told + [ws[k]] else told
  {
    hide TickCount, Told;
    var k := n - 1;
    assert ops[m..n] == ops[m..k] + [ops[k]] && ws[m..n] == ws[m..k] + [ws[k]];
    ToldNext(ops[m..k], ws[m..k], ops[k], ws[k], i);
  }

  lemma ToldNext(ops: seq<Op>, ws: seq<Input>, op: Op, w: Input, i: int)
    requires |ops| == |ws|
    ensures var counts := op.Ticked? && op.id == i;
      && TickCount(ops + [op], i) == TickCount(ops, i) + (if counts then 1 else 0)
      && Told(ops + [op], ws + [w], i) == if counts then Told(ops, ws, i) + [w] else Told(ops, ws, i)
  {
    assert (ops + [op])[..|ops|] == ops && (ws + [w])[..|ws|] == ws;
  }

  lemma TicksNext(h: Hook, ws: seq<Input>, w: Input)
    ensures Ticks(h, ws + [w]) == Next(Ticks(h, ws), w)
  {
    assert (ws + [w])[..|ws|] == ws;
  }

  lemma StepOfOne(op: Op, slots: set<int>, hs: seq<Hook>, w: Input, next: seq<Hook>, i: int)
    requires Step(op, slots, hs, w, next) && 0 <= i < MAX_CLIENTS && i in slots
    ensures |hs| == |next| == MAX_CLIENTS
    ensures op.Ticked? && op.id == i ==> next[i] == Next(hs[i], w) && Allowed(w)
    ensures op.id != i || op.Deferred? ==> next[i] == hs[i]
  {
  }

  /**
    Any operations on a fixed set of characters: the index is exact, and `trace` holds all hooks after
    every one of them. Over any part of the run in which nothing but ticks happens to a character, whatever
    happens to the others in between, it follows the hook machine: its hook stays sane, and while it has a
    player hooked it is the same player, the timer counts every tick, and they are bounded.
   */
  method Run(world: WorldCore, ops: seq<Op>) returns (ghost trace: seq<seq<Hook>>, ghost ws: seq<Input>)
    requires world.Valid() && forall op :: op in ops ==> Legal(op)
    modifies world.characters[..]
    ensures world.Valid() && world.characters.Length == MAX_CLIENTS
    ensures Traced(ops, LiveSlots(world), trace, ws)
    ensures trace[0] == old(AllHooks(world)) && trace[|ops|] == AllHooks(world)
    ensures forall i, m: nat, n: nat :: i in LiveSlots(world) && m <= n <= |ops| && OnlyTicked(ops[m..n], i) ==>
      Followed(ops, trace, ws, i, m, n)
  {
    hide WorldCore.Valid, Legal, Step, Followed, OnlyTicked;
    world.Members();
    ghost var slots := LiveSlots(world);
    trace := [AllHooks(world)];
    ws := [];
    for n := 0 to |ops|
      invariant world.Valid() && world.characters.Length == MAX_CLIENTS && slots == LiveSlots(world)
      invariant Traced(ops[..n], slots, trace, ws)
      invariant trace[0] == old(AllHooks(world)) && trace[n] == AllHooks(world)
    {
      ghost var w := Do(world, ops[n]);
      TracedOn(ops, n, slots, trace, ws, w, AllHooks(world));
      trace := trace + [AllHooks(world)];
      ws := ws + [w];
    }
    assert ops[..|ops|] == ops;
    forall i, m: nat, n: nat | i in slots && m <= n <= |ops| && OnlyTicked(ops[m..n], i)
      ensures Followed(ops, trace, ws, i, m, n)
    {
      FollowsMachine(ops, slots, trace, ws, i, m, n);
    }
  }

  lemma TracedOn(ops: seq<Op>, n: nat, slots: set<int>, trace: seq<seq<Hook>>, ws: seq<Input>, w: Input,
                 next: seq<Hook>)
    requires n < |ops| && Traced(ops[..n], slots, trace, ws) && Step(ops[n], slots, trace[n], w, next)
    requires |next| == MAX_CLIENTS
    ensures Traced(ops[..n + 1], slots, trace + [next], ws + [w])
  {
    hide Step;
  }

  lemma NextInParts(h: Hook, e: Env, tooFar: bool, picked: int, keeps: bool)
    ensures var h1 := Handle(h, AsInput(e, false, -1, false));
            var h2 := Advance(h1, AsInput(e, tooFar, picked, false));
            var w := AsInput(e, tooFar, picked, keeps);
            && h1 == Handle(h, w) && h2 == Advance(h1, w)
            && Next(h, w) == if h2.state == HOOK_GRABBED then Hold(h2, AsInput(e, false, -1, keeps)) else h2
  {
  }
}
