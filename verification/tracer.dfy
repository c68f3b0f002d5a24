/** The light tracer `Game::traceLight` (Game.cpp lines 113-142).

    A beam starts at a world position with a direction, records the start,
    then takes up to 20 steps of 10 units.  A step that lands off the grid or
    on a wall ends the segment without being recorded.  Otherwise the new
    position is recorded; if an active mirror lies within 10 units the tracer
    calls itself from that same position with the reflected direction and
    returns, and if not, every Portal within 10 units of a position on the
    portal cell is switched on (and the game's `isPortalActive` set) while the
    beam carries on.

    The source recurses once per mirror hit with no bound, so four mirrors in
    a rectangle make it loop forever.  The model takes `fuel`, the number of
    reflections it may still follow; a mirror hit with no fuel left ends the
    beam at the hit and sets `exhausted`.  With enough fuel the result is the
    source's (see `BeamFuelMonotone`).

    The source mutates the entity list and the game flag through `this`; the
    model returns the new entity list and whether the flag was set.
 */
module Tracer {
  import opened Geometry
  import opened Entities
  import opened Maze

  /** Steps per segment (Game.cpp line 116). */
  const MaxSteps: nat := 20

  /** The outcome of a trace: the recorded vertices in order, the entity
      list afterwards, whether `isPortalActive` was set, and whether a mirror
      hit was cut off for lack of fuel. */
  datatype Trace = Trace(path: seq<Vec>, entities: seq<Entity>, lit: bool, exhausted: bool)

  /** The mirror test passes at `p` for some entity. */
  predicate MirrorAt(ents: seq<Entity>, p: Vec) {
    FirstMirrorNear(ents, p).Some?
  }

  /** The portal test of Game.cpp lines 133-135 passes for entity `e` at
      vertex `p`: `p` is on a grid cell marked 'T' and `e` is a Portal
      within 10 units of it. */
  predicate LightsPortal(m: Grid, e: Entity, p: Vec)
    requires IsGrid(m)
  {
    PortalNear(e, p) && InGrid(CellOf(p)) && At(m, CellOf(p)) == PortalChar
  }

  /** The portal test passes for some entity at `p`. */
  ghost predicate LightsAny(m: Grid, ents: seq<Entity>, p: Vec)
    requires IsGrid(m)
  {
    exists i :: 0 <= i < |ents| && LightsPortal(m, ents[i], p)
  }

  /** The portal check after a recorded vertex `p` that hit no mirror
      (Game.cpp lines 133-140): on a 'T' cell, every Portal near `p` is
      switched on; the flag says whether `isPortalActive` gets set. */
  function PortalCheck(m: Grid, ents: seq<Entity>, p: Vec): (r: (seq<Entity>, bool))
    requires IsGrid(m) && InGrid(CellOf(p))
    ensures Evolves(ents, r.0)
    ensures forall i :: 0 <= i < |ents| ==> (r.0[i] != ents[i] ==> LightsPortal(m, ents[i], p))
    ensures forall i :: 0 <= i < |ents| ==> (LightsPortal(m, ents[i], p) ==> IsActive(r.0[i]))
    ensures r.1 <==> LightsAny(m, ents, p)
  {
    if At(m, CellOf(p)) == PortalChar then ActivatePortals(ents, p) else (ents, false)
  }

  /** `traceLight(start, dir, path)` with `fuel` reflections to spare. */
  function Beam(m: Grid, ents: seq<Entity>, start: Vec, dir: Vec, fuel: nat): (r: Trace)
    requires IsGrid(m)
    ensures |r.path| >= 1 && r.path[0] == start
    ensures |r.path| <= (MaxSteps + 1) * (fuel + 1)
    ensures forall i :: 1 <= i < |r.path| ==> !Blocked(m, CellOf(r.path[i]))
    ensures Evolves(ents, r.entities)
    decreases fuel, MaxSteps + 1
  {
    var w := Walk(m, ents, start, dir, MaxSteps, fuel);
    Trace([start] + w.path, w.entities, w.lit, w.exhausted)
  }

  /** The step loop of Game.cpp lines 116-141 from position `pos` with
      `steps` iterations left; returns only the vertices it records. */
  function Walk(m: Grid, ents: seq<Entity>, pos: Vec, dir: Vec, steps: nat, fuel: nat): (r: Trace)
    requires IsGrid(m)
    ensures |r.path| <= steps + (MaxSteps + 1) * fuel
    ensures |r.path| > 0 ==> r.path[0] == Advance(pos, dir)
    ensures forall i :: 0 <= i < |r.path| ==> !Blocked(m, CellOf(r.path[i]))
    ensures Evolves(ents, r.entities)
    decreases fuel, steps
  {
    if steps == 0 then Trace([], ents, false, false)
    else
      var p := Advance(pos, dir);
      var c := CellOf(p);
      if Blocked(m, c) then Trace([], ents, false, false)
      else
        match FirstMirrorNear(ents, p)
        case Some(i) =>
          if fuel == 0 then Trace([p], ents, false, true)
          else
            var b := Beam(m, ents, p, Reflect(ents[i].rotation, dir), fuel - 1);
            Trace([p] + b.path, b.entities, b.lit, b.exhausted)
        case None =>
          var (ents2, lit) := PortalCheck(m, ents, p);
          var rest := Walk(m, ents2, p, dir, steps - 1, fuel);
          EvolvesTransitive(ents, ents2, rest.entities);
          Trace([p] + rest.path, rest.entities, lit || rest.lit, rest.exhausted)
  }

  /** Unfolding of `Walk` when its first step hits a mirror with fuel to
      spare: the hit is recorded, then the reflected beam from that point. */
  lemma WalkReflects(m: Grid, ents: seq<Entity>, pos: Vec, dir: Vec, steps: nat, fuel: nat)
    requires IsGrid(m) && steps > 0 && fuel > 0
    requires !Blocked(m, CellOf(Advance(pos, dir))) && FirstMirrorNear(ents, Advance(pos, dir)).Some?
    ensures var p := Advance(pos, dir);
            var b := Beam(m, ents, p, Reflect(ents[FirstMirrorNear(ents, p).value].rotation, dir), fuel - 1);
            Walk(m, ents, pos, dir, steps, fuel) == Trace([p] + b.path, b.entities, b.lit, b.exhausted)
  {
  }

  /** Unfolding of `Walk` when its first step hits no mirror: the step is
      recorded, the portal check runs, and the loop carries on. */
  lemma WalkContinues(m: Grid, ents: seq<Entity>, pos: Vec, dir: Vec, steps: nat, fuel: nat)
    requires IsGrid(m) && steps > 0
    requires !Blocked(m, CellOf(Advance(pos, dir))) && FirstMirrorNear(ents, Advance(pos, dir)).None?
    ensures var p := Advance(pos, dir);
            var pc := PortalCheck(m, ents, p);
            var rest := Walk(m, pc.0, p, dir, steps - 1, fuel);
            Walk(m, ents, pos, dir, steps, fuel) == Trace([p] + rest.path, rest.entities, pc.1 || rest.lit, rest.exhausted)
  {
  }

  /** A vertex of `tail` past index `tlo` where the portal test passes for
      entity `i` and no mirror is hit is one of `path` past `lo` when `tail`
      is a suffix of `path`, even if portals were switched on in between. */
  lemma ReachedShift(m: Grid, ents: seq<Entity>, ents2: seq<Entity>, i: nat, path: seq<Vec>, tail: seq<Vec>, d: nat, lo: nat, tlo: nat)
    requires IsGrid(m) && Evolves(ents, ents2) && i < |ents|
    requires d <= |path| && path[d..] == tail && lo <= d + tlo
    requires exists j :: tlo <= j < |tail| && !MirrorAt(ents2, tail[j]) && LightsPortal(m, ents2[i], tail[j])
    ensures exists j :: lo <= j < |path| && !MirrorAt(ents, path[j]) && LightsPortal(m, ents[i], path[j])
  {
    var j :| tlo <= j < |tail| && !MirrorAt(ents2, tail[j]) && LightsPortal(m, ents2[i], tail[j]);
    assert path[d + j] == tail[j];
    MirrorSearchStable(ents, ents2, tail[j]);
    assert Kept(ents[i], ents2[i]);
  }

  /** The same for the portal test passing for some entity. */
  lemma AnyShift(m: Grid, ents: seq<Entity>, ents2: seq<Entity>, path: seq<Vec>, tail: seq<Vec>, d: nat, lo: nat, tlo: nat)
    requires IsGrid(m) && Evolves(ents, ents2)
    requires d <= |path| && path[d..] == tail && lo <= d + tlo
    requires exists j :: tlo <= j < |tail| && !MirrorAt(ents2, tail[j]) && LightsAny(m, ents2, tail[j])
    ensures exists j :: lo <= j < |path| && !MirrorAt(ents, path[j]) && LightsAny(m, ents, path[j])
  {
    var j :| tlo <= j < |tail| && !MirrorAt(ents2, tail[j]) && LightsAny(m, ents2, tail[j]);
    var k :| 0 <= k < |ents2| && LightsPortal(m, ents2[k], tail[j]);
    assert path[d + j] == tail[j];
    MirrorSearchStable(ents, ents2, tail[j]);
    assert Kept(ents[k], ents2[k]);
    assert LightsPortal(m, ents[k], path[d + j]);
  }

  /** Every entity a walk changes is a Portal that the portal test passed
      for at one of the recorded vertices where no mirror was hit (a mirror
      hit returns before the portal test, Game.cpp line 129). */
  lemma {:induction false} WalkChangesJustified(m: Grid, ents: seq<Entity>, pos: Vec, dir: Vec, steps: nat, fuel: nat)
    requires IsGrid(m)
    ensures var r := Walk(m, ents, pos, dir, steps, fuel);
            forall i :: 0 <= i < |ents| && r.entities[i] != ents[i] ==>
              exists j :: 0 <= j < |r.path| && !MirrorAt(ents, r.path[j]) && LightsPortal(m, ents[i], r.path[j])
    decreases fuel, steps, 1
  {
    if steps > 0 && !Blocked(m, CellOf(Advance(pos, dir))) {
      if FirstMirrorNear(ents, Advance(pos, dir)).Some? {
        if fuel > 0 {
          ReflectedChangesJustified(m, ents, pos, dir, steps, fuel);
        }
      } else {
        OnwardChangesJustified(m, ents, pos, dir, steps, fuel);
      }
    }
  }

  /** The case of a first step that hits a mirror with fuel to spare. */
  lemma {:induction false} ReflectedChangesJustified(m: Grid, ents: seq<Entity>, pos: Vec, dir: Vec, steps: nat, fuel: nat)
    requires IsGrid(m) && steps > 0 && fuel > 0
    requires !Blocked(m, CellOf(Advance(pos, dir))) && FirstMirrorNear(ents, Advance(pos, dir)).Some?
    ensures var r := Walk(m, ents, pos, dir, steps, fuel);
            forall i :: 0 <= i < |ents| && r.entities[i] != ents[i] ==>
              exists j :: 0 <= j < |r.path| && !MirrorAt(ents, r.path[j]) && LightsPortal(m, ents[i], r.path[j])
    decreases fuel, steps, 0
  {
    var p := Advance(pos, dir);
    var r := Walk(m, ents, pos, dir, steps, fuel);
    var rot := Reflect(ents[FirstMirrorNear(ents, p).value].rotation, dir);
    BeamChangesJustified(m, ents, p, rot, fuel - 1);
    var b := Beam(m, ents, p, rot, fuel - 1);
    WalkReflects(m, ents, pos, dir, steps, fuel);
    assert r.path[1..] == b.path;
    forall k | 0 <= k < |ents| && r.entities[k] != ents[k]
      ensures exists j :: 0 <= j < |r.path| && !MirrorAt(ents, r.path[j]) && LightsPortal(m, ents[k], r.path[j])
    {
      ReachedShift(m, ents, ents, k, r.path, b.path, 1, 0, 1);
    }
  }

  /** The case of a first step that hits no mirror and carries on. */
  lemma {:induction false} OnwardChangesJustified(m: Grid, ents: seq<Entity>, pos: Vec, dir: Vec, steps: nat, fuel: nat)
    requires IsGrid(m) && steps > 0
    requires !Blocked(m, CellOf(Advance(pos, dir))) && FirstMirrorNear(ents, Advance(pos, dir)).None?
    ensures var r := Walk(m, ents, pos, dir, steps, fuel);
            forall i :: 0 <= i < |ents| && r.entities[i] != ents[i] ==>
              exists j :: 0 <= j < |r.path| && !MirrorAt(ents, r.path[j]) && LightsPortal(m, ents[i], r.path[j])
    decreases fuel, steps, 0
  {
    var p := Advance(pos, dir);
    var r := Walk(m, ents, pos, dir, steps, fuel);
    var (ents2, lit) := PortalCheck(m, ents, p);
    WalkChangesJustified(m, ents2, p, dir, steps - 1, fuel);
    var rest := Walk(m, ents2, p, dir, steps - 1, fuel);
    WalkContinues(m, ents, pos, dir, steps, fuel);
    assert r.path[1..] == rest.path;
    forall k | 0 <= k < |ents| && r.entities[k] != ents[k]
      ensures exists j :: 0 <= j < |r.path| && !MirrorAt(ents, r.path[j]) && LightsPortal(m, ents[k], r.path[j])
    {
      if ents2[k] != ents[k] {
        assert !MirrorAt(ents, r.path[0]) && LightsPortal(m, ents[k], r.path[0]);
      } else {
        assert rest.entities[k] != ents2[k];
        ReachedShift(m, ents, ents2, k, r.path, rest.path, 1, 0, 0);
      }
    }
  }

  /** Tracing only ever switches Portals on, and only at recorded vertices
      past the start that hit no mirror and where the portal test passes. */
  lemma {:induction false} BeamChangesJustified(m: Grid, ents: seq<Entity>, start: Vec, dir: Vec, fuel: nat)
    requires IsGrid(m)
    ensures var r := Beam(m, ents, start, dir, fuel);
            forall i :: 0 <= i < |ents| && r.entities[i] != ents[i] ==>
              exists j :: 1 <= j < |r.path| && !MirrorAt(ents, r.path[j]) && LightsPortal(m, ents[i], r.path[j])
    decreases fuel, MaxSteps + 1, 0
  {
    var r := Beam(m, ents, start, dir, fuel);
    var w := Walk(m, ents, start, dir, MaxSteps, fuel);
    WalkChangesJustified(m, ents, start, dir, MaxSteps, fuel);
    assert r.path[1..] == w.path;
    forall k | 0 <= k < |ents| && r.entities[k] != ents[k]
      ensures exists j :: 1 <= j < |r.path| && !MirrorAt(ents, r.path[j]) && LightsPortal(m, ents[k], r.path[j])
    {
      ReachedShift(m, ents, ents, k, r.path, w.path, 1, 1, 0);
    }
  }

  /** A walk sets the game flag only if the portal test passed for some
      entity at some recorded vertex that hit no mirror. */
  lemma {:induction false} WalkFlagJustified(m: Grid, ents: seq<Entity>, pos: Vec, dir: Vec, steps: nat, fuel: nat)
    requires IsGrid(m)
    ensures var r := Walk(m, ents, pos, dir, steps, fuel);
            r.lit ==> exists j :: 0 <= j < |r.path| && !MirrorAt(ents, r.path[j]) && LightsAny(m, ents, r.path[j])
    decreases fuel, steps, 1
  {
    if steps > 0 && !Blocked(m, CellOf(Advance(pos, dir))) {
      if FirstMirrorNear(ents, Advance(pos, dir)).Some? {
        if fuel > 0 {
          ReflectedFlagJustified(m, ents, pos, dir, steps, fuel);
        }
      } else {
        OnwardFlagJustified(m, ents, pos, dir, steps, fuel);
      }
    }
  }

  lemma {:induction false} ReflectedFlagJustified(m: Grid, ents: seq<Entity>, pos: Vec, dir: Vec, steps: nat, fuel: nat)
    requires IsGrid(m) && steps > 0 && fuel > 0
    requires !Blocked(m, CellOf(Advance(pos, dir))) && FirstMirrorNear(ents, Advance(pos, dir)).Some?
    ensures var r := Walk(m, ents, pos, dir, steps, fuel);
            r.lit ==> exists j :: 0 <= j < |r.path| && !MirrorAt(ents, r.path[j]) && LightsAny(m, ents, r.path[j])
    decreases fuel, steps, 0
  {
    var p := Advance(pos, dir);
    var r := Walk(m, ents, pos, dir, steps, fuel);
    var rot := Reflect(ents[FirstMirrorNear(ents, p).value].rotation, dir);
    BeamFlagJustified(m, ents, p, rot, fuel - 1);
    var b := Beam(m, ents, p, rot, fuel - 1);
    WalkReflects(m, ents, pos, dir, steps, fuel);
    if r.lit {
      assert r.path[1..] == b.path;
      AnyShift(m, ents, ents, r.path, b.path, 1, 0, 1);
    }
  }

  lemma {:induction false} OnwardFlagJustified(m: Grid, ents: seq<Entity>, pos: Vec, dir: Vec, steps: nat, fuel: nat)
    requires IsGrid(m) && steps > 0
    requires !Blocked(m, CellOf(Advance(pos, dir))) && FirstMirrorNear(ents, Advance(pos, dir)).None?
    ensures var r := Walk(m, ents, pos, dir, steps, fuel);
            r.lit ==> exists j :: 0 <= j < |r.path| && !MirrorAt(ents, r.path[j]) && LightsAny(m, ents, r.path[j])
    decreases fuel, steps, 0
  {
    var p := Advance(pos, dir);
    var r := Walk(m, ents, pos, dir, steps, fuel);
    var (ents2, lit) := PortalCheck(m, ents, p);
    WalkFlagJustified(m, ents2, p, dir, steps - 1, fuel);
    var rest := Walk(m, ents2, p, dir, steps - 1, fuel);
    WalkContinues(m, ents, pos, dir, steps, fuel);
    if r.lit {
      if lit {
        assert !MirrorAt(ents, r.path[0]) && LightsAny(m, ents, r.path[0]);
      } else {
        assert r.path[1..] == rest.path;
        AnyShift(m, ents, ents2, r.path, rest.path, 1, 0, 0);
      }
    }
  }

  /** A beam sets the game flag only if the portal test passed for some
      entity at some recorded vertex past the start that hit no mirror. */
  lemma {:induction false} BeamFlagJustified(m: Grid, ents: seq<Entity>, start: Vec, dir: Vec, fuel: nat)
    requires IsGrid(m)
    ensures var r := Beam(m, ents, start, dir, fuel);
            r.lit ==> exists j :: 1 <= j < |r.path| && !MirrorAt(ents, r.path[j]) && LightsAny(m, ents, r.path[j])
    decreases fuel, MaxSteps + 1, 0
  {
    var r := Beam(m, ents, start, dir, fuel);
    var w := Walk(m, ents, start, dir, MaxSteps, fuel);
    WalkFlagJustified(m, ents, start, dir, MaxSteps, fuel);
    if r.lit {
      assert r.path[1..] == w.path;
      AnyShift(m, ents, ents, r.path, w.path, 1, 1, 0);
    }
  }

  /** Wherever a recorded vertex of `r` from index `lo` on hits no mirror
      and the portal test passes for entity `i`, that entity ends up an
      active Portal and the game flag is set. */
  ghost predicate LightsEveryReached(m: Grid, ents: seq<Entity>, r: Trace, lo: nat)
    requires IsGrid(m)
  {
    forall j, i :: lo <= j < |r.path| && 0 <= i < |ents| && !MirrorAt(ents, r.path[j]) && LightsPortal(m, ents[i], r.path[j]) ==>
      i < |r.entities| && r.entities[i] == Portal(ents[i].pos, true) && r.lit
  }

  /** The converse of the two families above: a walk switches on every
      Portal it reaches at a vertex that hits no mirror and sets the flag.
      Lighting a portal does not stop the walk, and nothing later switches
      it off. */
  lemma {:induction false} WalkLightsReached(m: Grid, ents: seq<Entity>, pos: Vec, dir: Vec, steps: nat, fuel: nat, r: Trace)
    requires IsGrid(m) && r == Walk(m, ents, pos, dir, steps, fuel)
    ensures LightsEveryReached(m, ents, r, 0)
    decreases fuel, steps, 1
  {
    if steps > 0 && !Blocked(m, CellOf(Advance(pos, dir))) {
      if MirrorAt(ents, Advance(pos, dir)) {
        if fuel > 0 {
          ReflectedLightsReached(m, ents, pos, dir, steps, fuel, r);
        }
      } else {
        OnwardLightsReached(m, ents, pos, dir, steps, fuel, r);
      }
    }
  }

  lemma {:induction false} ReflectedLightsReached(m: Grid, ents: seq<Entity>, pos: Vec, dir: Vec, steps: nat, fuel: nat, r: Trace)
    requires IsGrid(m) && steps > 0 && fuel > 0
    requires !Blocked(m, CellOf(Advance(pos, dir))) && MirrorAt(ents, Advance(pos, dir))
    requires r == Walk(m, ents, pos, dir, steps, fuel)
    ensures LightsEveryReached(m, ents, r, 0)
    decreases fuel, steps, 0
  {
    var p := Advance(pos, dir);
    var rot := Reflect(ents[FirstMirrorNear(ents, p).value].rotation, dir);
    var b := Beam(m, ents, p, rot, fuel - 1);
    BeamLightsReached(m, ents, p, rot, fuel - 1, b);
    WalkReflects(m, ents, pos, dir, steps, fuel);
    assert r.path == [p] + b.path && r.entities == b.entities && r.lit == b.lit;
    forall j, i | 0 <= j < |r.path| && 0 <= i < |ents| && !MirrorAt(ents, r.path[j]) && LightsPortal(m, ents[i], r.path[j])
      ensures i < |r.entities| && r.entities[i] == Portal(ents[i].pos, true) && r.lit
    {
      // vertices 0 and 1 are both the mirror hit `p`
      if j >= 2 {
        assert r.path[j] == b.path[j - 1];
      }
    }
  }

  lemma {:induction false} OnwardLightsReached(m: Grid, ents: seq<Entity>, pos: Vec, dir: Vec, steps: nat, fuel: nat, r: Trace)
    requires IsGrid(m) && steps > 0
    requires !Blocked(m, CellOf(Advance(pos, dir))) && !MirrorAt(ents, Advance(pos, dir))
    requires r == Walk(m, ents, pos, dir, steps, fuel)
    ensures LightsEveryReached(m, ents, r, 0)
    decreases fuel, steps, 0
  {
    var p := Advance(pos, dir);
    var (ents2, lit) := PortalCheck(m, ents, p);
    var rest := Walk(m, ents2, p, dir, steps - 1, fuel);
    WalkLightsReached(m, ents2, p, dir, steps - 1, fuel, rest);
    WalkContinues(m, ents, pos, dir, steps, fuel);
    PrependReached(m, ents, ents2, p, lit, rest, r);
  }

  /** The step of `OnwardLightsReached`: a vertex that hits no mirror, then
      the portal check there, then a trace that lights what it reaches. */
  lemma PrependReached(m: Grid, ents: seq<Entity>, ents2: seq<Entity>, p: Vec, lit: bool, rest: Trace, r: Trace)
    requires IsGrid(m) && Evolves(ents, ents2) && Evolves(ents2, rest.entities)
    requires !MirrorAt(ents, p)
    requires forall i :: 0 <= i < |ents| ==> (LightsPortal(m, ents[i], p) ==> IsActive(ents2[i]))
    requires lit <==> LightsAny(m, ents, p)
    requires LightsEveryReached(m, ents2, rest, 0)
    requires r.path == [p] + rest.path && r.entities == rest.entities && r.lit == (lit || rest.lit)
    ensures LightsEveryReached(m, ents, r, 0)
  {
    forall j, i | 0 <= j < |r.path| && 0 <= i < |ents| && !MirrorAt(ents, r.path[j]) && LightsPortal(m, ents[i], r.path[j])
      ensures i < |r.entities| && r.entities[i] == Portal(ents[i].pos, true) && r.lit
    {
      assert Kept(ents[i], ents2[i]);
      assert Kept(ents2[i], rest.entities[i]);
      if j == 0 {
        assert IsActive(ents2[i]);
      } else {
        assert r.path[j] == rest.path[j - 1];
        MirrorSearchStable(ents, ents2, rest.path[j - 1]);
      }
    }
  }

  lemma {:induction false} BeamLightsReached(m: Grid, ents: seq<Entity>, start: Vec, dir: Vec, fuel: nat, r: Trace)
    requires IsGrid(m) && r == Beam(m, ents, start, dir, fuel)
    ensures LightsEveryReached(m, ents, r, 1)
    decreases fuel, MaxSteps + 1, 0
  {
    var w := Walk(m, ents, start, dir, MaxSteps, fuel);
    WalkLightsReached(m, ents, start, dir, MaxSteps, fuel, w);
    forall j, i | 1 <= j < |r.path| && 0 <= i < |ents| && !MirrorAt(ents, r.path[j]) && LightsPortal(m, ents[i], r.path[j])
      ensures i < |r.entities| && r.entities[i] == Portal(ents[i].pos, true) && r.lit
    {
      assert r.path[j] == w.path[j - 1];
    }
  }

  /** Some recorded vertex past the start hits no mirror and passes the
      portal test for entity `i`: the vertices where the source switches
      that Portal on (Game.cpp lines 121-139). */
  ghost predicate Reached(m: Grid, ents: seq<Entity>, path: seq<Vec>, i: nat)
    requires IsGrid(m) && i < |ents|
  {
    exists j :: 1 <= j < |path| && !MirrorAt(ents, path[j]) && LightsPortal(m, ents[i], path[j])
  }

  /** The portal side effects of a trace, exactly: an entity ends up as an
      active Portal if the beam reached it, and is otherwise untouched; the
      game flag is set if and only if the beam reached some Portal. */
  lemma BeamPortalEffect(m: Grid, ents: seq<Entity>, start: Vec, dir: Vec, fuel: nat)
    requires IsGrid(m)
    ensures var r := Beam(m, ents, start, dir, fuel);
            && (forall i :: 0 <= i < |ents| ==>
                  r.entities[i] == (if Reached(m, ents, r.path, i) then Portal(ents[i].pos, true) else ents[i]))
            && (r.lit <==> exists i :: 0 <= i < |ents| && Reached(m, ents, r.path, i))
  {
    var r := Beam(m, ents, start, dir, fuel);
    BeamChangesJustified(m, ents, start, dir, fuel);
    BeamFlagJustified(m, ents, start, dir, fuel);
    BeamLightsReached(m, ents, start, dir, fuel, r);
    if r.lit {
      var j :| 1 <= j < |r.path| && !MirrorAt(ents, r.path[j]) && LightsAny(m, ents, r.path[j]);
      var i :| 0 <= i < |ents| && LightsPortal(m, ents[i], r.path[j]);
      assert Reached(m, ents, r.path, i);
    }
  }

  /** More fuel changes nothing once a walk completed without running out. */
  lemma {:induction false} WalkFuelMonotone(m: Grid, ents: seq<Entity>, pos: Vec, dir: Vec, steps: nat, fuel: nat, more: nat)
    requires IsGrid(m) && fuel <= more
    requires !Walk(m, ents, pos, dir, steps, fuel).exhausted
    ensures Walk(m, ents, pos, dir, steps, more) == Walk(m, ents, pos, dir, steps, fuel)
    decreases fuel, steps
  {
    if steps > 0 {
      var p := Advance(pos, dir);
      var c := CellOf(p);
      if !Blocked(m, c) {
        match FirstMirrorNear(ents, p)
        case Some(i) =>
          BeamFuelMonotone(m, ents, p, Reflect(ents[i].rotation, dir), fuel - 1, more - 1);
        case None =>
          var (ents2, lit) := PortalCheck(m, ents, p);
          WalkFuelMonotone(m, ents2, p, dir, steps - 1, fuel, more);
      }
    }
  }

  /** A beam that did not run out of fuel is the source's complete trace:
      giving it more fuel changes nothing. */
  lemma {:induction false} BeamFuelMonotone(m: Grid, ents: seq<Entity>, start: Vec, dir: Vec, fuel: nat, more: nat)
    requires IsGrid(m) && fuel <= more
    requires !Beam(m, ents, start, dir, fuel).exhausted
    ensures Beam(m, ents, start, dir, more) == Beam(m, ents, start, dir, fuel)
    decreases fuel, MaxSteps + 1
  {
    WalkFuelMonotone(m, ents, start, dir, MaxSteps, fuel, more);
  }

  predicate NoMirrors(ents: seq<Entity>) {
    forall i :: 0 <= i < |ents| ==> !ents[i].Mirror?
  }

  /** Without mirrors a walk is a straight run of consecutive steps. */
  lemma {:induction false} WalkStraightWithoutMirrors(m: Grid, ents: seq<Entity>, pos: Vec, dir: Vec, steps: nat, fuel: nat)
    requires IsGrid(m) && NoMirrors(ents)
    ensures var r := Walk(m, ents, pos, dir, steps, fuel);
            && !r.exhausted && |r.path| <= steps
            && forall k :: 0 <= k < |r.path| ==> r.path[k] == Ray(pos, dir, k + 1)
    decreases steps
  {
    if steps > 0 {
      var p := Advance(pos, dir);
      var c := CellOf(p);
      if !Blocked(m, c) {
        assert FirstMirrorNear(ents, p).None?;
        var (ents2, lit) := PortalCheck(m, ents, p);
        assert forall i :: 0 <= i < |ents2| ==> Kept(ents[i], ents2[i]);
        WalkStraightWithoutMirrors(m, ents2, p, dir, steps - 1, fuel);
        var rest := Walk(m, ents2, p, dir, steps - 1, fuel);
        var r := Walk(m, ents, pos, dir, steps, fuel);
        assert r.path == [p] + rest.path;
        AdvanceRay(pos, dir, 0);
        forall k | 1 <= k < |r.path|
          ensures r.path[k] == Ray(pos, dir, k + 1)
        {
          AdvanceRay(pos, dir, k);
          assert r.path[k] == rest.path[k - 1] == Ray(p, dir, k);
        }
      }
    }
  }

  /** With no mirror placed, the beam is one straight segment of at most 20
      steps from its start, it is never cut short, and more fuel is useless. */
  lemma BeamStraightWithoutMirrors(m: Grid, ents: seq<Entity>, start: Vec, dir: Vec, fuel: nat)
    requires IsGrid(m) && NoMirrors(ents)
    ensures var r := Beam(m, ents, start, dir, fuel);
            && !r.exhausted && |r.path| <= MaxSteps + 1
            && forall k :: 0 <= k < |r.path| ==> r.path[k] == Ray(start, dir, k)
  {
    WalkStraightWithoutMirrors(m, ents, start, dir, MaxSteps, fuel);
    var r := Beam(m, ents, start, dir, fuel);
    var w := Walk(m, ents, start, dir, MaxSteps, fuel);
    forall k | 1 <= k < |r.path|
      ensures r.path[k] == Ray(start, dir, k)
    {
      assert r.path[k] == w.path[k - 1];
    }
  }

  /** How a straight run of `n` recorded steps from `pos` can end, within a
      loop of `steps` iterations: every step cell is open, no step before
      the last hits a mirror, and then the last one hits a mirror, or the
      iterations are used up, or the next step is blocked. */
  ghost predicate SegmentEnds(m: Grid, ents: seq<Entity>, pos: Vec, dir: Vec, steps: nat, n: nat)
    requires IsGrid(m)
  {
    && n <= steps
    && (forall k :: 1 <= k <= n ==> !Blocked(m, CellOf(Ray(pos, dir, k))))
    && (forall k :: 1 <= k < n ==> !MirrorAt(ents, Ray(pos, dir, k)))
    && (|| (n > 0 && MirrorAt(ents, Ray(pos, dir, n)))
        || n == steps
        || Blocked(m, CellOf(Ray(pos, dir, n + 1))))
  }

  /** What a walk records, given the length `n` of its straight run: the run
      itself, then either nothing more, or (on a mirror hit) the hit vertex
      again followed by a step in the reflected direction, or (on a mirror
      hit with no fuel left) nothing more and the `exhausted` mark. */
  ghost predicate SegmentRecorded(m: Grid, ents: seq<Entity>, pos: Vec, dir: Vec, fuel: nat, path: seq<Vec>, exhausted: bool, n: nat)
    requires IsGrid(m)
  {
    && n <= |path|
    && (forall k :: 0 <= k < n ==> path[k] == Ray(pos, dir, k + 1))
    && if n > 0 && MirrorAt(ents, Ray(pos, dir, n)) then
         && (fuel == 0 ==> |path| == n && exhausted)
         && (fuel > 0 ==> |path| > n && path[n] == path[n - 1])
         && (fuel > 0 && |path| > n + 1 ==>
               path[n + 1] == Advance(path[n], Reflect(ents[FirstMirrorNear(ents, path[n]).value].rotation, dir)))
       else |path| == n
  }

  /** Trace `r` is a straight run of some length `n` that ends as
      `SegmentEnds` allows and is recorded as `SegmentRecorded` says. */
  ghost predicate IsSegment(m: Grid, ents: seq<Entity>, pos: Vec, dir: Vec, steps: nat, fuel: nat, r: Trace)
    requires IsGrid(m)
  {
    exists n: nat :: SegmentEnds(m, ents, pos, dir, steps, n)
                  && SegmentRecorded(m, ents, pos, dir, fuel, r.path, r.exhausted, n)
  }

  /** One segment of the trace: the loop records a straight run of steps
      and stops at a wall or the grid's edge, after its 20 iterations, or at
      the first step that hits a mirror, from which the reflected beam
      restarts at the same position. */
  lemma WalkSegment(m: Grid, ents: seq<Entity>, pos: Vec, dir: Vec, steps: nat, fuel: nat)
    requires IsGrid(m)
    ensures IsSegment(m, ents, pos, dir, steps, fuel, Walk(m, ents, pos, dir, steps, fuel))
  {
    var n := SegmentLength(m, ents, pos, dir, steps, fuel, Walk(m, ents, pos, dir, steps, fuel));
  }

  /** The length of the straight run that `WalkSegment` speaks of, by
      induction on the iterations left. */
  lemma {:induction false} SegmentLength(m: Grid, ents: seq<Entity>, pos: Vec, dir: Vec, steps: nat, fuel: nat, r: Trace) returns (n: nat)
    requires IsGrid(m) && r == Walk(m, ents, pos, dir, steps, fuel)
    ensures SegmentEnds(m, ents, pos, dir, steps, n)
    ensures SegmentRecorded(m, ents, pos, dir, fuel, r.path, r.exhausted, n)
    decreases steps
  {
    var p := Advance(pos, dir);
    if steps == 0 || Blocked(m, CellOf(p)) {
      n := 0;
    } else if MirrorAt(ents, p) {
      SegmentOfOne(m, ents, pos, dir, steps, fuel, r);
      n := 1;
    } else {
      var ents2 := PortalCheck(m, ents, p).0;
      WalkContinues(m, ents, pos, dir, steps, fuel);
      var rest := Walk(m, ents2, p, dir, steps - 1, fuel);
      var n' := SegmentLength(m, ents2, p, dir, steps - 1, fuel, rest);
      assert r.path == [p] + rest.path && r.exhausted == rest.exhausted;
      SegmentPrepend(m, ents, ents2, pos, dir, steps, fuel, rest, r, n');
      n := n' + 1;
    }
  }

  /** The step of `SegmentLength` past a vertex that hits no mirror. */
  lemma SegmentPrepend(m: Grid, ents: seq<Entity>, ents2: seq<Entity>, pos: Vec, dir: Vec, steps: nat, fuel: nat, rest: Trace, r: Trace, n: nat)
    requires IsGrid(m) && steps > 0 && Evolves(ents, ents2)
    requires !Blocked(m, CellOf(Advance(pos, dir))) && !MirrorAt(ents, Advance(pos, dir))
    requires SegmentEnds(m, ents2, Advance(pos, dir), dir, steps - 1, n)
    requires SegmentRecorded(m, ents2, Advance(pos, dir), dir, fuel, rest.path, rest.exhausted, n)
    requires r.path == [Advance(pos, dir)] + rest.path && r.exhausted == rest.exhausted
    ensures SegmentEnds(m, ents, pos, dir, steps, n + 1)
    ensures SegmentRecorded(m, ents, pos, dir, fuel, r.path, r.exhausted, n + 1)
  {
    SegmentEndsShift(m, ents, ents2, pos, dir, steps, n);
    SegmentRecordedShift(m, ents, ents2, pos, dir, fuel, rest.path, rest.exhausted, n);
  }

  /** A first step onto a mirror is a run of one. */
  lemma SegmentOfOne(m: Grid, ents: seq<Entity>, pos: Vec, dir: Vec, steps: nat, fuel: nat, r: Trace)
    requires IsGrid(m) && steps > 0
    requires !Blocked(m, CellOf(Advance(pos, dir))) && MirrorAt(ents, Advance(pos, dir))
    requires r == Walk(m, ents, pos, dir, steps, fuel)
    ensures SegmentEnds(m, ents, pos, dir, steps, 1)
    ensures SegmentRecorded(m, ents, pos, dir, fuel, r.path, r.exhausted, 1)
  {
    AdvanceRay(pos, dir, 0);
    if fuel > 0 {
      WalkReflects(m, ents, pos, dir, steps, fuel);
    }
  }

  /** The inductive step of `WalkSegment` for the stopping condition: a run
      of `n` from the next position, under the entity list after the portal
      check, is a run of `n + 1` from the current one. */
  lemma SegmentEndsShift(m: Grid, ents: seq<Entity>, ents2: seq<Entity>, pos: Vec, dir: Vec, steps: nat, n: nat)
    requires IsGrid(m) && steps > 0 && Evolves(ents, ents2)
    requires !Blocked(m, CellOf(Advance(pos, dir))) && !MirrorAt(ents, Advance(pos, dir))
    requires SegmentEnds(m, ents2, Advance(pos, dir), dir, steps - 1, n)
    ensures SegmentEnds(m, ents, pos, dir, steps, n + 1)
  {
    var p := Advance(pos, dir);
    AdvanceRay(pos, dir, 0);
    forall k | 1 <= k <= n + 1
      ensures !Blocked(m, CellOf(Ray(pos, dir, k)))
    {
      if k > 1 {
        AdvanceRay(pos, dir, k - 1);
      }
    }
    forall k | 1 <= k < n + 1
      ensures !MirrorAt(ents, Ray(pos, dir, k))
    {
      if k > 1 {
        AdvanceRay(pos, dir, k - 1);
        MirrorSearchStable(ents, ents2, Ray(p, dir, k - 1));
      }
    }
    AdvanceRay(pos, dir, n);
    AdvanceRay(pos, dir, n + 1);
    MirrorSearchStable(ents, ents2, Ray(p, dir, n));
  }

  /** The inductive step of `WalkSegment` for what is recorded. */
  lemma SegmentRecordedShift(m: Grid, ents: seq<Entity>, ents2: seq<Entity>, pos: Vec, dir: Vec, fuel: nat, rest: seq<Vec>, exhausted: bool, n: nat)
    requires IsGrid(m) && Evolves(ents, ents2)
    requires !MirrorAt(ents, Advance(pos, dir))
    requires SegmentRecorded(m, ents2, Advance(pos, dir), dir, fuel, rest, exhausted, n)
    ensures SegmentRecorded(m, ents, pos, dir, fuel, [Advance(pos, dir)] + rest, exhausted, n + 1)
  {
    var p := Advance(pos, dir);
    var path := [p] + rest;
    AdvanceRay(pos, dir, 0);
    forall k | 0 <= k < n + 1
      ensures path[k] == Ray(pos, dir, k + 1)
    {
      if k > 0 {
        AdvanceRay(pos, dir, k);
        assert path[k] == rest[k - 1];
      }
    }
    AdvanceRay(pos, dir, n);
    MirrorSearchStable(ents, ents2, Ray(p, dir, n));
    if n > 0 && MirrorAt(ents2, Ray(p, dir, n)) && fuel > 0 && |rest| > n + 1 {
      ReflectionShift(ents, ents2, p, dir, fuel, rest, n);
    }
  }

  /** The reflected step survives the shift: the mirror found at the hit
      vertex, and so its orientation, is the same in both entity lists. */
  lemma ReflectionShift(ents: seq<Entity>, ents2: seq<Entity>, p: Vec, dir: Vec, fuel: nat, rest: seq<Vec>, n: nat)
    requires Evolves(ents, ents2) && 0 < n && fuel > 0 && |rest| > n + 1
    requires MirrorAt(ents2, rest[n])
    requires rest[n + 1] == Advance(rest[n], Reflect(ents2[FirstMirrorNear(ents2, rest[n]).value].rotation, dir))
    ensures var path := [p] + rest;
            path[n + 2] == Advance(path[n + 1], Reflect(ents[FirstMirrorNear(ents, path[n + 1]).value].rotation, dir))
  {
    var q := rest[n];
    MirrorSearchStable(ents, ents2, q);
    var i := FirstMirrorNear(ents, q).value;
    assert Kept(ents[i], ents2[i]);
  }

  /** The whole beam's first segment, as `WalkSegment` describes it. */
  lemma BeamSegment(m: Grid, ents: seq<Entity>, start: Vec, dir: Vec, fuel: nat)
    requires IsGrid(m)
    ensures var r := Beam(m, ents, start, dir, fuel);
            exists n: nat :: SegmentEnds(m, ents, start, dir, MaxSteps, n)
                          && SegmentRecorded(m, ents, start, dir, fuel, r.path[1..], r.exhausted, n)
  {
    var n := SegmentLength(m, ents, start, dir, MaxSteps, fuel, Walk(m, ents, start, dir, MaxSteps, fuel));
    var r := Beam(m, ents, start, dir, fuel);
    assert r.path[1..] == Walk(m, ents, start, dir, MaxSteps, fuel).path;
  }

  /** Two consecutive vertices one light step apart along an axis. */
  predicate OneStep(a: Vec, b: Vec) {
    (a.y == b.y && Abs(a.x - b.x) == StepLength) || (a.x == b.x && Abs(a.y - b.y) == StepLength)
  }

  /** Each vertex follows the previous one by one axis-aligned light step,
      or repeats it, and a repeat happens only where a mirror is hit. */
  ghost predicate Stepwise(ents: seq<Entity>, path: seq<Vec>) {
    forall k :: 0 <= k < |path| - 1 ==>
      OneStep(path[k], path[k + 1]) || (path[k + 1] == path[k] && MirrorAt(ents, path[k]))
  }

  /** A light step along an axis direction moves forward along that
      direction by exactly one step length. */
  lemma StepIsOneStep(p: Vec, d: Vec)
    requires Cardinal(d)
    ensures OneStep(p, Advance(p, d))
    ensures (Advance(p, d).x - p.x) * d.x + (Advance(p, d).y - p.y) * d.y == StepLength
  {
  }

  /** A beam cast along an axis traces an axis-aligned polyline: consecutive
      vertices are one light step apart, except for the doubled vertex where
      a mirror was hit and the reflected beam restarted. */
  lemma {:induction false} BeamStepwise(m: Grid, ents: seq<Entity>, start: Vec, dir: Vec, fuel: nat, r: Trace)
    requires IsGrid(m) && Cardinal(dir) && r == Beam(m, ents, start, dir, fuel)
    ensures Stepwise(ents, r.path)
    decreases fuel, MaxSteps + 1, 0
  {
    var w := Walk(m, ents, start, dir, MaxSteps, fuel);
    WalkStepwise(m, ents, start, dir, MaxSteps, fuel, w);
    StepIsOneStep(start, dir);
    PrependStepwise(ents, start, dir, w.path, r.path);
  }

  lemma {:induction false} WalkStepwise(m: Grid, ents: seq<Entity>, pos: Vec, dir: Vec, steps: nat, fuel: nat, r: Trace)
    requires IsGrid(m) && Cardinal(dir) && r == Walk(m, ents, pos, dir, steps, fuel)
    ensures Stepwise(ents, r.path)
    ensures |r.path| > 0 ==> r.path[0] == Advance(pos, dir)
    decreases fuel, steps, 1
  {
    if steps > 0 && !Blocked(m, CellOf(Advance(pos, dir))) {
      if MirrorAt(ents, Advance(pos, dir)) {
        if fuel > 0 {
          ReflectedStepwise(m, ents, pos, dir, steps, fuel, r);
        }
      } else {
        OnwardStepwise(m, ents, pos, dir, steps, fuel, r);
      }
    }
  }

  lemma {:induction false} ReflectedStepwise(m: Grid, ents: seq<Entity>, pos: Vec, dir: Vec, steps: nat, fuel: nat, r: Trace)
    requires IsGrid(m) && Cardinal(dir) && steps > 0 && fuel > 0
    requires !Blocked(m, CellOf(Advance(pos, dir))) && MirrorAt(ents, Advance(pos, dir))
    requires r == Walk(m, ents, pos, dir, steps, fuel)
    ensures Stepwise(ents, r.path)
    decreases fuel, steps, 0
  {
    var p := Advance(pos, dir);
    var rot := Reflect(ents[FirstMirrorNear(ents, p).value].rotation, dir);
    ReflectCardinal(ents[FirstMirrorNear(ents, p).value].rotation, dir);
    var b := Beam(m, ents, p, rot, fuel - 1);
    BeamStepwise(m, ents, p, rot, fuel - 1, b);
    WalkReflects(m, ents, pos, dir, steps, fuel);
    assert r.path == [p] + b.path;
    PrependStepwise(ents, p, dir, b.path, r.path);
  }

  lemma {:induction false} OnwardStepwise(m: Grid, ents: seq<Entity>, pos: Vec, dir: Vec, steps: nat, fuel: nat, r: Trace)
    requires IsGrid(m) && Cardinal(dir) && steps > 0
    requires !Blocked(m, CellOf(Advance(pos, dir))) && !MirrorAt(ents, Advance(pos, dir))
    requires r == Walk(m, ents, pos, dir, steps, fuel)
    ensures Stepwise(ents, r.path)
    decreases fuel, steps, 0
  {
    var p := Advance(pos, dir);
    var (ents2, lit) := PortalCheck(m, ents, p);
    var rest := Walk(m, ents2, p, dir, steps - 1, fuel);
    WalkStepwise(m, ents2, p, dir, steps - 1, fuel, rest);
    WalkContinues(m, ents, pos, dir, steps, fuel);
    assert r.path == [p] + rest.path;
    StepwiseStable(ents, ents2, rest.path);
    StepIsOneStep(p, dir);
    PrependStepwise(ents, p, dir, rest.path, r.path);
  }

  /** A vertex `p` put in front of a stepwise path that starts one step
      from it, or at it after a mirror hit there, keeps it stepwise. */
  lemma PrependStepwise(ents: seq<Entity>, p: Vec, dir: Vec, tail: seq<Vec>, path: seq<Vec>)
    requires Stepwise(ents, tail) && path == [p] + tail
    requires |tail| > 0 ==> OneStep(p, tail[0]) || (tail[0] == p && MirrorAt(ents, p))
    ensures Stepwise(ents, path)
  {
    forall k | 0 <= k < |path| - 1
      ensures OneStep(path[k], path[k + 1]) || (path[k + 1] == path[k] && MirrorAt(ents, path[k]))
    {
      if k > 0 {
        assert path[k] == tail[k - 1] && path[k + 1] == tail[k];
      }
    }
  }

  /** Switching portals on does not change where mirrors are hit, so a
      stepwise path stays stepwise. */
  lemma StepwiseStable(ents: seq<Entity>, ents2: seq<Entity>, path: seq<Vec>)
    requires Evolves(ents, ents2) && Stepwise(ents2, path)
    ensures Stepwise(ents, path)
  {
    forall k | 0 <= k < |path| - 1
      ensures OneStep(path[k], path[k + 1]) || (path[k + 1] == path[k] && MirrorAt(ents, path[k]))
    {
      MirrorSearchStable(ents, ents2, path[k]);
    }
  }
}
