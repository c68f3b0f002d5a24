/** The game objects of Game.cpp lines 4-79 as one tagged datatype.

    The source has three subclasses of an `Entity` interface and tells them
    apart with `dynamic_cast`; here the variant tag does that.  Player and
    Mirror keep an `active` flag that is set to true on construction and never
    changed, so it is not stored; `IsActive` reports it.
 */
module Entities {
  import opened Geometry

  datatype Option<T> = None | Some(value: T)

  datatype Entity =
    | Player(pos: Vec)
    | Mirror(pos: Vec, rotation: nat)  // 0: "/" at 45 degrees, 1: "\" at 135 degrees
    | Portal(pos: Vec, active: bool)

  /** `isActive()` of each subclass (Game.cpp lines 24, 53, 77). */
  function IsActive(e: Entity): (b: bool) {
    match e
    case Player(_) => true
    case Mirror(_, _) => true
    case Portal(_, active) => active
  }

  /** `rotate()` of each subclass: only a mirror turns, cycling its
      orientation modulo 2 (Game.cpp lines 23, 52, 76). */
  function Rotate(e: Entity): (r: Entity)
    ensures r.pos == e.pos
    ensures r.Mirror? <==> e.Mirror?
    ensures e.Mirror? ==> r.rotation < 2 && r.rotation != e.rotation % 2
    ensures !e.Mirror? ==> r == e
  {
    match e
    case Mirror(p, rot) => Mirror(p, (rot + 1) % 2)
    case _ => e
  }

  /** A mirror in a valid orientation returns to it after two rotations. */
  lemma RotateTwice(e: Entity)
    requires e.Mirror? ==> e.rotation < 2
    ensures Rotate(Rotate(e)) == e
  {
  }

  /** `setPosition()`: moves the entity and changes nothing else (Game.cpp
      lines 22, 51, 75). */
  function SetPosition(e: Entity, p: Vec): (r: Entity)
    ensures r.pos == p
    ensures r.Player? == e.Player? && r.Mirror? == e.Mirror? && r.Portal? == e.Portal?
    ensures r.Mirror? ==> r.rotation == e.rotation
    ensures r.Portal? ==> r.active == e.active
  {
    match e
    case Player(_) => Player(p)
    case Mirror(_, rot) => Mirror(p, rot)
    case Portal(_, a) => Portal(p, a)
  }

  /** The tracer's mirror test: an active Mirror within 10 units of `p` on
      both axes (Game.cpp lines 123-125). */
  predicate MirrorNear(e: Entity, p: Vec) {
    e.Mirror? && IsActive(e) && Near(p, e.pos)
  }

  /** The index of the first entity, in insertion order, that passes the
      mirror test at `p` (the loop of Game.cpp lines 122-132 stops at it). */
  function FirstMirrorNear(ents: seq<Entity>, p: Vec): (r: Option<nat>)
    ensures r.Some? ==> r.value < |ents| && MirrorNear(ents[r.value], p)
    ensures r.Some? ==> forall j :: 0 <= j < r.value ==> !MirrorNear(ents[j], p)
    ensures r.None? <==> forall j :: 0 <= j < |ents| ==> !MirrorNear(ents[j], p)
  {
    FindMirrorFrom(ents, p, 0)
  }

  function FindMirrorFrom(ents: seq<Entity>, p: Vec, from: nat): (r: Option<nat>)
    requires from <= |ents|
    ensures r.Some? ==> from <= r.value < |ents| && MirrorNear(ents[r.value], p)
    ensures r.Some? ==> forall j :: from <= j < r.value ==> !MirrorNear(ents[j], p)
    ensures r.None? <==> forall j :: from <= j < |ents| ==> !MirrorNear(ents[j], p)
    decreases |ents| - from
  {
    if from == |ents| then None
    else if MirrorNear(ents[from], p) then Some(from)
    else FindMirrorFrom(ents, p, from + 1)
  }

  /** The portal test at `p`: a Portal within 10 units on both axes
      (Game.cpp line 135; the portal's own `active` flag is not consulted). */
  predicate PortalNear(e: Entity, p: Vec) {
    e.Portal? && Near(p, e.pos)
  }

  /** `setActive(true)` on every Portal near `p`, in one pass over the
      entities (Game.cpp lines 134-139); the flag tells whether any was found,
      that is, whether `isPortalActive` gets set. */
  function ActivatePortals(ents: seq<Entity>, p: Vec): (r: (seq<Entity>, bool))
    ensures |r.0| == |ents|
    ensures forall i :: 0 <= i < |ents| ==>
              r.0[i] == (if PortalNear(ents[i], p) then Portal(ents[i].pos, true) else ents[i])
    ensures r.1 <==> exists i :: 0 <= i < |ents| && PortalNear(ents[i], p)
  {
    if |ents| == 0 then ([], false)
    else
      var rest := ActivatePortals(ents[1..], p);
      var head := if PortalNear(ents[0], p) then Portal(ents[0].pos, true) else ents[0];
      assert forall i :: 1 <= i < |ents| ==> ents[i] == ents[1..][i - 1];
      ([head] + rest.0, PortalNear(ents[0], p) || rest.1)
  }

  /** `e2` is what `e` may become while light is traced: either unchanged or,
      for a Portal, switched on. */
  predicate Kept(e: Entity, e2: Entity) {
    e2 == e || (e.Portal? && e2 == Portal(e.pos, true))
  }

  /** The tracer's only effect on the entity list: same length, and every
      entity kept in the sense of `Kept`. */
  predicate Evolves(ents: seq<Entity>, ents2: seq<Entity>) {
    |ents2| == |ents| && forall i :: 0 <= i < |ents| ==> Kept(ents[i], ents2[i])
  }

  lemma EvolvesTransitive(a: seq<Entity>, b: seq<Entity>, c: seq<Entity>)
    requires Evolves(a, b) && Evolves(b, c)
    ensures Evolves(a, c)
  {
  }

  /** Switching portals on never changes what the mirror search finds. */
  lemma MirrorSearchStable(a: seq<Entity>, b: seq<Entity>, p: Vec)
    requires Evolves(a, b)
    ensures FirstMirrorNear(a, p) == FirstMirrorNear(b, p)
  {
    FindMirrorStable(a, b, p, 0);
  }

  lemma {:induction false} FindMirrorStable(a: seq<Entity>, b: seq<Entity>, p: Vec, from: nat)
    requires Evolves(a, b) && from <= |a|
    ensures FindMirrorFrom(a, p, from) == FindMirrorFrom(b, p, from)
    decreases |a| - from
  {
    if from < |a| {
      assert Kept(a[from], b[from]);
      FindMirrorStable(a, b, p, from + 1);
    }
  }

  /** The index of the first entity, in insertion order, whose position is
      exactly `w` (the loop of Game.cpp lines 183-189 stops at it). */
  function FirstAt(ents: seq<Entity>, w: Vec): (r: Option<nat>)
    ensures r.Some? ==> r.value < |ents| && ents[r.value].pos == w
    ensures r.Some? ==> forall j :: 0 <= j < r.value ==> ents[j].pos != w
    ensures r.None? <==> forall j :: 0 <= j < |ents| ==> ents[j].pos != w
  {
    FindAtFrom(ents, w, 0)
  }

  function FindAtFrom(ents: seq<Entity>, w: Vec, from: nat): (r: Option<nat>)
    requires from <= |ents|
    ensures r.Some? ==> from <= r.value < |ents| && ents[r.value].pos == w
    ensures r.Some? ==> forall j :: from <= j < r.value ==> ents[j].pos != w
    ensures r.None? <==> forall j :: from <= j < |ents| ==> ents[j].pos != w
    decreases |ents| - from
  {
    if from == |ents| then None
    else if ents[from].pos == w then Some(from)
    else FindAtFrom(ents, w, from + 1)
  }
}
