/** Two concrete boards and what the tracer does on them.

    On a maze with no wall inside the grid and no portal mark, four mirrors
    at the corners of a rectangle send the light around forever: the
    recursive `traceLight` of Game.cpp lines 113-142 never returns, which in
    the model means every amount of fuel runs out.

    On a maze whose only mark is the portal at (8, 8), a player standing
    four cells to its left lights the portal with the first frame: the 20th
    and last step of the beam lands exactly on the portal's position.
 */
module Scenarios {
  import opened Geometry
  import opened Entities
  import opened Maze
  import opened Tracer
  import opened GameState

  /** A maze with no wall and no portal mark on the grid. */
  function OpenMaze(): (m: Grid)
    ensures IsGrid(m)
    ensures forall c :: InGrid(c) ==> At(m, c) == PathChar
  {
    seq(10, _ => seq(10, _ => ' '))
  }

  /** Every grid cell is open path. */
  ghost predicate Open(m: Grid) {
    IsGrid(m) && forall c :: InGrid(c) ==> At(m, c) == PathChar
  }

  /** A vertex the tracer passes straight through: on an open cell that is
      not the portal mark, with no mirror near. */
  ghost predicate Clear(m: Grid, ents: seq<Entity>, p: Vec)
    requires IsGrid(m)
  {
    !Blocked(m, CellOf(p)) && At(m, CellOf(p)) != PortalChar && FirstMirrorNear(ents, p).None?
  }

  /** Two traces agree on everything but the recorded vertices. */
  predicate SameOutcome(r: Trace, r2: Trace) {
    r.entities == r2.entities && r.lit == r2.lit && r.exhausted == r2.exhausted
  }

  /** A clear step changes nothing the rest of the walk depends on. */
  lemma StepClear(m: Grid, ents: seq<Entity>, pos: Vec, dir: Vec, steps: nat, fuel: nat, next: Vec, left: nat)
    requires IsGrid(m)
    requires next == Advance(pos, dir) && steps == left + 1
    requires Clear(m, ents, next)
    ensures SameOutcome(Walk(m, ents, pos, dir, steps, fuel), Walk(m, ents, next, dir, left, fuel))
  {
    assert PortalCheck(m, ents, next) == (ents, false);
    WalkContinues(m, ents, pos, dir, steps, fuel);
  }

  /** A straight run of `n` clear steps defers the outcome to the position
      `q` it reaches, with `left` loop iterations to go. */
  lemma {:induction false} Coast(m: Grid, ents: seq<Entity>, pos: Vec, dir: Vec, steps: nat, fuel: nat, n: nat, q: Vec, left: nat)
    requires IsGrid(m)
    requires q == Ray(pos, dir, n) && steps == left + n
    requires forall k :: 1 <= k <= n ==> Clear(m, ents, Ray(pos, dir, k))
    ensures SameOutcome(Walk(m, ents, pos, dir, steps, fuel), Walk(m, ents, q, dir, left, fuel))
    decreases n
  {
    if n > 0 {
      var n1: nat := n - 1;
      var q1, l1 := Ray(pos, dir, n1), left + 1;
      Coast(m, ents, pos, dir, steps, fuel, n1, q1, l1);
      StepClear(m, ents, q1, dir, l1, fuel, q, left);
    } else {
      assert q == pos && left == steps;
    }
  }

  /** The five entities of the board: the Player at cell (3, 2) and mirrors
      at the corners (2, 2), (5, 2), (5, 5), (2, 5) of a 3 x 3 rectangle,
      oriented so that each turns the light toward the next corner. */
  function Board(): seq<Entity> {
    [Player(Vec(150, 100)),
     Mirror(Vec(100, 100), 0), Mirror(Vec(250, 100), 1),
     Mirror(Vec(250, 250), 0), Mirror(Vec(100, 250), 1)]
  }

  /** Corner i of the rectangle (i = 0 .. 3, clockwise from the top left)
      and the heading of the light that leaves it. */
  function Corner(i: nat): Vec {
    if i == 0 then Vec(100, 100)
    else if i == 1 then Vec(250, 100)
    else if i == 2 then Vec(250, 250)
    else Vec(100, 250)
  }

  function Heading(i: nat): Vec {
    if i == 0 then Vec(1, 0)
    else if i == 1 then Vec(0, 1)
    else if i == 2 then Vec(-1, 0)
    else Vec(0, -1)
  }

  function Next(i: nat): nat {
    if i >= 3 then 0 else i + 1
  }

  /** A point on an edge of the rectangle at least 10 units from both of
      that edge's corners. */
  predicate OnEdge(p: Vec) {
    || (110 <= p.x <= 240 && (p.y == 100 || p.y == 250))
    || (110 <= p.y <= 240 && (p.x == 100 || p.x == 250))
  }

  /** The mirror at corner Next(i) turns heading i into heading Next(i). */
  ghost predicate TurnsAt(b: seq<Entity>, i: nat) {
    && FirstMirrorNear(b, Corner(Next(i))).Some?
    && Reflect(b[FirstMirrorNear(b, Corner(Next(i))).value].rotation, Heading(i)) == Heading(Next(i))
  }

  /** An entity list that behaves like `Board()` for the tracer: no mirror
      near the edges, and a turning mirror at each corner. */
  ghost predicate Rectangle(b: seq<Entity>) {
    ClearEdges(b) && forall i :: 0 <= i < 4 ==> TurnsAt(b, i)
  }

  /** No mirror is near any point of the edges between the corners. */
  ghost predicate ClearEdges(b: seq<Entity>) {
    forall p :: OnEdge(p) ==> FirstMirrorNear(b, p).None?
  }

  lemma NoMirrorBetween(p: Vec)
    requires OnEdge(p)
    ensures FirstMirrorNear(Board(), p).None?
  {
    var b := Board();
    assert !MirrorNear(b[0], p) && !MirrorNear(b[1], p) && !MirrorNear(b[2], p);
    assert !MirrorNear(b[3], p) && !MirrorNear(b[4], p);
  }

  /** Each corner mirror of the board turns the light the right way. */
  lemma BoardTurns(i: nat)
    requires i < 4
    ensures TurnsAt(Board(), i)
  {
    var b := Board();
    if i == 0 {
      assert FirstMirrorNear(b, Vec(250, 100)) == Some(2);
    } else if i == 1 {
      assert FirstMirrorNear(b, Vec(250, 250)) == Some(3);
    } else if i == 2 {
      assert FirstMirrorNear(b, Vec(100, 250)) == Some(4);
    } else {
      assert FirstMirrorNear(b, Vec(100, 100)) == Some(1);
    }
  }

  /** The open maze and the board have the shape the loop needs; the
      Player, standing on an edge, is no mirror. */
  lemma BoardIsRectangle()
    ensures Open(OpenMaze()) && Rectangle(Board())
  {
    forall p | OnEdge(p)
      ensures FirstMirrorNear(Board(), p).None?
    {
      NoMirrorBetween(p);
    }
    forall i | 0 <= i < 4
      ensures TurnsAt(Board(), i)
    {
      BoardTurns(i);
    }
  }

  /** The point `t` units from `p` along heading i. */
  function Along(p: Vec, i: nat, t: int): Vec {
    if i == 0 then Vec(p.x + t, p.y)
    else if i == 1 then Vec(p.x, p.y + t)
    else if i == 2 then Vec(p.x - t, p.y)
    else Vec(p.x, p.y - t)
  }

  /** k light steps along heading i cover 10 k units. */
  lemma {:induction false} RayAlong(p: Vec, i: nat, k: nat)
    ensures Ray(p, Heading(i), k) == Along(p, i, 10 * k)
  {
    if k > 0 {
      RayAlong(p, i, k - 1);
    }
  }

  /** A position inside the rectangle's bounding box lies on an open cell. */
  lemma InBox(m: Grid, p: Vec)
    requires Open(m)
    requires 100 <= p.x <= 250 && 100 <= p.y <= 250
    ensures !Blocked(m, CellOf(p))
  {
    TruncDivBounds(p.x);
    TruncDivBounds(p.y);
  }

  /** From a point on the edge leaving along heading i, `n` clear steps and
      then one more step reach corner Next(i). */
  lemma AlongEdge(m: Grid, b: seq<Entity>, i: nat, start: Vec, n: nat)
    requires Open(m) && ClearEdges(b) && i < 4
    requires Along(start, i, 10 * (n + 1)) == Corner(Next(i))
    requires forall k :: 1 <= k <= n ==> OnEdge(Along(start, i, 10 * k))
    ensures forall k :: 1 <= k <= n ==> Clear(m, b, Ray(start, Heading(i), k))
    ensures Advance(Ray(start, Heading(i), n), Heading(i)) == Corner(Next(i))
  {
    forall k | 1 <= k <= n
      ensures Clear(m, b, Ray(start, Heading(i), k))
    {
      RayAlong(start, i, k);
      InBox(m, Ray(start, Heading(i), k));
    }
    AdvanceRay(start, Heading(i), n);
    RayAlong(start, i, n + 1);
  }

  /** The step onto the next corner's mirror: with no fuel left the trace
      is cut off there, otherwise it goes on as the beam reflected from it. */
  lemma CornerHit(m: Grid, b: seq<Entity>, i: nat, pos: Vec, steps: nat, fuel: nat)
    requires Open(m) && TurnsAt(b, i) && i < 4
    requires steps > 0 && Advance(pos, Heading(i)) == Corner(Next(i))
    ensures Walk(m, b, pos, Heading(i), steps, fuel).exhausted
         == (fuel == 0 || Beam(m, b, Corner(Next(i)), Heading(Next(i)), fuel - 1).exhausted)
  {
    InBox(m, Corner(Next(i)));
    if fuel > 0 {
      WalkReflects(m, b, pos, Heading(i), steps, fuel);
    }
  }

  /** The Walk of a beam leaving `start` along heading i that meets corner
      Next(i) after n + 1 steps. */
  lemma EdgeToCorner(m: Grid, b: seq<Entity>, i: nat, start: Vec, n: nat, fuel: nat)
    requires Open(m) && Rectangle(b) && i < 4 && n < 20
    requires Along(start, i, 10 * (n + 1)) == Corner(Next(i))
    requires forall k :: 1 <= k <= n ==> OnEdge(Along(start, i, 10 * k))
    ensures Beam(m, b, start, Heading(i), fuel).exhausted
         == (fuel == 0 || Beam(m, b, Corner(Next(i)), Heading(Next(i)), fuel - 1).exhausted)
  {
    AlongEdge(m, b, i, start, n);
    assert TurnsAt(b, i);
    var q, left: nat := Ray(start, Heading(i), n), 20 - n;
    Coast(m, b, start, Heading(i), 20, fuel, n, q, left);
    CornerHit(m, b, i, q, left, fuel);
  }

  /** The light leaving a corner is cut off by a lack of fuel whatever the
      fuel: each reflection costs one unit and leads to the next corner. */
  lemma {:induction false} CornerLoops(m: Grid, b: seq<Entity>, i: nat, fuel: nat)
    requires Open(m) && Rectangle(b) && i < 4
    ensures Beam(m, b, Corner(i), Heading(i), fuel).exhausted
    decreases fuel
  {
    EdgeToCorner(m, b, i, Corner(i), 14, fuel);
    if fuel > 0 {
      CornerLoops(m, b, Next(i), fuel - 1);
    }
  }

  /** The game's beam, from the Player at (150, 100) heading right, reaches
      corner (5, 2) after 10 steps and from then on circles the rectangle:
      with any fuel the trace ends cut off, so the unbounded recursion of
      the source would never return. */
  lemma RectangleNeverEnds(fuel: nat)
    ensures Beam(OpenMaze(), Board(), Board()[0].pos, Right, fuel).exhausted
  {
    BoardIsRectangle();
    LoopFromEdge(OpenMaze(), Board(), Board()[0].pos, fuel);
    assert Right == Heading(0);
  }

  lemma LoopFromEdge(m: Grid, b: seq<Entity>, start: Vec, fuel: nat)
    requires Open(m) && Rectangle(b) && start == Vec(150, 100)
    ensures Beam(m, b, start, Heading(0), fuel).exhausted
  {
    EdgeToCorner(m, b, 0, start, 9, fuel);
    if fuel > 0 {
      CornerLoops(m, b, 1, fuel - 1);
    }
  }

  /** An open maze whose only mark is the portal cell. */
  ghost predicate PortalOnly(m: Grid) {
    && IsGrid(m) && At(m, PortalCell) == PortalChar
    && forall c :: InGrid(c) && c != PortalCell ==> At(m, c) == PathChar
  }

  function PortalMaze(): (m: Grid)
    ensures PortalOnly(m)
  {
    SetCell(OpenMaze(), PortalCell, PortalChar)
  }

  /** Row 8 left of the portal cell is open and, without mirrors, clear. */
  lemma RowClear(m: Grid, ents: seq<Entity>, p: Vec)
    requires PortalOnly(m) && NoMirrors(ents)
    requires 200 <= p.x < 400 && p.y == 400
    ensures Clear(m, ents, p)
  {
    TruncDivBounds(p.x);
    assert CellOf(p).x <= 7;
  }

  /** The 19 steps from (4, 8) toward the portal cross open cells only. */
  lemma TowardPortal(m: Grid, ents: seq<Entity>, start: Vec)
    requires PortalOnly(m) && NoMirrors(ents) && start == Vec(200, 400)
    ensures forall k :: 1 <= k <= 19 ==> Clear(m, ents, Ray(start, Heading(0), k))
  {
    forall k | 1 <= k <= 19
      ensures Clear(m, ents, Ray(start, Heading(0), k))
    {
      RayAlong(start, 0, k);
      RowClear(m, ents, Ray(start, Heading(0), k));
    }
  }

  /** ... and the 20th lands on the portal's position. */
  lemma TwentiethStep(start: Vec, i: nat, n: nat)
    requires start == Vec(200, 400) && i == 0 && n == 19
    ensures Advance(Ray(start, Heading(i), n), Heading(i)) == Vec(400, 400)
  {
    AdvanceRay(start, Heading(i), n);
    RayAlong(start, i, n + 1);
  }

  /** The last step lands on the portal: the portal check switches it on
      and reports it, and the loop is then over. */
  lemma OntoPortal(m: Grid, ents: seq<Entity>, q: Vec, fuel: nat)
    requires PortalOnly(m) && NoMirrors(ents) && Advance(q, Heading(0)) == Vec(400, 400)
    requires |ents| == 2 && ents[1] == Portal(Vec(400, 400), false)
    ensures var r := Walk(m, ents, q, Heading(0), 1, fuel);
            r.lit && r.entities[1] == Portal(Vec(400, 400), true)
  {
    var p := Vec(400, 400);
    assert CellOf(p) == PortalCell;
    assert FirstMirrorNear(ents, p).None?;
    assert PortalNear(ents[1], p);
    WalkContinues(m, ents, q, Heading(0), 1, fuel);
  }

  lemma ReachPortal(m: Grid, ents: seq<Entity>, start: Vec, fuel: nat)
    requires PortalOnly(m) && NoMirrors(ents) && start == Vec(200, 400)
    requires |ents| == 2 && ents[1] == Portal(Vec(400, 400), false)
    ensures Beam(m, ents, start, Heading(0), fuel).lit
    ensures Beam(m, ents, start, Heading(0), fuel).entities[1] == Portal(Vec(400, 400), true)
  {
    TowardPortal(m, ents, start);
    TwentiethStep(start, 0, 19);
    var q, left: nat := Ray(start, Heading(0), 19), 1;
    Coast(m, ents, start, Heading(0), 20, fuel, 19, q, left);
    OntoPortal(m, ents, q, fuel);
  }

  /** The game with the player at (4, 8) on the portal-only maze. */
  function PortalGame(): (g: Game)
    ensures Valid(g)
  {
    Game(PortalMaze(), [Player(WorldOf(Cell(4, 8))), FreshPortal()], Cell(4, 8), StartCell, false)
  }

  /** One frame lights the portal: the game flag goes up and the Portal
      entity is switched on. */
  lemma PortalLitInOneFrame(fuel: nat)
    ensures Illuminate(PortalGame(), fuel).game.portalActive
    ensures IsActive(Illuminate(PortalGame(), fuel).game.entities[1])
  {
    var g := PortalGame();
    assert Right == Heading(0);
    ReachPortal(g.maze, g.entities, g.entities[0].pos, fuel);
  }
}
