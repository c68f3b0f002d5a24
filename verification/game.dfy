/** The game state and its command transitions (Game.hpp lines 12-17,
    Game.cpp lines 81-86 and 150-193), and the per-frame light trace
    (Game.cpp line 209).

    Key presses arrive as `Command`s: W/S/A/D move the player, the arrow keys
    move the placement cursor, Space places or rotates a mirror at the
    cursor, R resets, Escape (or closing the window) leaves the state alone.
 */
module GameState {
  import opened Geometry
  import opened Entities
  import opened Maze
  import opened Tracer

  /** The fields of `Game` that the simulation uses.  `entities[0]` is the
      Player entity; `playerPos` and `cursorPos` are cells. */
  datatype Game = Game(
    maze: Grid,
    entities: seq<Entity>,
    playerPos: Cell,
    cursorPos: Cell,
    portalActive: bool)

  predicate Valid(g: Game) {
    IsGrid(g.maze) && InGrid(g.playerPos) && InGrid(g.cursorPos) && |g.entities| > 0
  }

  /** The Portal entity the game builds, inactive, at the portal cell. */
  function FreshPortal(): Entity {
    Portal(WorldOf(PortalCell), false)
  }

  /** The constructor (Game.cpp lines 81-86), given the maze the generator
      produced. */
  function NewGame(maze: Grid): (g: Game)
    requires IsGrid(maze)
    ensures Valid(g) && g.maze == maze && !g.portalActive
    ensures g.playerPos == StartCell && g.cursorPos == StartCell
    ensures g.entities == [Player(WorldOf(g.playerPos)), FreshPortal()]
    ensures PortalSynced(g)
  {
    Game(maze, [Player(WorldOf(StartCell)), FreshPortal()], StartCell, StartCell, false)
  }

  datatype Command =
    | MoveUp | MoveDown | MoveLeft | MoveRight              // W, S, A, D
    | CursorUp | CursorDown | CursorLeft | CursorRight      // arrow keys
    | PlaceOrRotate                                         // Space
    | Reset(regenerated: Grid)                              // R, with the regenerated maze
    | Close                                                 // Escape or window closed

  /** The cell one step away in a direction. */
  function Neighbour(c: Cell, d: Vec): Cell {
    Cell(c.x + d.x, c.y + d.y)
  }

  /** A cell the player may enter: on the grid and not a wall. */
  predicate Enterable(g: Game, c: Cell)
    requires Valid(g)
  {
    InGrid(c) && At(g.maze, c) != WallChar
  }

  /** W/S/A/D (Game.cpp lines 161-172): step the player one cell if the
      target is on the grid and not a wall, moving the entity at index 0 to
      the matching world position; otherwise do nothing. */
  function MovePlayer(g: Game, d: Vec): (r: Game)
    requires Valid(g)
    ensures Valid(r)
    ensures r.maze == g.maze && r.cursorPos == g.cursorPos && r.portalActive == g.portalActive
    ensures |r.entities| == |g.entities| && forall i :: 1 <= i < |g.entities| ==> r.entities[i] == g.entities[i]
    ensures var t := Neighbour(g.playerPos, d);
            && (Enterable(g, t) ==> r.playerPos == t && r.entities[0].pos == WorldOf(t))
            && (!Enterable(g, t) ==> r == g)
  {
    var t := Neighbour(g.playerPos, d);
    if Enterable(g, t) then
      g.(playerPos := t, entities := g.entities[0 := SetPosition(g.entities[0], WorldOf(t))])
    else g
  }

  /** Arrow keys (Game.cpp lines 173-180): step the cursor one cell while it
      stays on the grid; walls do not matter. */
  function MoveCursor(g: Game, d: Vec): (r: Game)
    requires Valid(g)
    ensures Valid(r)
    ensures r.(cursorPos := g.cursorPos) == g
    ensures r.cursorPos == (if InGrid(Neighbour(g.cursorPos, d)) then Neighbour(g.cursorPos, d) else g.cursorPos)
  {
    var t := Neighbour(g.cursorPos, d);
    if InGrid(t) then g.(cursorPos := t) else g
  }

  /** Space (Game.cpp lines 181-192): rotate the first entity standing
      exactly on the cursor's world position; if there is none and the
      cursor cell is not a wall, append a new Mirror there. */
  function Place(g: Game): (r: Game)
    requires Valid(g)
    ensures Valid(r)
    ensures r.(entities := g.entities) == g
    ensures |g.entities| <= |r.entities| <= |g.entities| + 1
    ensures |r.entities| > |g.entities| ==>
              && r.entities == g.entities + [Mirror(WorldOf(g.cursorPos), 0)]
              && At(g.maze, g.cursorPos) != WallChar
              && forall i :: 0 <= i < |g.entities| ==> g.entities[i].pos != WorldOf(g.cursorPos)
  {
    var w := WorldOf(g.cursorPos);
    match FirstAt(g.entities, w)
    case Some(i) => g.(entities := g.entities[i := Rotate(g.entities[i])])
    case None =>
      if At(g.maze, g.cursorPos) != WallChar then g.(entities := g.entities + [Mirror(w, 0)])
      else g
  }

  /** R (Game.cpp lines 150-158).  The new Player entity is built from the
      player cell as it was BEFORE the reset; only afterwards does
      `playerPos` return to the start cell. */
  function ResetGame(g: Game, regenerated: Grid): (r: Game)
    requires IsGrid(regenerated)
    ensures Valid(r)
    ensures r.maze == regenerated && !r.portalActive
    ensures r.playerPos == StartCell && r.cursorPos == StartCell
    ensures r.entities == [Player(WorldOf(g.playerPos)), FreshPortal()]
    ensures PortalSynced(r)
  {
    Game(regenerated, [Player(WorldOf(g.playerPos)), FreshPortal()], StartCell, StartCell, false)
  }

  /** One key press. */
  function Apply(g: Game, cmd: Command): (r: Game)
    requires Valid(g)
    requires cmd.Reset? ==> IsGrid(cmd.regenerated)
    ensures Valid(r)
    ensures !cmd.Reset? ==> r.maze == g.maze && r.portalActive == g.portalActive
    ensures !cmd.Reset? ==> |r.entities| >= |g.entities|
  {
    match cmd
    case MoveUp => MovePlayer(g, MoveDirection(cmd))
    case MoveDown => MovePlayer(g, MoveDirection(cmd))
    case MoveLeft => MovePlayer(g, MoveDirection(cmd))
    case MoveRight => MovePlayer(g, MoveDirection(cmd))
    case CursorUp => MoveCursor(g, MoveDirection(cmd))
    case CursorDown => MoveCursor(g, MoveDirection(cmd))
    case CursorLeft => MoveCursor(g, MoveDirection(cmd))
    case CursorRight => MoveCursor(g, MoveDirection(cmd))
    case PlaceOrRotate => Place(g)
    case Reset(regenerated) => ResetGame(g, regenerated)
    case Close => g
  }

  predicate IsMove(cmd: Command) {
    cmd.MoveUp? || cmd.MoveDown? || cmd.MoveLeft? || cmd.MoveRight?
  }

  predicate IsCursorMove(cmd: Command) {
    cmd.CursorUp? || cmd.CursorDown? || cmd.CursorLeft? || cmd.CursorRight?
  }

  /** The direction of a move or cursor command; y grows downward. */
  function MoveDirection(cmd: Command): (d: Vec)
    requires IsMove(cmd) || IsCursorMove(cmd)
  {
    match cmd
    case MoveUp => Vec(0, -1)
    case CursorUp => Vec(0, -1)
    case MoveDown => Vec(0, 1)
    case CursorDown => Vec(0, 1)
    case MoveLeft => Vec(-1, 0)
    case CursorLeft => Vec(-1, 0)
    case MoveRight => Vec(1, 0)
    case CursorRight => Vec(1, 0)
  }

  /** What `MovePlayer`'s contract leaves implicit for a key press: a
      successful move lands on one of the eight surrounding cells (in fact
      an orthogonal one) and keeps the Player entity a Player. */
  lemma PlayerMoveOutcome(g: Game, cmd: Command)
    requires Valid(g) && IsMove(cmd)
    ensures var r := Apply(g, cmd);
            Enterable(g, Neighbour(g.playerPos, MoveDirection(cmd))) ==>
              && Chebyshev(r.playerPos, g.playerPos) == 1
              && (r.playerPos.x == g.playerPos.x || r.playerPos.y == g.playerPos.y)
              && r.entities[0].Player? == g.entities[0].Player?
  {
  }

  /** Only R clears activation: Player and Mirror are built active
      (Game.cpp lines 11, 35), and no other key turns an active entity
      inactive — a move only repositions the Player, Space only rotates a
      Mirror or appends a new one. */
  lemma ApplyKeepsActive(g: Game, cmd: Command)
    requires Valid(g) && !cmd.Reset?
    ensures var r := Apply(g, cmd);
            forall i :: 0 <= i < |g.entities| && IsActive(g.entities[i]) ==> IsActive(r.entities[i])
  {
  }

  /** The same for all the events of a frame that contains no R. */
  lemma {:induction false} ApplyAllKeepsActive(g: Game, cmds: seq<Command>)
    requires Valid(g) && ResetsWellFormed(cmds) && NoReset(cmds)
    ensures var r := ApplyAll(g, cmds);
            forall i :: 0 <= i < |g.entities| && IsActive(g.entities[i]) ==> IsActive(r.entities[i])
    decreases |cmds|
  {
    if |cmds| > 0 {
      var g1 := Apply(g, cmds[0]);
      ApplyKeepsActive(g, cmds[0]);
      assert ResetsWellFormed(cmds[1..]) && NoReset(cmds[1..]) by {
        forall i | 0 <= i < |cmds[1..]|
          ensures cmds[1..][i] == cmds[i + 1]
        {
        }
      }
      ApplyAllKeepsActive(g1, cmds[1..]);
    }
  }

  /** At the edge of the grid a move further out is ignored. */
  lemma MoveOffGridIgnored(g: Game, cmd: Command)
    requires Valid(g) && IsMove(cmd)
    requires !InGrid(Neighbour(g.playerPos, MoveDirection(cmd)))
    ensures Apply(g, cmd) == g
  {
  }

  /** The opposite command of a move or cursor move. */
  function Opposite(cmd: Command): (o: Command)
    requires IsMove(cmd) || IsCursorMove(cmd)
    ensures IsMove(o) || IsCursorMove(o)
    ensures MoveDirection(o) == Vec(-MoveDirection(cmd).x, -MoveDirection(cmd).y)
    ensures IsMove(o) == IsMove(cmd)
  {
    match cmd
    case MoveUp => MoveDown
    case MoveDown => MoveUp
    case MoveLeft => MoveRight
    case MoveRight => MoveLeft
    case CursorUp => CursorDown
    case CursorDown => CursorUp
    case CursorLeft => CursorRight
    case CursorRight => CursorLeft
  }

  /** The Player entity sits on the player cell. */
  predicate InSync(g: Game)
    requires Valid(g)
  {
    g.entities[0] == Player(WorldOf(g.playerPos))
  }

  /** A successful move undone by the opposite move restores the whole
      state, provided the player stood on an enterable cell and its entity
      was in sync with its cell. */
  lemma MoveThenBack(g: Game, cmd: Command)
    requires Valid(g) && IsMove(cmd) && InSync(g)
    requires Enterable(g, g.playerPos)
    requires Enterable(g, Neighbour(g.playerPos, MoveDirection(cmd)))
    ensures Apply(Apply(g, cmd), Opposite(cmd)) == g
  {
    var r := Apply(g, cmd);
    assert r.entities == g.entities[0 := Player(WorldOf(r.playerPos))];
    assert Neighbour(r.playerPos, MoveDirection(Opposite(cmd))) == g.playerPos;
  }

  /** A cursor move within the grid undone by the opposite one restores
      the state; a cursor move off the grid changes nothing; and a cursor
      move never looks at walls. */
  lemma CursorMoveOutcome(g: Game, cmd: Command)
    requires Valid(g)
    requires IsCursorMove(cmd)
    ensures var t := Neighbour(g.cursorPos, MoveDirection(cmd));
            && (InGrid(t) ==> Apply(g, cmd) == g.(cursorPos := t))
            && (InGrid(t) ==> Apply(Apply(g, cmd), Opposite(cmd)) == g)
            && (!InGrid(t) ==> Apply(g, cmd) == g)
  {
    var t := Neighbour(g.cursorPos, MoveDirection(cmd));
    assert Neighbour(t, MoveDirection(Opposite(cmd))) == g.cursorPos;
  }

  /** Space at the cursor: if some entity stands exactly at the cursor's
      world position, the first such one is rotated (a Mirror toggles
      between 0 and 1, a Player or Portal stays as it is) and the list keeps
      its length; otherwise a Mirror with orientation 0 is appended exactly
      when the cursor cell is not a wall.  The maze never changes. */
  lemma PlaceOutcome(g: Game)
    requires Valid(g)
    requires forall i :: 0 <= i < |g.entities| && g.entities[i].Mirror? ==> g.entities[i].rotation < 2
    ensures var r := Apply(g, PlaceOrRotate);
            var w := WorldOf(g.cursorPos);
            && r.maze == g.maze && r.playerPos == g.playerPos && r.cursorPos == g.cursorPos
            && r.portalActive == g.portalActive
            && ((exists i :: 0 <= i < |g.entities| && g.entities[i].pos == w) ==>
                  && |r.entities| == |g.entities|
                  && var i := FirstAt(g.entities, w).value;
                     && (forall j :: 0 <= j < |g.entities| && j != i ==> r.entities[j] == g.entities[j])
                     && (g.entities[i].Mirror? ==> r.entities[i] == Mirror(w, 1 - g.entities[i].rotation))
                     && (!g.entities[i].Mirror? ==> r.entities[i] == g.entities[i]))
            && ((forall i :: 0 <= i < |g.entities| ==> g.entities[i].pos != w) ==>
                  if At(g.maze, g.cursorPos) != WallChar then r.entities == g.entities + [Mirror(w, 0)]
                  else r.entities == g.entities)
  {
  }

  /** Pressing Space three times on an empty open cell places a mirror with
      orientation 0, turns it to 1, and back to 0, without ever adding a
      second entity. */
  lemma PlaceThreeTimes(g: Game)
    requires Valid(g)
    requires forall i :: 0 <= i < |g.entities| ==> g.entities[i].pos != WorldOf(g.cursorPos)
    requires At(g.maze, g.cursorPos) != WallChar
    ensures var g1 := Apply(g, PlaceOrRotate);
            var g2 := Apply(g1, PlaceOrRotate);
            var g3 := Apply(g2, PlaceOrRotate);
            var w := WorldOf(g.cursorPos);
            && g1.entities == g.entities + [Mirror(w, 0)]
            && g2.entities == g.entities + [Mirror(w, 1)]
            && g3.entities == g.entities + [Mirror(w, 0)]
  {
    var w := WorldOf(g.cursorPos);
    var n := |g.entities|;
    var g1 := Apply(g, PlaceOrRotate);
    assert g1.entities[n].pos == w;
    assert forall j :: 0 <= j < n ==> g1.entities[j] == g.entities[j];
    assert FirstAt(g1.entities, w) == Some(n);
    var g2 := Apply(g1, PlaceOrRotate);
    assert g2.entities == g.entities + [Mirror(w, 1)];
    assert g2.entities[n].pos == w;
    assert forall j :: 0 <= j < n ==> g2.entities[j] == g.entities[j];
    assert FirstAt(g2.entities, w) == Some(n);
  }

  /** No two entities after the Player share a position. */
  predicate Distinct(ents: seq<Entity>) {
    forall i, j :: 1 <= i < j < |ents| ==> ents[i].pos != ents[j].pos
  }

  /** Placing or rotating never stacks two non-Player entities on one
      position: a mirror is only appended where nothing stands. */
  lemma PlaceKeepsDistinct(g: Game)
    requires Valid(g) && Distinct(g.entities)
    ensures Distinct(Apply(g, PlaceOrRotate).entities)
  {
    var w := WorldOf(g.cursorPos);
    var r := Apply(g, PlaceOrRotate);
    forall i, j | 1 <= i < j < |r.entities|
      ensures r.entities[i].pos != r.entities[j].pos
    {
      if j == |g.entities| {
        assert r.entities[j].pos == w;
      }
    }
  }

  /** The reset quirk: unless the player was already on the start cell, the
      Player entity (where the light starts) and the player cell disagree
      after R, until the next successful move. */
  lemma ResetDesynchronises(g: Game, regenerated: Grid)
    requires Valid(g) && IsGrid(regenerated)
    ensures InSync(Apply(g, Reset(regenerated))) <==> g.playerPos == StartCell
  {
    var r := Apply(g, Reset(regenerated));
    if g.playerPos != StartCell {
      CellOfWorldOf(g.playerPos);
      CellOfWorldOf(StartCell);
    }
  }

  /** The trace of one frame (Game.cpp line 209): a beam from the Player
      entity's position heading right; its portal side effects are written
      back into the game. */
  datatype Frame = Frame(game: Game, path: seq<Vec>, exhausted: bool)

  function Illuminate(g: Game, fuel: nat): (f: Frame)
    requires Valid(g)
    ensures Valid(f.game)
    ensures |f.path| >= 1 && f.path[0] == g.entities[0].pos
    ensures f.game.maze == g.maze && f.game.playerPos == g.playerPos && f.game.cursorPos == g.cursorPos
    ensures Evolves(g.entities, f.game.entities)
    ensures g.portalActive ==> f.game.portalActive
    ensures |f.path| > 1 ==> f.path[1] == Advance(f.path[0], Right)
  {
    var t := Beam(g.maze, g.entities, g.entities[0].pos, Right, fuel);
    Frame(g.(entities := t.entities, portalActive := g.portalActive || t.lit), t.path, t.exhausted)
  }

  /** Portal activation is monotone, and a frame's effect on portals is
      exactly what its path reached: no active entity becomes inactive; an
      entity becomes an active Portal if the path reached it at a vertex that
      hit no mirror and is otherwise untouched; and the game flag is on after
      the frame if and only if it was on before or the path reached some
      Portal. */
  lemma IlluminateMonotone(g: Game, fuel: nat)
    requires Valid(g)
    ensures var f := Illuminate(g, fuel);
            && (forall i :: 0 <= i < |g.entities| && IsActive(g.entities[i]) ==> IsActive(f.game.entities[i]))
            && (forall i :: 0 <= i < |g.entities| ==>
                  f.game.entities[i] == (if Reached(g.maze, g.entities, f.path, i) then Portal(g.entities[i].pos, true) else g.entities[i]))
            && (f.game.portalActive <==>
                  g.portalActive || exists i :: 0 <= i < |g.entities| && Reached(g.maze, g.entities, f.path, i))
  {
    BeamPortalEffect(g.maze, g.entities, g.entities[0].pos, Right, fuel);
    var f := Illuminate(g, fuel);
    forall i | 0 <= i < |g.entities| && IsActive(g.entities[i])
      ensures IsActive(f.game.entities[i])
    {
      assert Kept(g.entities[i], f.game.entities[i]);
    }
  }

  /** The game's portal flag agrees with the Portal entities: it is on
      exactly when some Portal has been switched on.  The tracer sets both
      together (Game.cpp lines 136-137) and R clears both together (lines
      155 and 158). */
  predicate PortalSynced(g: Game) {
    g.portalActive <==> exists i :: 0 <= i < |g.entities| && g.entities[i].Portal? && g.entities[i].active
  }

  /** Every key press keeps the flag in step with the Portals: moves and
      the cursor touch neither, Space only rotates (which leaves a Portal as
      it is) or appends a Mirror, and R starts again from an unlit Portal
      with the flag off. */
  lemma ApplyKeepsSynced(g: Game, cmd: Command)
    requires Valid(g) && PortalSynced(g)
    requires cmd.Reset? ==> IsGrid(cmd.regenerated)
    ensures PortalSynced(Apply(g, cmd))
  {
    var r := Apply(g, cmd);
    if !cmd.Reset? {
      assert |r.entities| >= |g.entities|;
      forall i | 0 <= i < |g.entities|
        ensures (r.entities[i].Portal? && r.entities[i].active) <==> (g.entities[i].Portal? && g.entities[i].active)
      {
      }
      forall i | |g.entities| <= i < |r.entities|
        ensures !r.entities[i].Portal?
      {
      }
    }
  }

  /** A frame's trace keeps the flag in step with the Portals: a Portal it
      switches on also turns the flag on, and it never switches one off. */
  lemma IlluminateKeepsSynced(g: Game, fuel: nat)
    requires Valid(g) && PortalSynced(g)
    ensures PortalSynced(Illuminate(g, fuel).game)
  {
    IlluminateMonotone(g, fuel);
    var f := Illuminate(g, fuel);
    var ents := f.game.entities;
    if f.game.portalActive {
      if g.portalActive {
        var i :| 0 <= i < |g.entities| && g.entities[i].Portal? && g.entities[i].active;
        assert IsActive(g.entities[i]);
        assert ents[i].Portal? && ents[i].active;
      } else {
        var i :| 0 <= i < |g.entities| && Reached(g.maze, g.entities, f.path, i);
        assert ents[i].Portal? && ents[i].active;
      }
    } else {
      forall i | 0 <= i < |ents|
        ensures !(ents[i].Portal? && ents[i].active)
      {
        assert !Reached(g.maze, g.entities, f.path, i);
      }
    }
  }

  /** Every Reset in a command sequence carries a well-formed maze. */
  predicate ResetsWellFormed(cmds: seq<Command>) {
    forall i :: 0 <= i < |cmds| && cmds[i].Reset? ==> IsGrid(cmds[i].regenerated)
  }

  predicate NoReset(cmds: seq<Command>) {
    forall i :: 0 <= i < |cmds| ==> !cmds[i].Reset?
  }

  /** The entity the light starts from is the Player. */
  predicate PlayerFirst(g: Game)
    requires Valid(g)
  {
    g.entities[0].Player?
  }

  /** The events pending at one frame, applied in order (`handleEvents`,
      Game.cpp lines 145-193: the loop of line 146 drains the whole queue). */
  function ApplyAll(g: Game, cmds: seq<Command>): (r: Game)
    requires Valid(g) && ResetsWellFormed(cmds)
    ensures Valid(r)
    ensures PlayerFirst(g) ==> PlayerFirst(r)
    ensures NoReset(cmds) ==> r.maze == g.maze && r.portalActive == g.portalActive
    ensures NoReset(cmds) ==> |r.entities| >= |g.entities|
    decreases |cmds|
  {
    if |cmds| == 0 then g
    else
      var g1 := Apply(g, cmds[0]);
      assert ResetsWellFormed(cmds[1..]) by {
        forall i | 0 <= i < |cmds[1..]| && cmds[1..][i].Reset?
          ensures IsGrid(cmds[1..][i].regenerated)
        {
          assert cmds[1..][i] == cmds[i + 1];
        }
      }
      assert NoReset(cmds) ==> NoReset(cmds[1..]) by {
        if NoReset(cmds) {
          forall i | 0 <= i < |cmds[1..]|
            ensures !cmds[1..][i].Reset?
          {
            assert cmds[1..][i] == cmds[i + 1];
          }
        }
      }
      ApplyAll(g1, cmds[1..])
  }

  /** Every frame's events carry well-formed regenerated mazes. */
  predicate FramesWellFormed(frames: seq<seq<Command>>) {
    forall i :: 0 <= i < |frames| ==> ResetsWellFormed(frames[i])
  }

  predicate NoResetInFrames(frames: seq<seq<Command>>) {
    forall i :: 0 <= i < |frames| ==> NoReset(frames[i])
  }

  /** Where a session ends: the state, how many frames completed their
      trace, and whether it stopped at a frame whose trace ran out of fuel. */
  datatype Session = Session(game: Game, drawn: nat, stalled: bool)

  /** A session of frames: each frame applies its pending events, then
      traces the light (`render`, line 209).  The loop that calls them lives
      outside Game.cpp; `update` (lines 198-202) only animates mirrors and
      is not modelled.  A frame whose trace exhausts its fuel stands for a
      trace the C++ recursion never finishes, so the session stops there. */
  function Run(g: Game, frames: seq<seq<Command>>, fuel: nat): (r: Session)
    requires Valid(g) && FramesWellFormed(frames)
    ensures Valid(r.game)
    ensures r.drawn <= |frames|
    ensures !r.stalled <==> r.drawn == |frames|
    ensures |frames| > 0 ==> ((r.stalled && r.drawn == 0) <==> Illuminate(ApplyAll(g, frames[0]), fuel).exhausted)
    ensures PlayerFirst(g) ==> PlayerFirst(r.game)
    ensures NoResetInFrames(frames) ==> r.game.maze == g.maze
    ensures NoResetInFrames(frames) && g.portalActive ==> r.game.portalActive
    ensures NoResetInFrames(frames) ==> |r.game.entities| >= |g.entities|
    decreases |frames|
  {
    if |frames| == 0 then Session(g, 0, false)
    else
      var g1 := ApplyAll(g, frames[0]);
      var f := Illuminate(g1, fuel);
      assert Kept(g1.entities[0], f.game.entities[0]);
      if f.exhausted then Session(f.game, 0, true)
      else
        assert FramesWellFormed(frames[1..]) by {
          forall i | 0 <= i < |frames[1..]|
            ensures ResetsWellFormed(frames[1..][i])
          {
            assert frames[1..][i] == frames[i + 1];
          }
        }
        assert NoResetInFrames(frames) ==> NoResetInFrames(frames[1..]) by {
          if NoResetInFrames(frames) {
            forall i | 0 <= i < |frames[1..]|
              ensures NoReset(frames[1..][i])
            {
              assert frames[1..][i] == frames[i + 1];
            }
          }
        }
        var rest := Run(f.game, frames[1..], fuel);
        Session(rest.game, rest.drawn + 1, rest.stalled)
  }

  /** The flag stays in step with the Portals over a whole frame's events. */
  lemma {:induction false} ApplyAllKeepsSynced(g: Game, cmds: seq<Command>)
    requires Valid(g) && ResetsWellFormed(cmds) && PortalSynced(g)
    ensures PortalSynced(ApplyAll(g, cmds))
    decreases |cmds|
  {
    if |cmds| > 0 {
      ApplyKeepsSynced(g, cmds[0]);
      assert ResetsWellFormed(cmds[1..]) by {
        forall i | 0 <= i < |cmds[1..]|
          ensures cmds[1..][i] == cmds[i + 1]
        {
        }
      }
      ApplyAllKeepsSynced(Apply(g, cmds[0]), cmds[1..]);
    }
  }

  /** ... and over a whole session, so a game started by `NewGame` always
      shows the flag on exactly when a Portal has been lit. */
  lemma {:induction false} RunKeepsSynced(g: Game, frames: seq<seq<Command>>, fuel: nat)
    requires Valid(g) && FramesWellFormed(frames) && PortalSynced(g)
    ensures PortalSynced(Run(g, frames, fuel).game)
    decreases |frames|
  {
    if |frames| > 0 {
      var g1 := ApplyAll(g, frames[0]);
      ApplyAllKeepsSynced(g, frames[0]);
      IlluminateKeepsSynced(g1, fuel);
      var f := Illuminate(g1, fuel);
      if !f.exhausted {
        assert FramesWellFormed(frames[1..]) by {
          forall i | 0 <= i < |frames[1..]|
            ensures frames[1..][i] == frames[i + 1]
          {
          }
        }
        RunKeepsSynced(f.game, frames[1..], fuel);
      }
    }
  }

  /** A session that ran every frame to completion is the source's
      session: more fuel changes neither the state nor the frame count. */
  lemma {:induction false} RunFuelMonotone(g: Game, frames: seq<seq<Command>>, fuel: nat, more: nat)
    requires Valid(g) && FramesWellFormed(frames) && fuel <= more
    requires !Run(g, frames, fuel).stalled
    ensures Run(g, frames, more) == Run(g, frames, fuel)
    decreases |frames|
  {
    if |frames| > 0 {
      var g1 := ApplyAll(g, frames[0]);
      BeamFuelMonotone(g1.maze, g1.entities, g1.entities[0].pos, Right, fuel, more);
      var f := Illuminate(g1, fuel);
      assert Illuminate(g1, more) == f;
      assert FramesWellFormed(frames[1..]) by {
        forall i | 0 <= i < |frames[1..]|
          ensures frames[1..][i] == frames[i + 1]
        {
        }
      }
      RunFuelMonotone(f.game, frames[1..], fuel, more);
    }
  }

  /** A cell some vertex of the light path falls into (Game.cpp lines
      210-216: the cell index is truncated toward zero). */
  predicate Lit(path: seq<Vec>, c: Cell) {
    exists k :: 0 <= k < |path| && CellOf(path[k]) == c
  }

  /** The visibility rule of Game.cpp line 221: a grid cell is drawn when
      the light touched it or it is within one cell of the player cell on
      both axes. */
  predicate Shown(path: seq<Vec>, player: Cell, c: Cell) {
    InGrid(c) && (Lit(path, c) || (Abs(c.x - player.x) <= 1 && Abs(c.y - player.y) <= 1))
  }

  /** What a drawn cell looks like: hidden, a wall (gray), or open (dark). */
  datatype Tile = Hidden | WallTile | FloorTile

  /** A 10 x 10 table of rows. */
  predicate IsTable<T>(t: seq<seq<T>>) {
    |t| == 10 && forall y :: 0 <= y < 10 ==> |t[y]| == 10
  }

  /** The `visible` table of Game.cpp lines 210-217: one pass over the path
      marks the grid cell of every vertex that falls on the grid. */
  method MarkLit(path: seq<Vec>) returns (visible: seq<seq<bool>>)
    ensures IsTable(visible)
    ensures forall y, x :: 0 <= y < 10 && 0 <= x < 10 ==> (visible[y][x] <==> Lit(path, Cell(x, y)))
  {
    visible := seq(10, _ => seq(10, _ => false));
    var i := 0;
    while i < |path|
      invariant 0 <= i <= |path|
      invariant IsTable(visible)
      invariant forall y, x :: 0 <= y < 10 && 0 <= x < 10 ==>
                  (visible[y][x] <==> exists k :: 0 <= k < i && CellOf(path[k]) == Cell(x, y))
    {
      var c := CellOf(path[i]);
      if InGrid(c) {
        visible := visible[c.y := visible[c.y][c.x := true]];
      }
      i := i + 1;
    }
  }

  /** The cell loop of Game.cpp lines 219-232: each shown cell is drawn gray
      if it is a wall and dark otherwise; the rest stay hidden. */
  method DrawCells(maze: Grid, visible: seq<seq<bool>>, player: Cell) returns (tiles: seq<seq<Tile>>)
    requires IsGrid(maze) && IsTable(visible)
    ensures IsTable(tiles)
    ensures forall y, x :: 0 <= y < 10 && 0 <= x < 10 ==>
              tiles[y][x] == (if visible[y][x] || (Abs(x - player.x) <= 1 && Abs(y - player.y) <= 1)
                              then (if maze[y][x] == WallChar then WallTile else FloorTile)
                              else Hidden)
  {
    tiles := [];
    var y := 0;
    while y < 10
      invariant 0 <= y <= 10 && |tiles| == y
      invariant forall j :: 0 <= j < y ==> |tiles[j]| == 10
      invariant forall j, x :: 0 <= j < y && 0 <= x < 10 ==>
                  tiles[j][x] == (if visible[j][x] || (Abs(x - player.x) <= 1 && Abs(j - player.y) <= 1)
                                  then (if maze[j][x] == WallChar then WallTile else FloorTile)
                                  else Hidden)
    {
      var row: seq<Tile> := [];
      var x := 0;
      while x < 10
        invariant 0 <= x <= 10 && |row| == x
        invariant forall i :: 0 <= i < x ==>
                    row[i] == (if visible[y][i] || (Abs(i - player.x) <= 1 && Abs(y - player.y) <= 1)
                               then (if maze[y][i] == WallChar then WallTile else FloorTile)
                               else Hidden)
      {
        var tile := Hidden;
        if visible[y][x] || (Abs(x - player.x) <= 1 && Abs(y - player.y) <= 1) {
          tile := if maze[y][x] == WallChar then WallTile else FloorTile;
        }
        row := row + [tile];
        x := x + 1;
      }
      tiles := tiles + [row];
      y := y + 1;
    }
  }

  /** `tiles` is a drawing of the maze in which exactly the shown cells
      appear, walls gray and open cells dark. */
  predicate DrawnAs(tiles: seq<seq<Tile>>, maze: Grid, path: seq<Vec>, player: Cell)
    requires IsGrid(maze)
  {
    && IsTable(tiles)
    && forall y, x :: 0 <= y < 10 && 0 <= x < 10 ==>
         && (tiles[y][x] != Hidden <==> Shown(path, player, Cell(x, y)))
         && (tiles[y][x] == WallTile <==> Shown(path, player, Cell(x, y)) && At(maze, Cell(x, y)) == WallChar)
  }

  /** One frame of `render()` (Game.cpp lines 204-232): trace the light from
      the Player entity, which may switch portals on, then draw exactly the
      shown cells, walls in gray and open cells dark. */
  method Render(g: Game, fuel: nat) returns (f: Frame, tiles: seq<seq<Tile>>)
    requires Valid(g)
    ensures f == Illuminate(g, fuel)
    ensures DrawnAs(tiles, g.maze, f.path, g.playerPos)
  {
    f := Illuminate(g, fuel);
    var visible := MarkLit(f.path);
    tiles := DrawCells(g.maze, visible, g.playerPos);
  }

  /** The picture depends only on the maze, the path and the player cell:
      two drawings that both show exactly the visible cells are equal, so
      recomputing a frame from the same path and position gives the same
      picture. */
  lemma DrawingDetermined(t1: seq<seq<Tile>>, t2: seq<seq<Tile>>, maze: Grid, path: seq<Vec>, player: Cell)
    requires IsGrid(maze)
    requires DrawnAs(t1, maze, path, player) && DrawnAs(t2, maze, path, player)
    ensures t1 == t2
  {
    forall y | 0 <= y < 10
      ensures t1[y] == t2[y]
    {
      forall x | 0 <= x < 10
        ensures t1[y][x] == t2[y][x]
      {
        assert t1[y][x] != Hidden <==> t2[y][x] != Hidden;
        assert t1[y][x] == WallTile <==> t2[y][x] == WallTile;
      }
    }
  }

  /** The light alone never reveals a wall other than where the beam starts:
      every shown wall cell lies in the player's neighbourhood or holds the
      Player entity's position. */
  lemma LightRevealsNoWalls(g: Game, fuel: nat, c: Cell)
    requires Valid(g) && InGrid(c)
    ensures var f := Illuminate(g, fuel);
            Shown(f.path, g.playerPos, c) && At(g.maze, c) == WallChar ==>
              (Abs(c.x - g.playerPos.x) <= 1 && Abs(c.y - g.playerPos.y) <= 1) || CellOf(g.entities[0].pos) == c
  {
    var f := Illuminate(g, fuel);
    if Shown(f.path, g.playerPos, c) && At(g.maze, c) == WallChar && !(Abs(c.x - g.playerPos.x) <= 1 && Abs(c.y - g.playerPos.y) <= 1) {
      var k :| 0 <= k < |f.path| && CellOf(f.path[k]) == c;
      assert k == 0;
    }
  }
}
