# AetherTrace light maze in Dafny

AetherTrace is a small puzzle game. The player walks a 10 x 10 maze that
stays dark except where a beam of light touches it. The beam starts at the
player and heads right. It is bounced by mirrors that the player places and
rotates with a cursor. It switches on the portal at cell (8, 8) when it
reaches it. This project models the game logic of `Game.cpp` and
`Game.hpp`:

- the three entity kinds;
- the maze generator's carve step;
- the light tracer `traceLight`;
- the key commands of `handleEvents`;
- the visibility rule of `render`.

It then proves properties of that model.

Modules, one per file:

- `Geometry` (geometry.dfy): world positions and cells, the cell index
  rounded toward zero as the C++ cast does, the step of the light, and the
  mirror reflection.
- `Entities` (entities.dfy): Player, Mirror and Portal as one datatype,
  `rotate`, the tracer's mirror search, and portal activation.
- `Maze` (maze.dfy): the character grid and one iteration of the
  generator, with a list of dice rolls in place of the random generator.
- `Tracer` (tracer.dfy): `traceLight` as the mutually recursive `Beam` and
  `Walk`, with a fuel bound on reflections.
- `GameState` (game.dfy): the game state, the key commands, one frame's
  trace, and the visible-cell table and drawing of `render`.
- `Scenarios` (scenarios.dfy): two concrete boards. In one, four mirrors
  trap the light forever. In the other, the first frame lights the portal.

World positions are integer offsets from the maze origin (150, 100). Every
position the game computes is a multiple of 10 from that origin, so this is
exact. A cell index is the offset divided by 50 and truncated toward zero.
That makes cell 0 span offsets -49..49, so the beam may wander up to 40
units outside the left or top edge and still count as inside the grid
(`Geometry.CellZeroSpansOrigin`).

Three behaviours of the source are kept as written:

- The generator's loop never ends. The candidate list of a lattice cell is
  never empty, and the generator keeps no visited set, so the branch that
  pops the stack is dead. The constructor and the R key would therefore
  never return. The model proves the loop guard stays true
  (`Maze.GeneratorNeverFinishes`). `NewGame` and `ResetGame` take the
  generated maze as a parameter instead.
- `traceLight` recurses once per mirror hit with no bound. Four mirrors on
  a rectangle make it recurse forever (`Scenarios.RectangleNeverEnds`). The
  model passes `fuel`, the number of reflections still allowed. It marks a
  trace `exhausted` when a hit finds no fuel left. With enough fuel the
  result is the source's (`Tracer.BeamFuelMonotone`).
- On R, the new Player entity is built from the player cell as it was
  before the reset. Only afterwards does the player cell return to (1, 1).
  Until the next successful move, the light starts from where the player
  stood, while the player cell and the lit neighbourhood are at the start
  (`GameState.ResetDesynchronises`).

## Model

| member | source | states |
|---|---|---|
| Geometry.TruncDivBounds | Game.cpp:118-119 | `TruncDiv`, the float-to-int cast of the offset divided by 50, rounds toward zero: the cell index has the offset's sign and the cell's edge lies between zero and the offset, less than one cell from it |
| Geometry.CellOfInGrid | Game.cpp:118-120 | `CellOf` puts a position on the grid exactly when both offsets lie strictly between -50 and 500, so the bounds test of line 120 lets the beam run up to 40 units past the left and top edges |
| Geometry.CellOfWorldOf | Game.cpp:118-119 | converting a cell to its world position (150 + 50 x, 100 + 50 y) and back gives the same cell, for every cell |
| Geometry.CellZeroSpansOrigin | Game.cpp:118-119 | every offset strictly between -50 and 50 falls in cell 0, so cell 0 is twice as wide as the others |
| Geometry.TruncDivDiffersFromFloor | Game.cpp:118-119 | offset -10 is cell 0 under truncation, but would be cell -1 under floor division |
| Geometry.AdvanceRay | Game.cpp:117 | taking k steps of 10 units and then one more is the same as taking k + 1 steps, counted from either end |
| Geometry.ReflectInvolution | Game.cpp:127 | reflecting twice off a mirror of the same orientation restores the direction |
| Geometry.ReflectCardinal | Game.cpp:127 | a reflected axis direction is again an axis direction, at right angles to the incoming one |
| Geometry.ReflectTable | Game.cpp:127 | orientation 0 ("/") sends right to up, left to down, down to left and up to right; orientation 1 ("\") does the mirror image |
| Entities.Rotate | Game.cpp:52 | only a mirror turns: it keeps its position and gets an orientation in {0, 1} that differs from its old one modulo 2; a Player or Portal is unchanged |
| Entities.RotateTwice | Game.cpp:52 | two rotations return a mirror with orientation 0 or 1 to itself |
| Entities.SetPosition | Game.cpp:51 | the entity moves to the given position and keeps its kind, orientation and portal flag |
| Entities.FirstMirrorNear | Game.cpp:122-126 | the index found is that of an active Mirror within 10 units on both axes, no earlier entity passes that test, and nothing is found exactly when no entity passes it |
| Entities.ActivatePortals | Game.cpp:134-139 | the list keeps its length; every Portal within 10 units is switched on and every other entity is unchanged; the flag is set exactly when some Portal was near |
| Entities.FirstAt | Game.cpp:183-189 | the index found is that of an entity standing exactly on the position, no earlier entity does, and nothing is found exactly when no entity stands there |
| Entities.MirrorSearchStable | Game.cpp:122-139 | switching portals on during a trace never changes which mirror the later mirror searches find |
| Maze.SetCell | Game.cpp:104-105 | writing one cell changes that cell and no other |
| Maze.FreshGrid | Game.cpp:90-92 | the generator's starting grid is all walls except 'P' at (1, 1) and 'T' at (8, 8) |
| Maze.Neighbours | Game.cpp:97-101 | there are at most four candidates, each two cells away along one axis; a lattice cell (odd coordinates 1..7) has at least one, and all of them are lattice cells |
| Maze.NeighboursComplete | Game.cpp:97-101 | from a lattice cell, a cell is a candidate if and only if it is a lattice cell two steps away along a row or a column |
| Maze.EveryNeighbourDrawable | Game.cpp:89-103 | for every candidate some roll in 1..8 makes `roll % size` select it, so the carve step can take every direction |
| Maze.CarveStep | Game.cpp:95-106 | one iteration pushes a neighbour of the stack top; the neighbour and the midpoint are interior cells (coordinates 1..7) and are set to path; every other cell is unchanged; the pop branch is never taken |
| Maze.CarveStepKeepsFrame | Game.cpp:90-106 | a carve step never writes to the outer ring of walls, to rows and columns 8 and 9, or over the portal mark |
| Maze.Carve | Game.cpp:95-110 | after any number of iterations the stack has grown by one per iteration and the wall frame is intact |
| Maze.GeneratorNeverFinishes | Game.cpp:94-110 | from the initial state, after every number of iterations the stack is still non-empty, so the loop guard holds and generation never returns; the frame and the 'T' at (8, 8) survive |
| Maze.StartMarkOverwritten | Game.cpp:91-105 | the rolls 2 then 3 carve back into (1, 1) and overwrite the 'P' mark with a path |
| Tracer.PortalCheck | Game.cpp:133-140 | only Portals for which the test passes at this vertex change, and they become active; the game flag is set exactly when some Portal passes the test on a 'T' cell |
| Tracer.Beam | Game.cpp:113-142 | the path starts with the start point; it holds at most 21 × (fuel + 1) points, 21 for each unit of fuel and 21 for the first run; no later point is off the grid or on a wall; entities only ever have portals switched on |
| Tracer.Walk | Game.cpp:116-141 | the loop records at most its remaining steps plus 21 for each unit of fuel; its first point is one step ahead; no recorded point is off the grid or on a wall |
| Tracer.BeamChangesJustified | Game.cpp:129-139 | every entity the trace changes is a Portal for which the portal test passed at some recorded point after the start that hit no mirror (a mirror hit returns before the portal test) |
| Tracer.BeamFlagJustified | Game.cpp:129-139 | the trace sets the game flag only if the portal test passed for some entity at a recorded point after the start that hit no mirror |
| Tracer.BeamLightsReached | Game.cpp:133-139 | conversely, every Portal for which the portal test passes at a recorded point after the start that hit no mirror ends up active, and the flag is set; nothing later switches it off |
| Tracer.BeamPortalEffect | Game.cpp:121-139 | the trace's effect on entities, exactly: an entity becomes an active Portal if and only if the path reached it at a point that hit no mirror, and is otherwise unchanged; the flag is set if and only if some entity was reached |
| Tracer.BeamFuelMonotone | Game.cpp:128 | a trace that did not run out of fuel is unchanged by any larger fuel, so it is the unbounded recursion's complete result |
| Tracer.BeamStraightWithoutMirrors | Game.cpp:116-121 | with no mirror placed, the beam is one straight run of at most 20 steps from its start and never runs out of fuel |
| Tracer.WalkSegment | Game.cpp:116-129 | a segment is a straight run of open cells that stops at a wall or the grid's edge, after its 20 iterations, or at the first step that hits a mirror, and lighting a portal does not end it; after a hit the vertex is recorded twice and the reflected direction follows, or with no fuel the trace is marked cut off |
| Tracer.BeamSegment | Game.cpp:114-129 | the beam after its start point begins with such a segment, cast from the start point |
| Tracer.BeamStepwise | Game.cpp:116-128 | for an axis direction, consecutive points are one 10-unit axis step apart, except for a point repeated where a mirror was hit |
| Tracer.StepIsOneStep | Game.cpp:117 | `Advance`, one light step along an axis direction, moves exactly 10 units along that axis and leaves the other coordinate alone |
| GameState.NewGame | Game.cpp:81-86 | a new game has player and cursor at (1, 1), the portal flag off, and the entities Player at the player cell then an inactive Portal at (8, 8), so the flag agrees with the Portals |
| GameState.MovePlayer | Game.cpp:161-172 | a move changes only the player cell and entity 0: into an on-grid non-wall neighbour it puts both there, otherwise the state is unchanged |
| GameState.MoveCursor | Game.cpp:173-180 | a cursor move changes only the cursor, which steps to the neighbouring cell if that is on the grid and otherwise stays |
| GameState.Place | Game.cpp:181-192 | Space changes only the entity list, adding at most one entity; an added entity is a Mirror of orientation 0 at the cursor, on a non-wall cell where no entity stood |
| GameState.ResetGame | Game.cpp:150-158 | R installs the regenerated maze, clears the flag, puts player and cursor on (1, 1), and rebuilds the entities as a Player at the old player cell and an inactive Portal at (8, 8), so the flag agrees with the Portals |
| GameState.Apply | Game.cpp:150-193 | every command keeps the state well formed; every command but R keeps the maze and the portal flag and never removes an entity |
| GameState.ApplyKeepsActive | Game.cpp:161-192 | no key press other than R turns an active entity inactive: Player and Mirror are built active and a move, a cursor step or Space never clears the flag |
| GameState.ApplyKeepsSynced | Game.cpp:150-192 | every key press, R included, keeps the game flag on exactly when some Portal entity is active |
| GameState.PlayerMoveOutcome | Game.cpp:161-172 | a successful W/S/A/D press moves the player to an orthogonally adjacent cell and keeps entity 0 a Player |
| GameState.MoveOffGridIgnored | Game.cpp:161-172 | a move off the grid's edge leaves the state unchanged |
| GameState.MoveThenBack | Game.cpp:161-172 | from an in-sync state on an open cell, a successful move followed by the opposite move restores the state exactly |
| GameState.CursorMoveOutcome | Game.cpp:173-180 | a cursor move within the grid changes only the cursor, ignores walls, and is undone by the opposite move; a move off the grid changes nothing |
| GameState.PlaceOutcome | Game.cpp:181-192 | Space rotates the first entity standing exactly on the cursor and leaves the rest alone; if none stands there, it appends an orientation-0 Mirror exactly when the cursor cell is not a wall; nothing else changes |
| GameState.PlaceThreeTimes | Game.cpp:181-192 | three presses on an empty open cell give orientation 0, then 1, then 0 on the same single new mirror |
| GameState.PlaceKeepsDistinct | Game.cpp:181-192 | if no two non-Player entities share a position before Space, none do after |
| GameState.ResetDesynchronises | Game.cpp:150-158 | after R the Player entity sits on the player cell if and only if the player was already at (1, 1) |
| GameState.Illuminate | Game.cpp:209 | a frame's trace starts at the Player entity and its first step heads right, changes no maze, cell or cursor, only switches portals on, and never clears the portal flag |
| GameState.IlluminateMonotone | Game.cpp:133-139 | no active entity becomes inactive; an entity becomes an active Portal exactly when the frame's path reached it at a point that hit no mirror; the game flag is on after the frame if and only if it was on before or the path reached some Portal |
| GameState.IlluminateKeepsSynced | Game.cpp:133-139 | a frame's trace keeps the game flag on exactly when some Portal entity is active: it sets the flag whenever it switches a Portal on and never switches one off |
| GameState.ApplyAll | Game.cpp:145-193 | applying all of a frame's pending events in order keeps the state well formed and entity 0 the Player; without R the maze and the flag are unchanged and no entity is removed |
| GameState.ApplyAllKeepsActive | Game.cpp:145-193 | a frame's pending events without R keep every active entity active |
| GameState.ApplyAllKeepsSynced | Game.cpp:145-193 | a frame's pending events keep the game flag on exactly when some Portal entity is active |
| GameState.Run | Game.cpp:145-209 | over any sequence of frames, each applying its pending events and then tracing, the state stays well formed and entity 0 stays the Player; the session is stalled exactly when it drew fewer frames than given, and it stalls at the first frame exactly when that frame's trace ran out of fuel; without R the maze is unchanged, the flag never drops and entities are never removed |
| GameState.RunFuelMonotone | Game.cpp:128 | a session that completed every frame is unchanged by any larger fuel, so it is the session the unbounded recursion gives |
| GameState.RunKeepsSynced | Game.cpp:145-209 | over a whole session the game flag stays on exactly when some Portal entity is active, so from a new game the flag mirrors the Portal's own |
| GameState.MarkLit | Game.cpp:210-217 | the visible table marks a grid cell exactly when some point of the path falls in it under truncation toward zero |
| GameState.DrawCells | Game.cpp:219-232 | each cell is drawn exactly when it is marked visible or within one cell of the player on both axes; walls are gray and other cells dark |
| GameState.Render | Game.cpp:204-232 | a frame draws exactly the cells lit by the path or next to the player cell, gray exactly where such a cell is a wall |
| GameState.DrawingDetermined | Game.cpp:210-232 | two drawings that both show exactly the visible cells are identical, so the picture is determined by maze, path and player cell |
| GameState.LightRevealsNoWalls | Game.cpp:210-221 | a wall cell is only ever shown because it is next to the player or holds the beam's start point, never because the light entered it |
| Scenarios.RectangleNeverEnds | Game.cpp:113-142 | on an open maze with mirrors at the corners of a rectangle through the light's row, the trace runs out of fuel for every fuel, so the source's recursion never returns |
| Scenarios.PortalLitInOneFrame | Game.cpp:133-139 | with the player four cells left of the portal on an open maze, one frame raises the game flag and activates the Portal entity |

## Left out

- Drawing with SFML, the entities' shape colours, the cursor and light-path drawing (Game.cpp:234-245), and `Mirror::update` (lines 42-44). They have no effect on the game state.
- Event polling and window closing (lines 145-149 and 159-160). Escape and the close event are the command `Close`, which leaves the state alone.
- The random generator (lines 89 and 103). Each carve step takes its die roll in 1..8 as an argument.
- Generating a maze to completion. The loop never finishes, so `NewGame` and `ResetGame` take the maze the generator would produce as a parameter. No claim is made about that maze's connectivity.
- Floating point. Every position is a whole multiple of 10 from the origin, so integers model it exactly.
- `Entity.hpp` is not part of this model. Only the members that Game.cpp calls on entities are modelled.
- The loop that calls `handleEvents`, `update` and `render` is not in Game.cpp. `GameState.Run` assumes it runs them once per frame in that order, and that the window stays open: `Close` leaves the state alone instead of ending the session.
- Tracer.Beam: the recursion on mirror hits is bounded by `fuel`; a trace marked `exhausted` is where the source would keep recursing (forever, in `Scenarios.RectangleNeverEnds`).
- GameState.Run: ties a stall to an exhausted trace directly only for the first frame; for a later frame it follows by unfolding `Run` once per completed frame, and no ensures names the game state at that frame.
- Entities.RotateTwice: holds only for orientations 0 and 1. Every mirror the game creates starts at 0, and `rotate` keeps it in {0, 1}.
- GameState.PlaceOutcome: states the toggle as `1 - rotation` only for mirrors with orientation 0 or 1, the only ones the game creates.
