/** The maze grid and its generator (Game.cpp lines 88-111).

    The maze is a 10 x 10 grid of characters indexed `maze[row][column]`,
    that is `maze[y][x]`: 'W' wall, ' ' path, 'P' player start, 'T' portal.

    The generator keeps a stack of lattice cells (both coordinates odd) and,
    at every iteration, carves a path to a random neighbour two cells away and
    pushes it.  It keeps no visited set, and every lattice cell has at least
    one neighbour, so the branch that pops the stack is never taken and the
    loop never ends.  This module therefore models one carve step and a
    bounded number of them, and proves that the stack never empties; it does
    not claim that generation terminates or that the maze is connected.
 */
module Maze {
  import opened Geometry

  type Grid = seq<seq<char>>

  const WallChar: char := 'W'
  const PathChar: char := ' '
  const StartChar: char := 'P'
  const PortalChar: char := 'T'

  /** The player start cell (Game.cpp line 91) and the portal cell (line 92). */
  const StartCell: Cell := Cell(1, 1)
  const PortalCell: Cell := Cell(8, 8)

  predicate IsGrid(m: Grid) {
    |m| == 10 && forall y :: 0 <= y < |m| ==> |m[y]| == 10
  }

  /** `maze[c.y][c.x]`. */
  function At(m: Grid, c: Cell): char
    requires IsGrid(m) && InGrid(c)
  {
    m[c.y][c.x]
  }

  /** The tracer's stopping test (Game.cpp line 120): off the grid, or a wall. */
  predicate Blocked(m: Grid, c: Cell)
    requires IsGrid(m)
  {
    !InGrid(c) || At(m, c) == WallChar
  }

  /** `maze[c.y][c.x] = ch`. */
  function SetCell(m: Grid, c: Cell, ch: char): (r: Grid)
    requires IsGrid(m) && InGrid(c)
    ensures IsGrid(r)
    ensures At(r, c) == ch
    ensures forall d :: InGrid(d) && d != c ==> At(r, d) == At(m, d)
  {
    m[c.y := m[c.y][c.x := ch]]
  }

  /** The grid as the generator starts it: all walls, then the start and
      portal marks (Game.cpp lines 90-92). */
  function FreshGrid(): (m: Grid)
    ensures IsGrid(m)
    ensures forall c :: InGrid(c) ==>
              At(m, c) == (if c == StartCell then StartChar else if c == PortalCell then PortalChar else WallChar)
  {
    seq(10, y =>
      seq(10, x =>
        if Cell(x, y) == StartCell then StartChar
        else if Cell(x, y) == PortalCell then PortalChar
        else WallChar))
  }

  /** The cells the generator's stack can hold: both coordinates in {1, 3, 5, 7}. */
  predicate OnLattice(c: Cell) {
    1 <= c.x <= 7 && c.x % 2 == 1 && 1 <= c.y <= 7 && c.y % 2 == 1
  }

  /** Both coordinates in 1..7: strictly inside the outer wall ring, and
      clear of rows and columns 8 and 9. */
  predicate Interior(c: Cell) {
    1 <= c.x <= 7 && 1 <= c.y <= 7
  }

  /** The candidate list of Game.cpp lines 97-101, in the source's order. */
  function Neighbours(c: Cell): (ns: seq<Cell>)
    ensures |ns| <= 4
    ensures OnLattice(c) ==> |ns| > 0
    ensures forall i :: 0 <= i < |ns| ==> OnLattice(c) ==> OnLattice(ns[i])
    ensures forall i :: 0 <= i < |ns| ==>
              (ns[i].y == c.y && Abs(ns[i].x - c.x) == 2) || (ns[i].x == c.x && Abs(ns[i].y - c.y) == 2)
  {
    (if c.x > 2 then [Cell(c.x - 2, c.y)] else []) +
    (if c.x < 7 then [Cell(c.x + 2, c.y)] else []) +
    (if c.y > 2 then [Cell(c.x, c.y - 2)] else []) +
    (if c.y < 7 then [Cell(c.x, c.y + 2)] else [])
  }

  /** From a lattice cell the candidate list holds exactly the lattice
      cells two steps away along a row or a column: the bounds tests of
      lines 97-101 drop precisely the candidates that would leave 1..7. */
  lemma NeighboursComplete(c: Cell)
    requires OnLattice(c)
    ensures forall d :: d in Neighbours(c) <==>
              OnLattice(d) && ((d.y == c.y && Abs(d.x - c.x) == 2) || (d.x == c.x && Abs(d.y - c.y) == 2))
  {
  }

  /** The cell between two cells two apart (Game.cpp line 105). */
  function Midpoint(a: Cell, b: Cell): Cell {
    Cell((b.x + a.x) / 2, (b.y + a.y) / 2)
  }

  /** The generator's state: the grid being carved and the cell stack. */
  datatype Carver = Carver(maze: Grid, stack: seq<Cell>)

  predicate CarverOk(s: Carver) {
    IsGrid(s.maze) && forall i :: 0 <= i < |s.stack| ==> OnLattice(s.stack[i])
  }

  /** The state on entry to the loop (Game.cpp lines 90-94). */
  function InitialCarver(): (s: Carver)
    ensures CarverOk(s) && |s.stack| == 1
  {
    Carver(FreshGrid(), [StartCell])
  }

  /** Outer ring, rows and columns 8 and 9 are wall except the portal cell. */
  ghost predicate FrameIntact(m: Grid)
    requires IsGrid(m)
  {
    forall c :: InGrid(c) && !Interior(c) ==>
      At(m, c) == (if c == PortalCell then PortalChar else WallChar)
  }

  /** One iteration of the loop of Game.cpp lines 95-110.  `roll` is the
      value drawn from the uniform distribution over 1..8 (line 89); the
      neighbour taken is `roll % |neighbours|` (line 103). */
  function CarveStep(s: Carver, roll: int): (r: Carver)
    requires CarverOk(s) && |s.stack| > 0
    requires 1 <= roll <= 8
    ensures CarverOk(r)
    ensures |r.stack| == |s.stack| + 1 && r.stack[..|s.stack|] == s.stack
    ensures var top, next := s.stack[|s.stack| - 1], r.stack[|s.stack|];
            && next in Neighbours(top)
            && Interior(next) && Interior(Midpoint(top, next))
            && forall c :: InGrid(c) ==>
                 At(r.maze, c) == (if c == next || c == Midpoint(top, next) then PathChar else At(s.maze, c))
  {
    var top := s.stack[|s.stack| - 1];
    var ns := Neighbours(top);
    if |ns| > 0 then
      var next := ns[roll % |ns|];
      var mid := Midpoint(top, next);
      var m1 := SetCell(s.maze, next, PathChar);
      Carver(SetCell(m1, mid, PathChar), s.stack + [next])
    else
      // `stack.pop_back()` (line 108): a lattice cell always has a neighbour
      assert false; s
  }

  /** Every candidate can be drawn: for each neighbour of the top cell some
      roll in 1..8 selects it, so no direction is unreachable. */
  lemma EveryNeighbourDrawable(s: Carver, d: Cell)
    requires CarverOk(s) && |s.stack| > 0
    requires d in Neighbours(s.stack[|s.stack| - 1])
    ensures exists roll :: 1 <= roll <= 8 && CarveStep(s, roll).stack[|s.stack|] == d
  {
    var ns := Neighbours(s.stack[|s.stack| - 1]);
    var i :| 0 <= i < |ns| && ns[i] == d;
    var roll := |ns| + i;
    PickIndex(|ns|, i);
    CarveStepPicks(s, roll, i);
  }

  /** The roll |ns| + i selects candidate i. */
  lemma PickIndex(n: nat, i: nat)
    requires 0 <= i < n <= 4
    ensures (n + i) % n == i
  {
  }

  /** The cell a carve step pushes is the candidate the roll selects. */
  lemma CarveStepPicks(s: Carver, roll: int, i: nat)
    requires CarverOk(s) && |s.stack| > 0 && 1 <= roll <= 8
    requires i < |Neighbours(s.stack[|s.stack| - 1])|
    requires roll % |Neighbours(s.stack[|s.stack| - 1])| == i
    ensures CarveStep(s, roll).stack[|s.stack|] == Neighbours(s.stack[|s.stack| - 1])[i]
  {
  }

  /** A carve step never touches the frame: every carved cell is interior. */
  lemma CarveStepKeepsFrame(s: Carver, roll: int)
    requires CarverOk(s) && |s.stack| > 0 && 1 <= roll <= 8
    ensures FrameIntact(s.maze) ==> FrameIntact(CarveStep(s, roll).maze)
  {
  }

  /** `rolls.Length` iterations of the generator loop; since the stack
      never empties, the loop guard holds before each one. */
  function Carve(s: Carver, rolls: seq<int>): (r: Carver)
    requires CarverOk(s) && |s.stack| > 0
    requires forall i :: 0 <= i < |rolls| ==> 1 <= rolls[i] <= 8
    ensures CarverOk(r)
    ensures |r.stack| == |s.stack| + |rolls|
    ensures FrameIntact(s.maze) ==> FrameIntact(r.maze)
    decreases |rolls|
  {
    if |rolls| == 0 then s
    else
      var s1 := CarveStep(s, rolls[0]);
      CarveStepKeepsFrame(s, rolls[0]);
      Carve(s1, rolls[1..])
  }

  /** The generator's loop guard `!stack.empty()` is true after any number
      of iterations from the initial state, so the loop does not terminate,
      and the frame of walls with the portal mark survives every iteration. */
  lemma {:induction false} GeneratorNeverFinishes(rolls: seq<int>)
    requires forall i :: 0 <= i < |rolls| ==> 1 <= rolls[i] <= 8
    ensures |Carve(InitialCarver(), rolls).stack| > 0
    ensures FrameIntact(Carve(InitialCarver(), rolls).maze)
    ensures At(Carve(InitialCarver(), rolls).maze, PortalCell) == PortalChar
  {
    assert FrameIntact(InitialCarver().maze);
  }

  /** The start mark can be carved over: from (1, 1) go right to (3, 1)
      (roll 2 of 2 neighbours), then back to (1, 1) (roll 3 of 3), which
      writes a path character over the 'P'. */
  lemma StartMarkOverwritten()
    ensures At(Carve(InitialCarver(), [2, 3]).maze, StartCell) == PathChar
  {
    var s0 := InitialCarver();
    assert Neighbours(StartCell) == [Cell(3, 1), Cell(1, 3)];
    var s1 := CarveStep(s0, 2);
    assert s1.stack == [StartCell, Cell(3, 1)];
    assert Neighbours(Cell(3, 1)) == [Cell(1, 1), Cell(5, 1), Cell(3, 3)];
    var s2 := CarveStep(s1, 3);
    assert s2.stack[2] == StartCell;
    assert Carve(s1, [3]) == Carve(s2, []);
    assert [2, 3][1..] == [3];
  }
}
