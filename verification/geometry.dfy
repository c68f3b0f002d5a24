/** Grid geometry of the light maze.

    The game draws a 10 x 10 maze whose cell (x, y) has its top-left corner at
    world position (150 + 50 x, 100 + 50 y).  Every world position that the
    game ever computes is an exact multiple of 10 away from that origin, so a
    position is modelled here as an integer offset from (150, 100); this is
    exact, not an approximation of the floats.
 */
module Geometry {

  // A cell edge is 50 world units and the light advances 10 units per
  // step.  The bodies of `CellOf`, `WorldOf` and `Advance` write the same
  // numbers out as literals so that the solver sees linear arithmetic.
  const CellSize: int := 50
  const StepLength: int := 10

  /** A world position, as an offset from the maze origin, or a direction. */
  datatype Vec = Vec(x: int, y: int)

  /** A grid coordinate: column x, row y. */
  datatype Cell = Cell(x: int, y: int)

  function Abs(a: int): (r: nat)
    ensures r == a || r == -a
  {
    if a < 0 then -a else a
  }

  /** Integer division that rounds toward zero, as the C++ conversion of a
      float quotient to `int` does.  Dafny's own `/` rounds toward negative
      infinity for a negative dividend, which would map offset -10 to cell
      -1. */
  function TruncDiv(a: int, b: int): (q: int)
    requires b > 0
  {
    if a >= 0 then a / b else -((-a) / b)
  }

  /** The truncated cell index has the offset's sign, and the cell's edge
      lies between zero and the offset, less than a cell away from it. */
  lemma TruncDivBounds(a: int)
    ensures var q := TruncDiv(a, CellSize);
            && (0 <= a ==> 0 <= q && q * CellSize <= a < (q + 1) * CellSize)
            && (a < 0 ==> q <= 0 && (q - 1) * CellSize < a <= q * CellSize)
  {
  }

  /** The cell a world position falls into (Game.cpp lines 118-119 and
      212-213). */
  function CellOf(v: Vec): (c: Cell) {
    Cell(TruncDiv(v.x, 50), TruncDiv(v.y, 50))
  }

  /** Because of the truncation a position is on the grid exactly when both
      offsets lie strictly between -50 and 500. */
  lemma CellOfInGrid(v: Vec)
    ensures InGrid(CellOf(v)) <==> -50 < v.x < 500 && -50 < v.y < 500
  {
    TruncDivBounds(v.x);
    TruncDivBounds(v.y);
  }

  /** The world position of a cell's top-left corner (the `150 + 50 x`,
      `100 + 50 y` expressions throughout Game.cpp). */
  function WorldOf(c: Cell): (w: Vec) {
    Vec(50 * c.x, 50 * c.y)
  }

  predicate InGrid(c: Cell) {
    0 <= c.x < 10 && 0 <= c.y < 10
  }

  /** Converting a cell to world coordinates and back gives the same cell,
      for every cell, on or off the grid. */
  lemma CellOfWorldOf(c: Cell)
    ensures CellOf(WorldOf(c)) == c
  {
    var w := WorldOf(c);
    assert w.x == c.x * CellSize && w.y == c.y * CellSize;
    TruncDivBounds(w.x);
    TruncDivBounds(w.y);
    var q := TruncDiv(w.x, CellSize);
    if w.x >= 0 {
      assert q * CellSize <= c.x * CellSize < (q + 1) * CellSize;
    } else {
      assert (q - 1) * CellSize < c.x * CellSize <= q * CellSize;
    }
    var p := TruncDiv(w.y, CellSize);
    if w.y >= 0 {
      assert p * CellSize <= c.y * CellSize < (p + 1) * CellSize;
    } else {
      assert (p - 1) * CellSize < c.y * CellSize <= p * CellSize;
    }
  }

  /** Truncation makes cell 0 twice as wide as the others: every offset
      strictly between -50 and 50 lands in it, so a beam may travel up to 40
      units left of (or above) the maze and still be "in" column (row) 0. */
  lemma CellZeroSpansOrigin(o: int)
    requires -CellSize < o < CellSize
    ensures TruncDiv(o, CellSize) == 0
  {
  }

  /** The same offset under Dafny's floor division lands one cell further out. */
  lemma TruncDivDiffersFromFloor()
    ensures TruncDiv(-10, CellSize) == 0
    ensures -10 / CellSize == -1
  {
  }

  /** One light step: `pos += direction * 10.f` (Game.cpp line 117). */
  function Advance(p: Vec, d: Vec): (q: Vec) {
    Vec(p.x + 10 * d.x, p.y + 10 * d.y)
  }

  /** The point k light steps from p along d. */
  function Ray(p: Vec, d: Vec, k: nat): (q: Vec) {
    if k == 0 then p else Advance(Ray(p, d, k - 1), d)
  }

  /** Stepping once and then k times is stepping k + 1 times.  Only the
      second clause needs the induction; the first is `Ray` unfolded once,
      kept so callers need not unfold it themselves. */
  lemma {:induction false} AdvanceRay(p: Vec, d: Vec, k: nat)
    ensures Advance(Ray(p, d, k), d) == Ray(p, d, k + 1)
    ensures Ray(Advance(p, d), d, k) == Ray(p, d, k + 1)
  {
    if k > 0 {
      AdvanceRay(p, d, k - 1);
    }
  }

  /** The proximity test used for mirrors and portals: both coordinates
      differ by less than 10 (Game.cpp lines 125 and 135). */
  predicate Near(a: Vec, b: Vec) {
    Abs(a.x - b.x) < 10 && Abs(a.y - b.y) < 10
  }

  /** A unit vector along one axis. */
  predicate Cardinal(d: Vec) {
    Abs(d.x) + Abs(d.y) == 1 && (d.x == 0 || d.y == 0)
  }

  /** The mirror reflection of Game.cpp line 127: orientation 0 maps
      (dx, dy) to (-dy, -dx), any other orientation maps it to (dy, dx). */
  function Reflect(rotation: nat, d: Vec): (r: Vec) {
    if rotation == 0 then Vec(-d.y, -d.x) else Vec(d.y, d.x)
  }

  /** Reflecting twice off the same mirror restores the direction. */
  lemma ReflectInvolution(rotation: nat, d: Vec)
    ensures Reflect(rotation, Reflect(rotation, d)) == d
  {
  }

  /** A reflected cardinal direction is again cardinal, and a reflection
      always turns the beam by a right angle. */
  lemma ReflectCardinal(rotation: nat, d: Vec)
    requires Cardinal(d)
    ensures Cardinal(Reflect(rotation, d))
    ensures Reflect(rotation, d).x * d.x + Reflect(rotation, d).y * d.y == 0
  {
  }

  /** The four cardinal unit directions; y grows downward on screen. */
  const Right: Vec := Vec(1, 0)
  const Left: Vec := Vec(-1, 0)
  const Down: Vec := Vec(0, 1)
  const Up: Vec := Vec(0, -1)

  /** The four incoming cardinal directions and where each orientation sends
      them: "/" (0) turns rightward light upward, "\" (1) turns it downward. */
  lemma ReflectTable()
    ensures Reflect(0, Right) == Up && Reflect(1, Right) == Down
    ensures Reflect(0, Left) == Down && Reflect(1, Left) == Up
    ensures Reflect(0, Down) == Left && Reflect(1, Down) == Right
    ensures Reflect(0, Up) == Right && Reflect(1, Up) == Left
  {
  }

  /** Chebyshev distance between two cells (the player's lit neighbourhood,
      Game.cpp line 221). */
  function Chebyshev(a: Cell, b: Cell): (r: nat)
    ensures r >= Abs(a.x - b.x) && r >= Abs(a.y - b.y)
    ensures r == Abs(a.x - b.x) || r == Abs(a.y - b.y)
  {
    if Abs(a.x - b.x) >= Abs(a.y - b.y) then Abs(a.x - b.x) else Abs(a.y - b.y)
  }
}
