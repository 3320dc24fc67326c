/**
 Cells of the square maze grid, the four moves between them, and the
 Manhattan distance the search ranks cells by (main.py `heuristic`).
 */
module Grid {

  /** A grid cell: `x` is the column, `y` the row; rows grow downward, as on screen. */
  datatype Cell = Cell(x: int, y: int)

  /** A displacement between cells; a unit one doubles as a facing direction. */
  datatype Vec = Vec(dx: int, dy: int)

  const East: Vec := Vec(1, 0)
  const West: Vec := Vec(-1, 0)
  const South: Vec := Vec(0, 1)
  const North: Vec := Vec(0, -1)

  /** The four moves the search tries, in the order main.py lists them. */
  const Moves: seq<Vec> := [East, West, South, North]

  predicate IsUnit(v: Vec) {
    v in Moves
  }

  function Opposite(v: Vec): Vec {
    Vec(-v.dx, -v.dy)
  }

  function Shift(c: Cell, v: Vec): Cell {
    Cell(c.x + v.dx, c.y + v.dy)
  }

  /** The displacement that takes `a` to `b`. */
  function Delta(a: Cell, b: Cell): (v: Vec)
    ensures Shift(a, v) == b
  {
    Vec(b.x - a.x, b.y - a.y)
  }

  function Abs(v: int): (a: nat)
    ensures a == v || a == -v
  {
    if v < 0 then -v else v
  }

  /** Manhattan distance from `current` to `goal`. */
  function Heuristic(current: Cell, goal: Cell): (d: nat)
    ensures d == 0 <==> current == goal
  {
    Abs(current.x - goal.x) + Abs(current.y - goal.y)
  }

  lemma HeuristicSymmetric(a: Cell, b: Cell)
    ensures Heuristic(a, b) == Heuristic(b, a)
  {
  }

  /** The four cells one axis-aligned unit step away from `c`, in move order. */
  function Neighbours(c: Cell): seq<Cell> {
    [Shift(c, Moves[0]), Shift(c, Moves[1]), Shift(c, Moves[2]), Shift(c, Moves[3])]
  }

  predicate Adjacent(a: Cell, b: Cell) {
    b in Neighbours(a)
  }

  /** Being neighbours is exactly being at Manhattan distance one. */
  lemma AdjacentIffUnitDistance(a: Cell, b: Cell)
    ensures Adjacent(a, b) <==> Heuristic(a, b) == 1
  {
  }

  /** One step along an axis changes the distance to any goal by exactly one. */
  lemma HeuristicUnitChange(a: Cell, b: Cell, goal: Cell)
    requires Adjacent(a, b)
    ensures Abs(Heuristic(a, goal) - Heuristic(b, goal)) == 1
  {
  }

  lemma HeuristicTriangle(a: Cell, b: Cell, c: Cell)
    ensures Heuristic(a, c) <= Heuristic(a, b) + Heuristic(b, c)
  {
  }

  predicate InBounds(size: int, c: Cell) {
    0 <= c.x < size && 0 <= c.y < size
  }

  /** A cell the search may enter: inside the grid and not listed as an obstacle. */
  predicate Open(size: int, obstacles: seq<Cell>, c: Cell) {
    InBounds(size, c) && c !in obstacles
  }

  /**
   A route from `from` to `to` by unit steps whose every cell after the first
   may be entered. Cells may repeat.
   */
  predicate IsWalk(w: seq<Cell>, size: int, obstacles: seq<Cell>, from: Cell, to: Cell) {
    && |w| >= 1
    && w[0] == from
    && w[|w| - 1] == to
    && (forall i :: 0 <= i < |w| - 1 ==> Adjacent(w[i], w[i + 1]))
    && (forall i :: 0 < i < |w| ==> Open(size, obstacles, w[i]))
  }

  predicate NoRepeats(w: seq<Cell>) {
    forall i, j :: 0 <= i < j < |w| ==> w[i] != w[j]
  }

  ghost predicate Reachable(size: int, obstacles: seq<Cell>, from: Cell, to: Cell) {
    exists w :: IsWalk(w, size, obstacles, from, to)
  }
}
