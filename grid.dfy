/** Grid coordinates of an N x N sheet and grids of positions as values.
    The original indexes numpy arrays of shape (N, N, 3) with `(i, j)`
    tuples; a Cell is such a tuple, and a Grid is the content of one such
    array, keyed by the cells of the sheet. */
module Grids {
  import opened Vectors

  /** Row `i`, column `j`. */
  datatype Cell = Cell(i: int, j: int)

  type Grid = map<Cell, Vec3>

  predicate InBounds(n: int, c: Cell) {
    0 <= c.i < n && 0 <= c.j < n
  }

  /** Every cell of an n x n sheet. */
  function Cells(n: int): (cs: set<Cell>)
    ensures forall c :: c in cs <==> InBounds(n, c)
  {
    set i, j | 0 <= i < n && 0 <= j < n :: Cell(i, j)
  }

  /** A grid that has a position for every cell of the n x n sheet and
      for nothing else. */
  predicate Covers(g: Grid, n: int) {
    g.Keys == Cells(n)
  }
}
