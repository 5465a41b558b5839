/** The nine tie-outs of the sheet (code.py lines 50-58): the four corners,
    the four edge midpoints and the centre, in row-major order. */
module TieOuts {
  import opened Grids
  import opened Config

  /** The tie-out cells of an n x n sheet. `(n - 1) / 2` is Python's
      `(n - 1) // 2`: with a positive divisor, Dafny's Euclidean division
      and Python's floor division agree, also when n - 1 is negative. */
  function TieOutIndices(n: int): (r: seq<Cell>)
    ensures |r| == 9
    // the corners
    ensures r[0] == Cell(0, 0) && r[2] == Cell(0, n - 1) && r[6] == Cell(n - 1, 0) && r[8] == Cell(n - 1, n - 1)
    // the centre: row and column are the middle index, rounded down
    ensures r[4].i == r[4].j && 2 * r[4].i <= n - 1 <= 2 * r[4].i + 1
    // the edge midpoints share the centre's row or column
    ensures r[1] == Cell(0, r[4].j) && r[7] == Cell(n - 1, r[4].j)
    ensures r[3] == Cell(r[4].i, 0) && r[5] == Cell(r[4].i, n - 1)
    ensures n >= 1 ==> forall k | 0 <= k < 9 :: InBounds(n, r[k])
  {
    var mid := (n - 1) / 2;
    var end := n - 1;
    [ Cell(0, 0), Cell(0, mid), Cell(0, end),
      Cell(mid, 0), Cell(mid, mid), Cell(mid, end),
      Cell(end, 0), Cell(end, mid), Cell(end, end) ]
  }

  /** On a sheet of at least 3 x 3 cells the nine tie-outs are nine
      different cells. */
  lemma TieOutsDistinct(n: int)
    requires n >= 3
    ensures forall a, b | 0 <= a < b < 9 :: TieOutIndices(n)[a] != TieOutIndices(n)[b]
  {
    var r := TieOutIndices(n);
    var mid := r[4].i;
    assert 0 < mid < n - 1;
  }

  /** On a 2 x 2 sheet the middle index is 0, so the nine tie-outs collapse
      onto the four corners. */
  lemma TieOutsOfTwo()
    ensures TieOutIndices(2)[4] == Cell(0, 0)
    ensures forall k | 0 <= k < 9 :: TieOutIndices(2)[k] in {Cell(0, 0), Cell(0, 1), Cell(1, 0), Cell(1, 1)}
  {
  }

  /** The sheet of the simulator, 17 points per axis. */
  lemma TieOutsOfSeventeen()
    ensures TieOutIndices(PointsPerAxis) == [ Cell(0, 0), Cell(0, 8), Cell(0, 16),
                             Cell(8, 0), Cell(8, 8), Cell(8, 16),
                             Cell(16, 0), Cell(16, 8), Cell(16, 16) ]
  {
  }
}
