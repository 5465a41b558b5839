/** The spring topology of the sheet (code.py lines 24-37): for every cell a
    structural spring to the neighbour below and to the neighbour on the
    right when they exist, and for every cell that has both, the two shear
    springs across the square they span. */
module Topology {
  import opened Grids

  /** One spring constraint: the two grid cells it joins and its rest length. */
  datatype Spring = Spring(a: Cell, b: Cell, rest: real)

  datatype Kind = Structural | Shear

  function Abs(k: int): nat {
    if k < 0 then -k else k
  }

  /** Structural springs join cells that differ by one in exactly one
      coordinate; shear springs join diagonal neighbours. */
  predicate IsKind(s: Spring, k: Kind) {
    var di, dj := Abs(s.b.i - s.a.i), Abs(s.b.j - s.a.j);
    match k
    case Structural => di + dj == 1
    case Shear => di == 1 && dj == 1
  }

  /** The lattice step: the spacing of neighbouring cells in the flat
      layout and the rest length of a structural spring. */
  function Step(size: real, n: int): (step: real)
    requires n >= 2
    ensures step * (n - 1) as real == size
    ensures size > 0.0 ==> step > 0.0
  {
    size / (n - 1) as real
  }

  /** The rest length of a shear spring, `np.sqrt(2) * step`, with `root2`
      standing for numpy's value of the square root of two. */
  function ShearRest(root2: real, step: real): (diag: real)
    ensures root2 * root2 == 2.0 ==> diag * diag == 2.0 * (step * step)
  {
    assert (root2 * step) * (root2 * step) == (root2 * root2) * (step * step);
    root2 * step
  }

  /** The springs the generator emits for cell (i, j), in emission order. */
  function CellSprings(n: int, i: int, j: int, step: real, diag: real): seq<Spring> {
    (if i < n - 1 then [Spring(Cell(i, j), Cell(i + 1, j), step)] else [])
    + (if j < n - 1 then [Spring(Cell(i, j), Cell(i, j + 1), step)] else [])
    + (if i < n - 1 && j < n - 1
       then [Spring(Cell(i, j), Cell(i + 1, j + 1), diag), Spring(Cell(i + 1, j), Cell(i, j + 1), diag)]
       else [])
  }

  /** The springs of cells (i, 0), ..., (i, j - 1). */
  function RowSprings(n: int, i: int, j: int, step: real, diag: real): seq<Spring>
    decreases j
  {
    if j <= 0 then [] else RowSprings(n, i, j - 1, step, diag) + CellSprings(n, i, j - 1, step, diag)
  }

  /** The springs of rows 0, ..., i - 1. */
  function LatticeRows(n: int, i: int, step: real, diag: real): seq<Spring>
    decreases i
  {
    if i <= 0 then [] else LatticeRows(n, i - 1, step, diag) + RowSprings(n, i - 1, n, step, diag)
  }

  /** The whole spring list of an n x n sheet, in the generator's order. */
  function Lattice(n: int, step: real, diag: real): seq<Spring> {
    LatticeRows(n, n, step, diag)
  }

  /** Builds the spring list with the generator's nested loops. `root2`
      stands for numpy's sqrt(2): shear springs rest at root2 * step. */
  method BuildSprings(size: real, n: int, root2: real) returns (springs: seq<Spring>)
    requires n >= 2
    ensures springs == Lattice(n, Step(size, n), ShearRest(root2, Step(size, n)))
  {
    springs := [];
    var step := size / (n - 1) as real;
    var diag := root2 * step;
    assert diag == ShearRest(root2, step);
    var i := 0;
    while i < n
      invariant 0 <= i <= n
      invariant springs == LatticeRows(n, i, step, diag)
    {
      var j := 0;
      while j < n
        invariant 0 <= j <= n
        invariant springs == LatticeRows(n, i, step, diag) + RowSprings(n, i, j, step, diag)
      {
        ghost var before := springs;
        if i < n - 1 {
          springs := springs + [Spring(Cell(i, j), Cell(i + 1, j), step)];
        }
        if j < n - 1 {
          springs := springs + [Spring(Cell(i, j), Cell(i, j + 1), step)];
        }
        if i < n - 1 && j < n - 1 {
          springs := springs + [Spring(Cell(i, j), Cell(i + 1, j + 1), diag)];
          springs := springs + [Spring(Cell(i + 1, j), Cell(i, j + 1), diag)];
        }
        assert springs == before + CellSprings(n, i, j, step, diag);
        j := j + 1;
      }
      i := i + 1;
    }
    assert step == Step(size, n);
  }

  // ---------------------------------------------------------------------
  // Counting springs by kind

  function KindCount(ss: seq<Spring>, k: Kind): nat {
    if |ss| == 0 then 0
    else (if IsKind(ss[0], k) then 1 else 0) + KindCount(ss[1..], k)
  }

  lemma {:induction false} KindCountAppend(s: seq<Spring>, t: seq<Spring>, k: Kind)
    ensures KindCount(s + t, k) == KindCount(s, k) + KindCount(t, k)
    decreases |s|
  {
    if |s| == 0 {
      assert s + t == t;
    } else {
      assert (s + t)[1..] == s[1..] + t;
      KindCountAppend(s[1..], t, k);
    }
  }

  lemma CellSpringsCount(n: int, i: int, j: int, step: real, diag: real)
    ensures KindCount(CellSprings(n, i, j, step, diag), Structural)
         == (if i < n - 1 then 1 else 0) + (if j < n - 1 then 1 else 0)
    ensures KindCount(CellSprings(n, i, j, step, diag), Shear)
         == (if i < n - 1 && j < n - 1 then 2 else 0)
  {
    var down: seq<Spring> := if i < n - 1 then [Spring(Cell(i, j), Cell(i + 1, j), step)] else [];
    var right: seq<Spring> := if j < n - 1 then [Spring(Cell(i, j), Cell(i, j + 1), step)] else [];
    var shear: seq<Spring> := if i < n - 1 && j < n - 1
      then [Spring(Cell(i, j), Cell(i + 1, j + 1), diag), Spring(Cell(i + 1, j), Cell(i, j + 1), diag)]
      else [];
    KindCountAppend(down, right, Structural);
    KindCountAppend(down + right, shear, Structural);
    KindCountAppend(down, right, Shear);
    KindCountAppend(down + right, shear, Shear);
    if i < n - 1 && j < n - 1 {
      assert shear == [shear[0]] + [shear[1]];
      KindCountAppend([shear[0]], [shear[1]], Structural);
      KindCountAppend([shear[0]], [shear[1]], Shear);
    }
  }

  lemma {:induction false} RowSpringsCount(n: int, i: int, j: int, step: real, diag: real)
    requires n >= 1 && 0 <= j <= n
    ensures KindCount(RowSprings(n, i, j, step, diag), Structural)
         == (if i < n - 1 then j else 0) + (if j <= n - 1 then j else n - 1)
    ensures KindCount(RowSprings(n, i, j, step, diag), Shear)
         == (if i < n - 1 then 2 * (if j <= n - 1 then j else n - 1) else 0)
    decreases j
  {
    if j > 0 {
      var prefix, cell := RowSprings(n, i, j - 1, step, diag), CellSprings(n, i, j - 1, step, diag);
      assert RowSprings(n, i, j, step, diag) == prefix + cell;
      RowSpringsCount(n, i, j - 1, step, diag);
      CellSpringsCount(n, i, j - 1, step, diag);
      KindCountAppend(prefix, cell, Structural);
      KindCountAppend(prefix, cell, Shear);
      assert KindCount(RowSprings(n, i, j, step, diag), Structural) == KindCount(prefix, Structural) + KindCount(cell, Structural);
      assert KindCount(prefix, Structural) == (if i < n - 1 then j - 1 else 0) + (if j - 1 <= n - 1 then j - 1 else n - 1);
      assert KindCount(cell, Structural) == (if i < n - 1 then 1 else 0) + (if j - 1 < n - 1 then 1 else 0);
    }
  }

  lemma MulStep(a: int, b: int)
    ensures a * b == a * (b - 1) + a
  {
  }

  function Min(a: int, b: int): int {
    if a <= b then a else b
  }

  lemma {:induction false} LatticeRowsCount(n: int, i: int, step: real, diag: real)
    requires n >= 1 && 0 <= i <= n
    ensures KindCount(LatticeRows(n, i, step, diag), Structural) == n * Min(i, n - 1) + i * (n - 1)
    ensures KindCount(LatticeRows(n, i, step, diag), Shear) == 2 * (n - 1) * Min(i, n - 1)
    decreases i
  {
    if i > 0 {
      LatticeRowsCount(n, i - 1, step, diag);
      LatticeRowsCountStep(n, i, step, diag);
      RowTotals(n, i);
    }
  }

  /** Row i - 1 adds n - 1 structural springs along the row, n more down to
      the next row if there is one, and two shear springs per square. */
  lemma LatticeRowsCountStep(n: int, i: int, step: real, diag: real)
    requires n >= 1 && 0 < i <= n
    ensures KindCount(LatticeRows(n, i, step, diag), Structural)
         == KindCount(LatticeRows(n, i - 1, step, diag), Structural) + (if i - 1 < n - 1 then n else 0) + (n - 1)
    ensures KindCount(LatticeRows(n, i, step, diag), Shear)
         == KindCount(LatticeRows(n, i - 1, step, diag), Shear) + (if i - 1 < n - 1 then 2 * (n - 1) else 0)
  {
    var prefix, row := LatticeRows(n, i - 1, step, diag), RowSprings(n, i - 1, n, step, diag);
    RowSpringsCount(n, i - 1, n, step, diag);
    KindCountAppend(prefix, row, Structural);
    KindCountAppend(prefix, row, Shear);
  }

  /** The arithmetic step of LatticeRowsCount: adding row i - 1. */
  lemma RowTotals(n: int, i: int)
    requires n >= 1 && 1 <= i <= n
    ensures n * Min(i, n - 1) + i * (n - 1)
         == n * Min(i - 1, n - 1) + (i - 1) * (n - 1) + ((if i - 1 < n - 1 then n else 0) + (n - 1))
    ensures 2 * (n - 1) * Min(i, n - 1)
         == 2 * (n - 1) * Min(i - 1, n - 1) + (if i - 1 < n - 1 then 2 * (n - 1) else 0)
  {
    MulStep(n - 1, i);
    if i <= n - 1 {
      MulStep(n, i);
      MulStep(2 * (n - 1), i);
    }
  }

  /** An N x N sheet has 2N(N-1) structural and 2(N-1)^2 shear springs. */
  lemma LatticeCount(n: int, step: real, diag: real)
    requires n >= 2
    ensures KindCount(Lattice(n, step, diag), Structural) == 2 * n * (n - 1)
    ensures KindCount(Lattice(n, step, diag), Shear) == 2 * (n - 1) * (n - 1)
  {
    LatticeRowsCount(n, n, step, diag);
  }

  /** Every spring is structural or shear, never both, so the two counts
      add up to the length of the list. */
  lemma {:induction false} KindsPartition(ss: seq<Spring>)
    requires forall s | s in ss :: IsKind(s, Structural) || IsKind(s, Shear)
    ensures |ss| == KindCount(ss, Structural) + KindCount(ss, Shear)
    decreases |ss|
  {
    if |ss| > 0 {
      assert ss[0] in ss;
      assert forall s | s in ss[1..] :: s in ss;
      KindsPartition(ss[1..]);
    }
  }

  // ---------------------------------------------------------------------
  // Shape of every generated spring

  /** A spring of an n x n sheet: both ends on the sheet, and either
      structural at the lattice step or shear at the shear rest length. */
  predicate WellFormed(n: int, s: Spring, step: real, diag: real) {
    && InBounds(n, s.a) && InBounds(n, s.b)
    && ((IsKind(s, Structural) && s.rest == step) || (IsKind(s, Shear) && s.rest == diag))
  }

  /** Every spring of a list is well formed. */
  predicate AllWellFormed(n: int, ss: seq<Spring>, step: real, diag: real) {
    forall k | 0 <= k < |ss| :: WellFormed(n, ss[k], step, diag)
  }

  lemma AllWellFormedAppend(n: int, a: seq<Spring>, b: seq<Spring>, step: real, diag: real)
    requires AllWellFormed(n, a, step, diag) && AllWellFormed(n, b, step, diag)
    ensures AllWellFormed(n, a + b, step, diag)
  {
    forall k | 0 <= k < |a + b|
      ensures WellFormed(n, (a + b)[k], step, diag)
    {
      if k < |a| {
        assert (a + b)[k] == a[k];
      } else {
        assert (a + b)[k] == b[k - |a|];
      }
    }
  }

  lemma CellSpringsWellFormed(n: int, i: int, j: int, step: real, diag: real)
    requires 0 <= i < n && 0 <= j < n
    ensures AllWellFormed(n, CellSprings(n, i, j, step, diag), step, diag)
  {
  }

  lemma {:induction false} RowSpringsWellFormed(n: int, i: int, j: int, step: real, diag: real)
    requires 0 <= i < n && j <= n
    ensures AllWellFormed(n, RowSprings(n, i, j, step, diag), step, diag)
    decreases j
  {
    if j > 0 {
      RowSpringsWellFormed(n, i, j - 1, step, diag);
      CellSpringsWellFormed(n, i, j - 1, step, diag);
      AllWellFormedAppend(n, RowSprings(n, i, j - 1, step, diag), CellSprings(n, i, j - 1, step, diag), step, diag);
    }
  }

  lemma {:induction false} LatticeRowsWellFormed(n: int, i: int, step: real, diag: real)
    requires i <= n
    ensures AllWellFormed(n, LatticeRows(n, i, step, diag), step, diag)
    decreases i
  {
    if i > 0 {
      LatticeRowsWellFormed(n, i - 1, step, diag);
      LatticeRowsStepWellFormed(n, i, step, diag);
    }
  }

  /** Adding one row of well-formed springs keeps the list well formed. */
  lemma LatticeRowsStepWellFormed(n: int, i: int, step: real, diag: real)
    requires 0 < i <= n
    requires AllWellFormed(n, LatticeRows(n, i - 1, step, diag), step, diag)
    ensures AllWellFormed(n, LatticeRows(n, i, step, diag), step, diag)
  {
    RowSpringsWellFormed(n, i - 1, n, step, diag);
    AllWellFormedAppend(n, LatticeRows(n, i - 1, step, diag), RowSprings(n, i - 1, n, step, diag), step, diag);
  }

  /** Every spring of the sheet joins two of its cells: a structural spring
      joins cells one apart in exactly one coordinate and rests at the
      lattice step, a shear spring joins diagonal neighbours and rests at
      the shear length. */
  lemma LatticeWellFormed(n: int, step: real, diag: real)
    ensures forall s | s in Lattice(n, step, diag) :: WellFormed(n, s, step, diag)
  {
    LatticeRowsWellFormed(n, n, step, diag);
    forall s | s in Lattice(n, step, diag)
      ensures WellFormed(n, s, step, diag)
    {
      var k :| 0 <= k < |Lattice(n, step, diag)| && Lattice(n, step, diag)[k] == s;
    }
  }

  /** The spring list of an N x N sheet has 2N(N-1) + 2(N-1)^2 entries. */
  lemma LatticeSize(n: int, step: real, diag: real)
    requires n >= 2
    ensures |Lattice(n, step, diag)| == 2 * n * (n - 1) + 2 * (n - 1) * (n - 1)
  {
    LatticeWellFormed(n, step, diag);
    LatticeCount(n, step, diag);
    KindsPartition(Lattice(n, step, diag));
  }

  // ---------------------------------------------------------------------
  // Every neighbouring pair of cells is joined

  function Below(c: Cell): Cell { Cell(c.i + 1, c.j) }
  function RightOf(c: Cell): Cell { Cell(c.i, c.j + 1) }
  function Diagonal(c: Cell): Cell { Cell(c.i + 1, c.j + 1) }

  lemma {:induction false} CellInRow(n: int, i: int, j: int, j': int, step: real, diag: real)
    requires 0 <= j < j'
    ensures forall s | s in CellSprings(n, i, j, step, diag) :: s in RowSprings(n, i, j', step, diag)
    decreases j'
  {
    if j < j' - 1 {
      CellInRow(n, i, j, j' - 1, step, diag);
    }
  }

  lemma {:induction false} RowInLattice(n: int, i: int, i': int, step: real, diag: real)
    requires 0 <= i < i'
    ensures forall s | s in RowSprings(n, i, n, step, diag) :: s in LatticeRows(n, i', step, diag)
    decreases i'
  {
    if i < i' - 1 {
      RowInLattice(n, i, i' - 1, step, diag);
    }
  }

  lemma CellInLattice(n: int, c: Cell, step: real, diag: real)
    requires InBounds(n, c)
    ensures forall s | s in CellSprings(n, c.i, c.j, step, diag) :: s in Lattice(n, step, diag)
  {
    CellInRow(n, c.i, c.j, n, step, diag);
    RowInLattice(n, c.i, n, step, diag);
  }

  /** The generator misses no pair: each cell is joined to the cell below
      it and to the cell on its right by a structural spring, and each
      square of four cells carries both of its shear springs. */
  lemma LatticeComplete(n: int, step: real, diag: real)
    ensures forall c | InBounds(n, c) && c.i < n - 1 :: Spring(c, Below(c), step) in Lattice(n, step, diag)
    ensures forall c | InBounds(n, c) && c.j < n - 1 :: Spring(c, RightOf(c), step) in Lattice(n, step, diag)
    ensures forall c | InBounds(n, c) && c.i < n - 1 && c.j < n - 1 ::
      && Spring(c, Diagonal(c), diag) in Lattice(n, step, diag)
      && Spring(Below(c), RightOf(c), diag) in Lattice(n, step, diag)
  {
    var lattice := Lattice(n, step, diag);
    forall c | InBounds(n, c) && c.i < n - 1
      ensures Spring(c, Below(c), step) in lattice
    {
      CellInLattice(n, c, step, diag);
      assert CellSprings(n, c.i, c.j, step, diag)[0] == Spring(c, Below(c), step);
    }
    forall c | InBounds(n, c) && c.j < n - 1
      ensures Spring(c, RightOf(c), step) in lattice
    {
      CellInLattice(n, c, step, diag);
      assert Spring(c, RightOf(c), step) in CellSprings(n, c.i, c.j, step, diag);
    }
    forall c | InBounds(n, c) && c.i < n - 1 && c.j < n - 1
      ensures Spring(c, Diagonal(c), diag) in lattice && Spring(Below(c), RightOf(c), diag) in lattice
    {
      CellInLattice(n, c, step, diag);
      var cell := CellSprings(n, c.i, c.j, step, diag);
      assert cell[2] == Spring(c, Diagonal(c), diag);
      assert cell[3] == Spring(Below(c), RightOf(c), diag);
    }
  }
}
