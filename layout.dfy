/** The flat layout that `Tarp.reset` puts the sheet in (code.py lines
    41-48): a horizontal square of side `size`, centred over the origin at
    height 3, column j along x and row i along z. */
module Layout {
  import opened Vectors
  import opened Grids
  import opened Topology
  import opened Config

  function LayoutPosition(n: int, size: real, c: Cell): Vec3
    requires n >= 2
  {
    var step := Step(size, n);
    Vec3(-size / 2.0 + c.j as real * step, ResetHeight, -size / 2.0 + c.i as real * step)
  }

  function FlatLayout(n: int, size: real): (g: Grid)
    requires n >= 2
    ensures Covers(g, n)
  {
    map c | c in Cells(n) :: LayoutPosition(n, size, c)
  }

  /** The squared Euclidean length; it needs no square root. */
  function SquaredLength(v: Vec3): (l: real)
    ensures l >= 0.0
  {
    v.x * v.x + v.y * v.y + v.z * v.z
  }

  /** The vector between two cells of the layout is their index difference
      times the step: columns along x, rows along z, nothing along y. */
  lemma LayoutDelta(n: int, size: real, a: Cell, b: Cell)
    requires n >= 2
    ensures Sub(LayoutPosition(n, size, b), LayoutPosition(n, size, a))
         == Vec3((b.j - a.j) as real * Step(size, n), 0.0, (b.i - a.i) as real * Step(size, n))
  {
    var step := Step(size, n);
    assert b.j as real * step - a.j as real * step == (b.j - a.j) as real * step;
    assert b.i as real * step - a.i as real * step == (b.i - a.i) as real * step;
  }

  /** The layout spans the square [-size/2, size/2] x [-size/2, size/2] at
      the reset height: the first cell sits at one corner and the last
      cell at the opposite one. */
  lemma LayoutSpan(n: int, size: real)
    requires n >= 2
    ensures LayoutPosition(n, size, Cell(0, 0)) == Vec3(-size / 2.0, ResetHeight, -size / 2.0)
    ensures LayoutPosition(n, size, Cell(n - 1, n - 1)) == Vec3(size / 2.0, ResetHeight, size / 2.0)
  {
    assert (n - 1) as real * Step(size, n) == size;
  }

  /** The squared length of a lattice offset (dj, 0, di) * step with unit
      offsets: one step squared per coordinate that changes. */
  lemma UnitOffsetLength(di: int, dj: int, step: real)
    requires -1 <= di <= 1 && -1 <= dj <= 1
    ensures SquaredLength(Vec3(dj as real * step, 0.0, di as real * step)) == (Abs(di) + Abs(dj)) as real * (step * step)
  {
    assert (dj as real * step) * (dj as real * step) == (dj * dj) as real * (step * step);
    assert (di as real * step) * (di as real * step) == (di * di) as real * (step * step);
    assert di * di == Abs(di) && dj * dj == Abs(dj);
  }

  /** A spring of the sheet is at its rest length in the flat layout:
      one step squared for a structural spring, two for a shear spring. */
  lemma SpringAtRest(n: int, size: real, root2: real, s: Spring)
    requires n >= 2 && root2 * root2 == 2.0
    requires WellFormed(n, s, Step(size, n), ShearRest(root2, Step(size, n)))
    ensures SquaredLength(Sub(LayoutPosition(n, size, s.b), LayoutPosition(n, size, s.a))) == s.rest * s.rest
  {
    LayoutDelta(n, size, s.a, s.b);
    OffsetAtRest(s, Step(size, n), root2, Sub(LayoutPosition(n, size, s.b), LayoutPosition(n, size, s.a)));
  }

  /** The lattice offset between the ends of a structural or shear spring
      has the spring's rest length (compared squared). */
  lemma OffsetAtRest(s: Spring, step: real, root2: real, delta: Vec3)
    requires root2 * root2 == 2.0
    requires (IsKind(s, Structural) && s.rest == step) || (IsKind(s, Shear) && s.rest == ShearRest(root2, step))
    requires delta == Vec3((s.b.j - s.a.j) as real * step, 0.0, (s.b.i - s.a.i) as real * step)
    ensures SquaredLength(delta) == s.rest * s.rest
  {
    UnitOffsetLength(s.b.i - s.a.i, s.b.j - s.a.j, step);
    RestSquared(s, step, ShearRest(root2, step));
  }

  /** The rest length of a spring squared is its number of unit offsets
      times the step squared. */
  lemma RestSquared(s: Spring, step: real, diag: real)
    requires diag * diag == 2.0 * (step * step)
    requires (IsKind(s, Structural) && s.rest == step) || (IsKind(s, Shear) && s.rest == diag)
    ensures s.rest * s.rest == (Abs(s.b.i - s.a.i) + Abs(s.b.j - s.a.j)) as real * (step * step)
  {
  }

  /** The simulator's own sheet has POINTS_PER_AXIS points per axis and
      is joined by 1056 springs. */
  lemma SimulatorSheet(n: int, step: real, diag: real)
    requires n == PointsPerAxis
    ensures |Lattice(n, step, diag)| == 1056
  {
    LatticeSize(n, step, diag);
  }

  /** The simulator's sheet is TARP_SIZE metres wide, so its cells lie
      3/16 m apart. */
  lemma SimulatorStep()
    ensures Step(TarpSize, PointsPerAxis) == 0.1875
  {
  }

  /** Reset leaves the sheet unstretched: in the flat layout every spring
      of the lattice is exactly at its rest length (compared squared, with
      `root2` the square root of two). */
  lemma LayoutAtRest(n: int, size: real, root2: real)
    requires n >= 2 && root2 * root2 == 2.0
    ensures var step := Step(size, n);
      forall s | s in Lattice(n, step, ShearRest(root2, step)) ::
        SquaredLength(Sub(LayoutPosition(n, size, s.b), LayoutPosition(n, size, s.a))) == s.rest * s.rest
  {
    var step := Step(size, n);
    LatticeWellFormed(n, step, ShearRest(root2, step));
    forall s | s in Lattice(n, step, ShearRest(root2, step))
      ensures SquaredLength(Sub(LayoutPosition(n, size, s.b), LayoutPosition(n, size, s.a))) == s.rest * s.rest
    {
      SpringAtRest(n, size, root2, s);
    }
  }
}
