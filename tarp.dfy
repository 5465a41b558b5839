/** The `Tarp` class of code.py: the particle grids, the spring list and
    the pin table, with the methods that change them in place. Each method
    is proved against the grid-value specification of module Physics (for
    `update`) or Layout (for `reset`). */
module Simulation {
  import opened Vectors
  import opened Grids
  import opened Topology
  import opened Config
  import opened PinTable
  import opened Physics
  import opened Layout

  /** The content of a square grid array, as a grid value. */
  ghost function Snapshot(a: array2<Vec3>): (g: Grid)
    reads a
    requires a.Length0 == a.Length1
    ensures Covers(g, a.Length0)
  {
    map c | c in Cells(a.Length0) :: a[c.i, c.j]
  }

  /** Two grids over the same sheet that agree on every cell are equal. */
  lemma SameGrid(g: Grid, h: Grid, n: int)
    requires Covers(g, n) && Covers(h, n)
    requires forall c | c in Cells(n) :: g[c] == h[c]
    ensures g == h
  {
  }

  /** A fresh copy of a grid array (`np.copy`). */
  method CopyGrid(a: array2<Vec3>) returns (b: array2<Vec3>)
    ensures fresh(b) && b.Length0 == a.Length0 && b.Length1 == a.Length1
    ensures forall i, j | 0 <= i < a.Length0 && 0 <= j < a.Length1 :: b[i, j] == a[i, j]
  {
    b := new Vec3[a.Length0, a.Length1]((i, j) requires 0 <= i < a.Length0 && 0 <= j < a.Length1 reads a => a[i, j]);
  }

  class Tarp {
    const size: real
    /** `num_points`: the sheet is an n x n grid of particles. */
    const n: int
    /** The value used for `np.sqrt(2)`. */
    const root2: real
    const springs: seq<Spring>
    /** Current positions, `points[i, j]` for cell (i, j). */
    var points: array2<Vec3>
    /** Positions one step earlier; `points - oldPoints` is the velocity. */
    var oldPoints: array2<Vec3>
    /** `pinned_points`: cell -> fixed target position. */
    var pinned: Pins

    ghost predicate Valid()
      reads this
    {
      && n >= 2
      && points.Length0 == n && points.Length1 == n
      && oldPoints.Length0 == n && oldPoints.Length1 == n
      && points != oldPoints
      && pinned.Keys <= Cells(n)
      && (forall c | c in pinned :: pinned[c].y >= GroundLevel)
      && Anchored(springs, Cells(n))
    }

    ghost function Current(): (g: Grid)
      reads this, points
      requires Valid()
      ensures Covers(g, n)
    {
      Snapshot(points)
    }

    ghost function Previous(): (g: Grid)
      reads this, oldPoints
      requires Valid()
      ensures Covers(g, n)
    {
      Snapshot(oldPoints)
    }

    /** `Tarp(size, num_points)`: zeroed grids, the spring list, then a reset. */
    constructor (size: real, numPoints: int, root2: real)
      requires numPoints >= 2
      ensures Valid() && fresh(points) && fresh(oldPoints)
      ensures this.size == size && n == numPoints && this.root2 == root2
      ensures springs == Lattice(n, Step(size, n), ShearRest(root2, Step(size, n)))
      ensures pinned == map[]
      ensures Current() == FlatLayout(n, size) && Previous() == Current()
    {
      this.size := size;
      n := numPoints;
      this.root2 := root2;
      points := new Vec3[numPoints, numPoints]((i, j) => Zero);
      oldPoints := new Vec3[numPoints, numPoints]((i, j) => Zero);
      pinned := map[];
      var built := BuildSprings(size, numPoints, root2);
      LatticeWellFormed(numPoints, Step(size, numPoints), ShearRest(root2, Step(size, numPoints)));
      springs := built;
      new;
      Reset();
    }

    /** `reset`: clears the pin table, lays the sheet out flat at the reset
        height and makes the previous positions a copy of the current ones,
        so every particle starts at rest. */
    method Reset()
      requires Valid()
      modifies this, points
      ensures Valid() && points == old(points) && fresh(oldPoints)
      ensures pinned == map[]
      ensures Current() == FlatLayout(n, size) && Previous() == Current()
    {
      pinned := map[];
      var step := size / (n - 1) as real;
      var i := 0;
      while i < n
        invariant 0 <= i <= n
        invariant forall r, c | 0 <= r < i && 0 <= c < n :: points[r, c] == LayoutPosition(n, size, Cell(r, c))
        modifies points
      {
        var j := 0;
        while j < n
          invariant 0 <= j <= n
          invariant forall r, c | 0 <= r < n && 0 <= c < n && (r < i || (r == i && c < j)) ::
            points[r, c] == LayoutPosition(n, size, Cell(r, c))
          modifies points
        {
          points[i, j] := Vec3(-size / 2.0 + j as real * step, 3.0, -size / 2.0 + i as real * step);
          j := j + 1;
        }
        i := i + 1;
      }
      forall c | c in Cells(n)
        ensures Current()[c] == FlatLayout(n, size)[c]
      {
      }
      SameGrid(Current(), FlatLayout(n, size), n);
      oldPoints := CopyGrid(points);
      SameGrid(Previous(), Current(), n);
    }

    /** Writes one cell of the current grid. */
    method Put(c: Cell, v: Vec3)
      requires Valid() && InBounds(n, c)
      modifies points
      ensures Current() == old(Current())[c := v]
    {
      points[c.i, c.j] := v;
    }

    /** `update(dt)`: integration, then SolverIterations relaxation passes. */
    method Update(dt: real, norm: Norm)
      requires Valid()
      modifies points, oldPoints
      ensures Valid()
      ensures (Current(), Previous()) == Tick(old(Current()), old(Previous()), springs, pinned, dt, norm)
      ensures forall c | c in pinned :: Current()[c] == pinned[c]
    {
      Integrate(dt);
      ghost var remembered := Previous();
      RelaxAll(norm);
      assert Previous() == remembered;
      TickHoldsPins(old(Current()), old(Previous()), springs, pinned, dt, norm);
    }

    /** The constraint loop of `update`: SolverIterations relaxation passes. */
    method RelaxAll(norm: Norm)
      requires Valid()
      modifies points
      ensures Current() == Relax(old(Current()), springs, pinned, norm, SolverIterations)
    {
      ghost var start := Current();
      var pass := 0;
      while pass < SolverIterations
        invariant 0 <= pass <= SolverIterations
        invariant Valid() && Current() == Relax(start, springs, pinned, norm, pass)
        modifies points
      {
        RelaxOnce(norm, start, pass);
        pass := pass + 1;
      }
    }

    /** One relaxation pass (springs, then pins, then the ground), taking
        the sheet from `passes` to `passes + 1` passes after `start`. */
    method RelaxOnce(norm: Norm, ghost start: Grid, ghost passes: nat)
      requires Valid()
      requires Current() == Relax(start, springs, pinned, norm, passes)
      modifies points
      ensures Current() == Relax(start, springs, pinned, norm, passes + 1)
    {
      CorrectSprings(norm);
      EnforcePins();
      ClampGround();
    }

    /** The Verlet step of `update`: every cell that is not pinned moves by
        its velocity plus `g dt^2` and remembers where it was. */
    method Integrate(dt: real)
      requires Valid()
      modifies points, oldPoints
      ensures Current() == IntegrateCurrent(old(Current()), old(Previous()), pinned, dt)
      ensures Previous() == IntegratePrevious(old(Current()), old(Previous()), pinned)
    {
      var i := 0;
      while i < n
        invariant 0 <= i <= n
        invariant forall r, c | 0 <= r < n && 0 <= c < n ::
          if r < i then
            && points[r, c] == (if Cell(r, c) in pinned then old(points[r, c]) else Advance(old(points[r, c]), old(oldPoints[r, c]), dt))
            && oldPoints[r, c] == (if Cell(r, c) in pinned then old(oldPoints[r, c]) else old(points[r, c]))
          else
            points[r, c] == old(points[r, c]) && oldPoints[r, c] == old(oldPoints[r, c])
        modifies points, oldPoints
      {
        var j := 0;
        while j < n
          invariant 0 <= j <= n
          invariant forall r, c | 0 <= r < n && 0 <= c < n ::
            if r < i || (r == i && c < j) then
              && points[r, c] == (if Cell(r, c) in pinned then old(points[r, c]) else Advance(old(points[r, c]), old(oldPoints[r, c]), dt))
              && oldPoints[r, c] == (if Cell(r, c) in pinned then old(oldPoints[r, c]) else old(points[r, c]))
            else
              points[r, c] == old(points[r, c]) && oldPoints[r, c] == old(oldPoints[r, c])
          modifies points, oldPoints
        {
          if Cell(i, j) !in pinned {
            var temp := points[i, j];
            var velocity := Sub(points[i, j], oldPoints[i, j]);
            points[i, j] := Add(points[i, j], Add(velocity, Scale(Gravity, dt * dt)));
            oldPoints[i, j] := temp;
          }
          j := j + 1;
        }
        i := i + 1;
      }
      ghost var cur, prev := old(Current()), old(Previous());
      ghost var nextCur, nextPrev := IntegrateCurrent(cur, prev, pinned, dt), IntegratePrevious(cur, prev, pinned);
      forall c | c in Cells(n)
        ensures Current()[c] == nextCur[c] && Previous()[c] == nextPrev[c]
      {
        assert cur[c] == old(points[c.i, c.j]) && prev[c] == old(oldPoints[c.i, c.j]);
      }
      SameGrid(Current(), nextCur, n);
      SameGrid(Previous(), nextPrev, n);
    }

    /** One spring correction of the relaxation pass. */
    method CorrectSpring(s: Spring, norm: Norm)
      requires Valid() && InBounds(n, s.a) && InBounds(n, s.b)
      modifies points
      ensures Current() == ApplySpring(old(Current()), s, pinned, norm)
    {
      var p1 := points[s.a.i, s.a.j];
      var p2 := points[s.b.i, s.b.j];
      var delta := Sub(p2, p1);
      var dist := norm[delta];
      if dist > 0.0 {
        var diff := (dist - s.rest) / dist;
        var correction := Scale(Scale(delta, 0.5), diff);
        if s.a !in pinned {
          Put(s.a, Add(points[s.a.i, s.a.j], correction));
        }
        if s.b !in pinned {
          Put(s.b, Sub(points[s.b.i, s.b.j], correction));
        }
      }
    }

    /** Corrects every spring once, in list order. */
    method CorrectSprings(norm: Norm)
      requires Valid()
      modifies points
      ensures Current() == SpringPass(old(Current()), springs, pinned, norm)
    {
      ghost var start := Current();
      var k := 0;
      while k < |springs|
        invariant 0 <= k <= |springs|
        invariant Valid() && Current() == SpringsUpTo(start, springs, k, pinned, norm)
        modifies points
      {
        assert springs[k] in springs;
        CorrectSpring(springs[k], norm);
        k := k + 1;
      }
    }

    /** Moves every pinned cell onto its target, in the table's (unspecified) order. */
    method EnforcePins()
      requires Valid()
      modifies points
      ensures Current() == PinPass(old(Current()), pinned)
    {
      var remaining := pinned.Keys;
      while remaining != {}
        invariant remaining <= pinned.Keys
        invariant Current() == PinPass(old(Current()), pinned - remaining)
        decreases remaining
        modifies points
      {
        var c :| c in remaining;
        Put(c, pinned[c]);
        remaining := remaining - {c};
      }
    }

    /** The ground constraint, applied to all cells at once. */
    method ClampGround()
      requires Valid()
      modifies points
      ensures Current() == GroundPass(old(Current()))
    {
      forall i, j | 0 <= i < n && 0 <= j < n {
        points[i, j] := ClampToGround(points[i, j]);
      }
    }

    /** The S key: pins cell c on the ground below its current position,
        unless c is pinned already. */
    method Stake(c: Cell)
      requires Valid() && InBounds(n, c)
      modifies this`pinned
      ensures Valid()
      ensures pinned == PinIfAbsent(old(pinned), c, WithY(points[c.i, c.j], GroundLevel))
    {
      if c !in pinned {
        var pos := WithY(points[c.i, c.j], 0.0);
        pinned := pinned[c := pos];
      }
    }

    /** The L key: pins cell c at pole height above its current position,
        unless c is pinned already. */
    method Lift(c: Cell)
      requires Valid() && InBounds(n, c)
      modifies this`pinned
      ensures Valid()
      ensures pinned == PinIfAbsent(old(pinned), c, WithY(points[c.i, c.j], PoleHeight))
    {
      if c !in pinned {
        var pos := WithY(points[c.i, c.j], PoleHeight);
        pinned := pinned[c := pos];
      }
    }

    /** The U key: removes the pin of cell c if it has one. */
    method Unpin(c: Cell)
      requires Valid()
      modifies this`pinned
      ensures Valid()
      ensures pinned == UnpinIfPresent(old(pinned), c)
    {
      if c in pinned {
        pinned := pinned - {c};
      }
    }
  }
}
