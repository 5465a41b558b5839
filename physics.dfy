/** The physics of one `Tarp.update` call (code.py lines 60-93), stated on
    grid values: a Verlet integration step that skips pinned cells, then
    SolverIterations relaxation passes, each of which corrects every spring,
    re-imposes every pin and clamps every cell to the ground, in that
    order. The Euclidean norm of the original (`np.linalg.norm`) is the
    parameter `norm`; nothing below depends on what it returns except where
    a lemma says so. */
module Physics {
  import opened Vectors
  import opened Grids
  import opened Topology
  import opened Config
  import opened PinTable

  /** A length for every vector: the stand-in for `np.linalg.norm`. */
  type Norm = m: imap<Vec3, real> | forall v :: v in m ghost witness imap v: Vec3 | true :: 0.0

  // ---------------------------------------------------------------------
  // Integration

  /** The Verlet step of one free particle: the implicit velocity
      `cur - prev` is kept and gravity adds `g dt^2` to it. */
  function Advance(cur: Vec3, prev: Vec3, dt: real): (next: Vec3)
    ensures Sub(next, cur) == Add(Sub(cur, prev), Scale(Gravity, dt * dt))
  {
    Add(cur, Add(Sub(cur, prev), Scale(Gravity, dt * dt)))
  }

  /** Current positions after integration: pinned cells stay, free cells advance. */
  function IntegrateCurrent(cur: Grid, prev: Grid, pins: Pins, dt: real): (r: Grid)
    requires cur.Keys <= prev.Keys
    ensures r.Keys == cur.Keys
  {
    map c | c in cur :: if c in pins then cur[c] else Advance(cur[c], prev[c], dt)
  }

  /** Previous positions after integration: a free cell remembers where it
      was, a pinned cell's previous position stays. */
  function IntegratePrevious(cur: Grid, prev: Grid, pins: Pins): (r: Grid)
    requires cur.Keys <= prev.Keys
    ensures r.Keys == cur.Keys
  {
    map c | c in cur :: if c in pins then prev[c] else cur[c]
  }

  // ---------------------------------------------------------------------
  // Spring correction

  predicate Anchored(springs: seq<Spring>, cells: set<Cell>) {
    forall s | s in springs :: s.a in cells && s.b in cells
  }

  /** One spring correction: if the endpoints are a positive distance
      apart, each free endpoint moves half of the excess length towards
      (or, if the spring is compressed, away from) the other. A spring with
      an end off the grid is skipped; the generated springs have none
      (Topology.LatticeWellFormed). */
  function ApplySpring(g: Grid, s: Spring, pins: Pins, norm: Norm): Grid {
    if s.a !in g || s.b !in g then g else
    var delta := Sub(g[s.b], g[s.a]);
    var dist := norm[delta];
    if dist > 0.0 then
      var diff := (dist - s.rest) / dist;
      var correction := Scale(Scale(delta, 0.5), diff);
      var g1 := if s.a in pins then g else g[s.a := Add(g[s.a], correction)];
      if s.b in pins then g1 else g1[s.b := Sub(g1[s.b], correction)]
    else
      g
  }

  /** The grid after correcting the first k springs in list order. */
  function SpringsUpTo(g: Grid, springs: seq<Spring>, k: nat, pins: Pins, norm: Norm): Grid
    requires k <= |springs|
    decreases k
  {
    if k == 0 then g
    else ApplySpring(SpringsUpTo(g, springs, k - 1, pins, norm), springs[k - 1], pins, norm)
  }

  function SpringPass(g: Grid, springs: seq<Spring>, pins: Pins, norm: Norm): Grid {
    SpringsUpTo(g, springs, |springs|, pins, norm)
  }

  // ---------------------------------------------------------------------
  // Pins and ground

  /** Every pinned cell is moved onto its target. */
  function PinPass(g: Grid, pins: Pins): Grid {
    map c | c in g :: if c in pins then pins[c] else g[c]
  }

  /** `np.maximum(points[:, :, 1], 0.0)`: heights below the ground level are raised to it. */
  function ClampToGround(v: Vec3): (r: Vec3)
    ensures r.y >= GroundLevel && r.x == v.x && r.z == v.z
    ensures v.y >= GroundLevel ==> r == v
    ensures v.y < GroundLevel ==> r.y == GroundLevel
  {
    Vec3(v.x, if v.y >= GroundLevel then v.y else GroundLevel, v.z)
  }

  function GroundPass(g: Grid): Grid {
    map c | c in g :: ClampToGround(g[c])
  }

  // ---------------------------------------------------------------------
  // Relaxation and the whole update

  /** One relaxation pass: springs, then pins, then the ground. */
  function RelaxPass(g: Grid, springs: seq<Spring>, pins: Pins, norm: Norm): Grid {
    GroundPass(PinPass(SpringPass(g, springs, pins, norm), pins))
  }

  /** `passes` relaxation passes in a row. */
  function Relax(g: Grid, springs: seq<Spring>, pins: Pins, norm: Norm, passes: nat): Grid
    decreases passes
  {
    if passes == 0 then g
    else RelaxPass(Relax(g, springs, pins, norm, passes - 1), springs, pins, norm)
  }

  /** The current and previous grids after one `update(dt)`. */
  function Tick(cur: Grid, prev: Grid, springs: seq<Spring>, pins: Pins, dt: real, norm: Norm): (Grid, Grid)
    requires cur.Keys <= prev.Keys
  {
    (Relax(IntegrateCurrent(cur, prev, pins, dt), springs, pins, norm, SolverIterations),
     IntegratePrevious(cur, prev, pins))
  }

  // ---------------------------------------------------------------------
  // What the update guarantees

  /** Integration leaves both positions of a pinned cell alone; a free
      cell's previous position becomes its pre-step position and its
      velocity grows by `g dt^2`. */
  lemma IntegrateSkipsPinned(cur: Grid, prev: Grid, pins: Pins, dt: real)
    requires cur.Keys <= prev.Keys
    ensures forall c | c in cur && c in pins ::
      IntegrateCurrent(cur, prev, pins, dt)[c] == cur[c] && IntegratePrevious(cur, prev, pins)[c] == prev[c]
    ensures forall c | c in cur && c !in pins ::
      && IntegratePrevious(cur, prev, pins)[c] == cur[c]
      && Sub(IntegrateCurrent(cur, prev, pins, dt)[c], cur[c]) == Add(Sub(cur[c], prev[c]), Scale(Gravity, dt * dt))
  {
  }

  /** The spring corrections move cells but never add or remove one. */
  lemma {:induction false} SpringsKeepCells(g: Grid, springs: seq<Spring>, k: nat, pins: Pins, norm: Norm)
    requires k <= |springs|
    ensures SpringsUpTo(g, springs, k, pins, norm).Keys == g.Keys
    decreases k
  {
    if k > 0 {
      SpringsKeepCells(g, springs, k - 1, pins, norm);
    }
  }

  /** Any number of relaxation passes keeps exactly the cells of the sheet. */
  lemma {:induction false} RelaxKeepsCells(g: Grid, springs: seq<Spring>, pins: Pins, norm: Norm, passes: nat)
    ensures Relax(g, springs, pins, norm, passes).Keys == g.Keys
    decreases passes
  {
    if passes > 0 {
      var before := Relax(g, springs, pins, norm, passes - 1);
      RelaxKeepsCells(g, springs, pins, norm, passes - 1);
      SpringsKeepCells(before, springs, |springs|, pins, norm);
    }
  }

  /** No spring correction ever moves a pinned cell. */
  lemma {:induction false} SpringsKeepPinned(g: Grid, springs: seq<Spring>, k: nat, pins: Pins, norm: Norm)
    requires k <= |springs|
    ensures forall c | c in g && c in pins ::
      c in SpringsUpTo(g, springs, k, pins, norm) && SpringsUpTo(g, springs, k, pins, norm)[c] == g[c]
    decreases k
  {
    if k > 0 {
      SpringsKeepPinned(g, springs, k - 1, pins, norm);
    }
  }

  /** A spring whose endpoints are not a positive distance apart is skipped. */
  lemma DegenerateSpringSkipped(g: Grid, s: Spring, pins: Pins, norm: Norm)
    requires s.a in g && s.b in g
    requires norm[Sub(g[s.b], g[s.a])] <= 0.0
    ensures ApplySpring(g, s, pins, norm) == g
  {
  }

  /** What a norm promises: it is never negative, and zero exactly on the zero vector. */
  ghost predicate IsNorm(norm: Norm) {
    forall v :: norm[v] >= 0.0 && (norm[v] == 0.0 <==> v == Zero)
  }

  /** Positive homogeneity of a norm: scaling by k >= 0 scales the length by k. */
  ghost predicate Homogeneous(norm: Norm) {
    forall v, k | k >= 0.0 :: norm[Scale(v, k)] == k * norm[v]
  }

  /** With a true norm, a spring whose endpoints coincide changes nothing. */
  lemma CoincidentSpringSkipped(g: Grid, s: Spring, pins: Pins, norm: Norm)
    requires IsNorm(norm) && s.a in g && s.b in g && g[s.a] == g[s.b]
    ensures ApplySpring(g, s, pins, norm) == g
  {
    assert Sub(g[s.b], g[s.a]) == Zero;
  }

  /** x * k == 0 with k > 0 forces x == 0. */
  lemma CancelPositive(x: real, k: real)
    requires k > 0.0 && x * k == 0.0
    ensures x == 0.0
  {
  }

  lemma Quotients(dist: real, rest: real)
    requires dist > 0.0
    ensures 1.0 - (dist - rest) / dist == rest / dist
    ensures 1.0 - ((dist - rest) / dist) / 2.0 == (dist + rest) / (2.0 * dist)
  {
    var d, q := (dist - rest) / dist, rest / dist;
    assert d * dist == dist - rest;
    assert q * dist == rest;
    assert (1.0 - d - q) * dist == dist - d * dist - q * dist;
    CancelPositive(1.0 - d - q, dist);
    var h := (dist + rest) / (2.0 * dist);
    assert h * (2.0 * dist) == dist + rest;
    assert (1.0 - d / 2.0 - h) * (2.0 * dist) == 2.0 * dist - d * dist - h * (2.0 * dist);
    CancelPositive(1.0 - d / 2.0 - h, 2.0 * dist);
  }

  lemma ScaleCombine(v: Vec3, p: real, q: real)
    ensures Sub(v, Scale(Scale(Scale(v, 0.5), p), 2.0)) == Scale(v, 1.0 - p)
    ensures Sub(v, Scale(Scale(v, 0.5), p)) == Scale(v, 1.0 - p / 2.0)
  {
  }

  /** Correcting a spring whose two ends are free keeps their midpoint and
      scales the vector between them by rest / dist, so with a homogeneous
      norm the spring ends exactly at its rest length. */
  lemma FreeSpringReachesRest(g: Grid, s: Spring, pins: Pins, norm: Norm)
    requires s.a in g && s.b in g && s.a != s.b && s.a !in pins && s.b !in pins
    requires norm[Sub(g[s.b], g[s.a])] > 0.0
    ensures var r, delta, dist := ApplySpring(g, s, pins, norm), Sub(g[s.b], g[s.a]), norm[Sub(g[s.b], g[s.a])];
      && Add(r[s.a], r[s.b]) == Add(g[s.a], g[s.b])
      && Sub(r[s.b], r[s.a]) == Scale(delta, s.rest / dist)
      && (Homogeneous(norm) && s.rest >= 0.0 ==> norm[Sub(r[s.b], r[s.a])] == s.rest)
  {
    var r, delta, dist := ApplySpring(g, s, pins, norm), Sub(g[s.b], g[s.a]), norm[Sub(g[s.b], g[s.a])];
    var diff := (dist - s.rest) / dist;
    var correction := Scale(Scale(delta, 0.5), diff);
    assert r[s.a] == Add(g[s.a], correction) && r[s.b] == Sub(g[s.b], correction);
    assert Sub(r[s.b], r[s.a]) == Sub(delta, Scale(correction, 2.0));
    ScaleCombine(delta, diff, 0.0);
    Quotients(dist, s.rest);
    if Homogeneous(norm) && s.rest >= 0.0 {
      assert norm[Scale(delta, s.rest / dist)] == (s.rest / dist) * dist;
    }
  }

  /** Correcting a spring whose first end is pinned moves the free end so
      that the spring's excess length is halved: with a homogeneous norm the new
      length minus the rest length is half the old one. */
  lemma PinnedSpringHalvesError(g: Grid, s: Spring, pins: Pins, norm: Norm)
    requires s.a in g && s.b in g && s.a != s.b && s.a in pins && s.b !in pins
    requires norm[Sub(g[s.b], g[s.a])] > 0.0
    ensures var r, delta, dist := ApplySpring(g, s, pins, norm), Sub(g[s.b], g[s.a]), norm[Sub(g[s.b], g[s.a])];
      && r[s.a] == g[s.a]
      && Sub(r[s.b], r[s.a]) == Scale(delta, (dist + s.rest) / (2.0 * dist))
      && (Homogeneous(norm) && s.rest >= 0.0 ==> norm[Sub(r[s.b], r[s.a])] - s.rest == (dist - s.rest) / 2.0)
  {
    var r, delta, dist := ApplySpring(g, s, pins, norm), Sub(g[s.b], g[s.a]), norm[Sub(g[s.b], g[s.a])];
    var diff := (dist - s.rest) / dist;
    var correction := Scale(Scale(delta, 0.5), diff);
    assert r[s.b] == Sub(g[s.b], correction);
    assert Sub(r[s.b], r[s.a]) == Sub(delta, correction);
    ScaleCombine(delta, diff, 0.0);
    Quotients(dist, s.rest);
    if Homogeneous(norm) && s.rest >= 0.0 {
      var k := (dist + s.rest) / (2.0 * dist);
      assert norm[Scale(delta, k)] == k * dist;
    }
  }

  /** The mirror case: with the second end pinned, only the first end
      moves, and again the spring's excess length is halved. */
  lemma PinnedSecondEndHalvesError(g: Grid, s: Spring, pins: Pins, norm: Norm)
    requires s.a in g && s.b in g && s.a != s.b && s.a !in pins && s.b in pins
    requires norm[Sub(g[s.b], g[s.a])] > 0.0
    ensures var r, delta, dist := ApplySpring(g, s, pins, norm), Sub(g[s.b], g[s.a]), norm[Sub(g[s.b], g[s.a])];
      && r[s.b] == g[s.b]
      && Sub(r[s.b], r[s.a]) == Scale(delta, (dist + s.rest) / (2.0 * dist))
      && (Homogeneous(norm) && s.rest >= 0.0 ==> norm[Sub(r[s.b], r[s.a])] - s.rest == (dist - s.rest) / 2.0)
  {
    var r, delta, dist := ApplySpring(g, s, pins, norm), Sub(g[s.b], g[s.a]), norm[Sub(g[s.b], g[s.a])];
    var diff := (dist - s.rest) / dist;
    var correction := Scale(Scale(delta, 0.5), diff);
    assert r[s.a] == Add(g[s.a], correction);
    assert Sub(r[s.b], r[s.a]) == Sub(delta, correction);
    ScaleCombine(delta, diff, 0.0);
    Quotients(dist, s.rest);
    if Homogeneous(norm) && s.rest >= 0.0 {
      var k := (dist + s.rest) / (2.0 * dist);
      assert norm[Scale(delta, k)] == k * dist;
    }
  }

  /** After every relaxation pass each cell is on or above the ground and
      each pinned cell is at its target, raised to the ground if the target
      lies below it: the pins are applied after the springs and the ground
      clamp after the pins. */
  lemma RelaxPassEnforces(g: Grid, springs: seq<Spring>, pins: Pins, norm: Norm)
    ensures RelaxPass(g, springs, pins, norm).Keys == g.Keys
    ensures forall c | c in g :: RelaxPass(g, springs, pins, norm)[c].y >= GroundLevel
    ensures forall c | c in g && c in pins :: RelaxPass(g, springs, pins, norm)[c] == ClampToGround(pins[c])
  {
    SpringsKeepCells(g, springs, |springs|, pins, norm);
  }

  /** What one `update` guarantees, whatever the springs and the norm do:
      every cell ends on or above the ground; a pinned cell ends at its
      target (exactly, when the target is not below the ground) and keeps
      its previous position; a free cell's previous position is its
      position before the update. */
  lemma TickInvariants(cur: Grid, prev: Grid, springs: seq<Spring>, pins: Pins, dt: real, norm: Norm)
    requires cur.Keys <= prev.Keys
    ensures var r := Tick(cur, prev, springs, pins, dt, norm);
      && r.0.Keys == cur.Keys && r.1.Keys == cur.Keys
      && (forall c | c in cur :: r.0[c].y >= GroundLevel)
      && (forall c | c in cur && c in pins :: r.0[c] == ClampToGround(pins[c]) && r.1[c] == prev[c])
      && (forall c | c in cur && c in pins && pins[c].y >= GroundLevel :: r.0[c] == pins[c])
      && (forall c | c in cur && c !in pins :: r.1[c] == cur[c])
  {
    var integrated := IntegrateCurrent(cur, prev, pins, dt);
    RelaxKeepsCells(integrated, springs, pins, norm, SolverIterations - 1);
    RelaxPassEnforces(Relax(integrated, springs, pins, norm, SolverIterations - 1), springs, pins, norm);
  }

  /** With every pin of the sheet on or above the ground, as the stake and
      lift keys place them, an update leaves every pinned cell exactly at
      its target. */
  lemma TickHoldsPins(cur: Grid, prev: Grid, springs: seq<Spring>, pins: Pins, dt: real, norm: Norm)
    requires cur.Keys <= prev.Keys && pins.Keys <= cur.Keys
    requires forall c | c in pins :: pins[c].y >= GroundLevel
    ensures var r := Tick(cur, prev, springs, pins, dt, norm);
      forall c | c in pins :: c in r.0 && r.0[c] == pins[c]
  {
    TickInvariants(cur, prev, springs, pins, dt, norm);
  }
}
