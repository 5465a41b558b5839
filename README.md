# Tarp simulator: the physics kernel in Dafny

This project models the physics core of a small interactive tarp simulator.
It covers the `Tarp` class of `code.py` and the keyboard rules of its main
loop. The cloth is an N x N grid of particles joined by springs:

- the particles move by Verlet integration under gravity;
- the springs are relaxed a fixed number of times per frame;
- pinned particles are held at their targets;
- no particle goes below the ground plane.

The user walks a selection around the nine tie-outs (four corners, four edge
midpoints and the centre). The selected tie-out can be staked to the ground,
lifted on a pole or unpinned. The sheet can be reset.

Layout of the model:

- `vectors.dfy` (`Vectors`): 3-vectors over `real` and the few operations the kernel uses.
- `config.dfy` (`Config`): the constants of `code.py`.
- `grid.dfy` (`Grids`): cells `(i, j)`, the set of cells of an n x n sheet, and grid values `map<Cell, Vec3>`.
- `topology.dfy` (`Topology`): the spring list the constructor generates, with the method that builds it. Also lemmas about its size, the kinds of its springs, and the fact that it misses no neighbour pair.
- `tieouts.dfy` (`TieOuts`): `get_tieout_indices`.
- `pintable.dfy` (`PinTable`): the pin dictionary and its insert-if-absent and delete-if-present updates.
- `physics.dfy` (`Physics`): one `update` stated on grid values (integration, spring pass, pin pass, ground pass). Lemmas state what an update guarantees.
- `layout.dfy` (`Layout`): the flat layout `reset` produces, and the fact that every spring is at rest in it.
- `tarp.dfy` (`Simulation`): the `Tarp` class itself.
  - Its fields are the two `array2<Vec3>` position grids, updated in place, and the pin table.
  - `Update` and its parts are proved against the grid-value functions of `Physics`, and `Reset` against `Layout`, through the ghost views `Current()` and `Previous()`.
  - `Stake`, `Lift` and `Unpin` are proved against the pin-table updates of `PinTable`.
  - The invariant `Valid()` includes that every pin target is on or above the ground, as the S and L keys place them.
- `controls.dfy` (`Controls`): the KEYDOWN handler `HandleKey` (selection, stake, lift, unpin, reset, pause) and `Frame`, the physics half of one frame. Both act on a `Tarp` through its methods.

Two values the original takes from numpy are parameters here:

- The Euclidean norm `np.linalg.norm` is the parameter `norm` of `Update`, a value of type `Norm`: a map that gives every vector a length. Lemmas that need it to behave like a norm say so (`IsNorm`, `Homogeneous`).
- `np.sqrt(2)` is the constructor parameter `root2`. Lemmas that need it to be the square root of two require `root2 * root2 == 2.0`.

## Model

| member | source | states |
|---|---|---|
| Topology.Step | code.py:26 | the lattice step times N-1 is the tarp size, and it is positive for a positive size |
| Topology.ShearRest | code.py:36-37 | the shear rest length squared is twice the step squared whenever root2 is the square root of two |
| Topology.CellSprings | code.py:29-37 | definition: the springs emitted for cell (i, j), in order: down when a row lies below, right when a column lies to the right, then the two shear springs of the square when both exist |
| Topology.RowSprings | code.py:28-37 | definition: the springs of cells (i, 0) to (i, j - 1), in column order |
| Topology.LatticeRows | code.py:27-37 | definition: the springs of rows 0 to i - 1, in row order |
| Topology.Lattice | code.py:24-37 | definition: the whole list `self.springs` of an N x N sheet |
| Topology.BuildSprings | code.py:24-37 | the nested generator loops produce exactly `Lattice(N, step, sqrt2*step)`: per cell, the spring down, the spring right, then the two shear springs, in that order |
| Topology.LatticeCount | code.py:27-37 | an N x N sheet has 2N(N-1) structural and 2(N-1)^2 shear springs |
| Topology.LatticeSize | code.py:27-37 | the spring list has 2N(N-1) + 2(N-1)^2 entries |
| Topology.KindsPartition | code.py:29-37 | every spring is structural or shear, never both, so the two counts add up to the list length |
| Topology.LatticeWellFormed | code.py:27-37 | every spring joins two cells of the sheet; a structural one joins orthogonal neighbours at rest length step, a shear one joins diagonal neighbours at rest length sqrt2*step |
| Topology.LatticeComplete | code.py:30-37 | the generator misses no pair: every cell with a neighbour below, to the right, or diagonally has the corresponding spring (both diagonals) in the list |
| TieOuts.TieOutIndices | code.py:50-58 | nine cells: the corners, the centre at the middle index rounded down (Python `//`), and the edge midpoints sharing its row or column; all on the sheet for N >= 1 |
| TieOuts.TieOutsDistinct | code.py:50-58 | on a sheet of at least 3 x 3 the nine tie-outs are pairwise different |
| TieOuts.TieOutsOfTwo | code.py:50-58 | on a 2 x 2 sheet the tie-outs collapse onto the four corners |
| TieOuts.TieOutsOfSeventeen | code.py:10 | for the simulator's 17 x 17 sheet the tie-outs are rows and columns 0, 8 and 16 |
| PinTable.PinIfAbsent | code.py:233-236 | pinning adds the cell with the given target if it is absent and leaves an existing pin untouched |
| PinTable.UnpinIfPresent | code.py:245-246 | unpinning removes exactly the cell's entry and keeps every other pin |
| PinTable.UnpinUndoesPin | code.py:232-246 | pinning a free cell and unpinning it restores the table |
| PinTable.PinUndoesUnpin | code.py:232-246 | unpinning a pinned cell and pinning it again at its old target restores the table |
| PinTable.PinIdempotent | code.py:232-242 | a second stake or lift of a pinned cell changes nothing; the first target stays |
| Physics.Advance | code.py:66-69 | the Verlet step keeps the implicit velocity cur - prev and adds g dt^2 to it |
| Physics.IntegrateCurrent | code.py:63-68 | integration is defined on every cell of the sheet and on no other |
| Physics.IntegratePrevious | code.py:63-69 | the remembered positions are defined on every cell of the sheet and on no other |
| Physics.ApplySpring | code.py:74-86 | definition: one spring correction; with dist the norm of p2 - p1, if dist > 0 each unpinned end moves by delta * 0.5 * (dist - rest) / dist, the second end read after the first has moved |
| Physics.SpringsUpTo | code.py:74-86 | definition: the first k springs of the list corrected in list order |
| Physics.SpringPass | code.py:74-86 | definition: every spring of the list corrected in list order |
| Physics.PinPass | code.py:88-90 | definition: every pinned cell set to its target, every other cell kept |
| Physics.ClampToGround | code.py:92-93 | the height becomes max(y, 0); x and z are untouched; a point on or above the ground is unchanged |
| Physics.GroundPass | code.py:92-93 | definition: every cell clamped to the ground |
| Physics.RelaxPass | code.py:72-93 | definition: one solver iteration, the spring pass, then the pin pass, then the ground pass |
| Physics.Relax | code.py:72-93 | definition: the given number of solver iterations in a row |
| Physics.Tick | code.py:60-93 | definition: one update; integration, then SolverIterations solver iterations on the current grid, with the previous grid as integration left it |
| Physics.IntegrateSkipsPinned | code.py:63-69 | integration leaves both positions of a pinned cell alone; a free cell remembers its pre-step position and its velocity grows by g dt^2 |
| Physics.SpringsKeepCells | code.py:74-86 | the spring corrections move cells of the sheet but never add or remove one |
| Physics.SpringsKeepPinned | code.py:83-86 | no spring correction ever moves a pinned cell, after any number of springs of the list |
| Physics.RelaxKeepsCells | code.py:72-93 | any number of relaxation passes keeps exactly the cells of the sheet |
| Physics.DegenerateSpringSkipped | code.py:78-79 | a spring whose norm is not positive is skipped (the `dist > 0` guard) |
| Physics.CoincidentSpringSkipped | code.py:77-79 | with a true norm, a spring whose ends coincide changes nothing, so there is no division by zero |
| Physics.FreeSpringReachesRest | code.py:80-86 | correcting a spring with two free ends keeps their midpoint and scales the vector between them by rest/dist; under a homogeneous norm the spring ends at exactly its rest length |
| Physics.PinnedSpringHalvesError | code.py:80-86 | with the first end pinned, only the free end moves and the spring's excess length is halved |
| Physics.PinnedSecondEndHalvesError | code.py:80-86 | with the second end pinned, only the first end moves and the spring's excess length is halved |
| Physics.RelaxPassEnforces | code.py:72-93 | a pass keeps the sheet's cells; after it every cell is on or above the ground and every pinned cell is at its target, raised to the ground if the target is below it |
| Physics.TickInvariants | code.py:60-93 | an update keeps the sheet's cells in both grids; after it every cell is on or above the ground; a pinned cell is at its target (exactly, when the target is not underground) and keeps its previous position; a free cell's previous position is its position before the update |
| Physics.TickHoldsPins | code.py:60-93 | when every pin target is on or above the ground, an update leaves every pinned cell exactly at its target |
| Layout.LayoutPosition | code.py:44-47 | definition: cell (i, j) lies at (-size/2 + j step, 3.0, -size/2 + i step) |
| Layout.FlatLayout | code.py:45-47 | the reset layout places every cell of the sheet |
| Layout.LayoutSpan | code.py:44-47 | the flat sheet spans [-size/2, size/2] in x and z at the reset height 3.0, corner to corner |
| Layout.LayoutDelta | code.py:44-47 | in the flat layout two cells are apart by (dj*step, 0, di*step) |
| Layout.SpringAtRest | code.py:31-47 | a well-formed spring is exactly at its rest length in the flat layout (lengths compared squared) |
| Layout.LayoutAtRest | code.py:24-47 | reset leaves the sheet unstretched: every spring of the generated list is at its rest length |
| Layout.SimulatorSheet | code.py:24-37 | the simulator's sheet of POINTS_PER_AXIS = 17 points per axis has 1056 springs |
| Layout.SimulatorStep | code.py:26 | with TARP_SIZE = 3 m and 17 points per axis the step is 3/16 m |
| Simulation.CopyGrid | code.py:48 | `np.copy`: a fresh array with the same contents |
| Simulation.Tarp.constructor | code.py:17-39 | zeroed grids, the generated spring list, an empty pin table, then a reset: the sheet lies flat and at rest |
| Simulation.Tarp.Reset | code.py:41-48 | the pin table is cleared, the current grid is the flat layout, and the previous grid is a fresh copy of it, so every particle is at rest |
| Simulation.Tarp.Update | code.py:60-93 | the in-place update produces exactly `Tick` of the old grids, and every pinned cell ends exactly at its target; with `TickInvariants` this is the ground, pin and memory guarantee of one frame |
| Simulation.Tarp.Integrate | code.py:62-69 | the nested integration loop computes `IntegrateCurrent` and `IntegratePrevious` of the old grids |
| Simulation.Tarp.RelaxAll | code.py:71-93 | the constraint loop runs exactly SolverIterations relaxation passes |
| Simulation.Tarp.RelaxOnce | code.py:72-93 | one iteration (the spring pass, then the pin pass, then the ground clamp) takes a sheet that has had k relaxation passes to one that has had k + 1 |
| Simulation.Tarp.CorrectSpring | code.py:74-86 | one in-place spring correction equals `ApplySpring` on the grid value, including reading the second end after the first has moved |
| Simulation.Tarp.CorrectSprings | code.py:74-86 | the spring loop applies the corrections in list order |
| Simulation.Tarp.EnforcePins | code.py:88-90 | every pinned cell is moved onto its target, whatever order the table is traversed in |
| Simulation.Tarp.ClampGround | code.py:92-93 | every height below the ground is raised to it |
| Simulation.Tarp.Stake | code.py:232-236 | S pins the cell at its current x and z on the ground unless it is already pinned |
| Simulation.Tarp.Lift | code.py:238-242 | L pins the cell at its current x and z at pole height unless it is already pinned |
| Simulation.Tarp.Unpin | code.py:244-246 | U removes the cell's pin if it has one |
| Controls.Select | code.py:227-230 | the arrow keys move the selection one step left or right, wrapping between 0 and 8; other keys keep it |
| Controls.Presses | code.py:227-230 | definition: the selection after the same key is pressed a given number of times; the result is always in 0..8 |
| Controls.RightPresses | code.py:229-230 | m presses of the right arrow move the selection m places forward modulo 9 |
| Controls.LeftPresses | code.py:227-228 | m presses of the left arrow move the selection m places back modulo 9 |
| Controls.Distance | code.py:229-230 | the number of right-arrow presses from one selection to another is below nine and lands exactly on the target modulo 9 |
| Controls.SelectionCycles | code.py:227-230 | every tie-out is reached within eight right-arrow presses, and nine presses return to the start |
| Controls.SelectInverse | code.py:227-230 | left undoes right and right undoes left |
| Controls.HandleKey | code.py:224-251 | one KEYDOWN: the pin keys act on the tie-out selected before the key; S, L, U and R change the pin table and grids as stated; the space bar toggles pause; everything else leaves the tarp unchanged |
| Controls.Frame | code.py:253-255 | a paused frame leaves the sheet as it is; otherwise the sheet advances by one `Tick` and every pinned cell is exactly at its target |

## Left out

- Rendering is left out: OpenGL drawing, the ground plane, the UI text and `Tarp.draw`. These are output only.
- Input plumbing is left out: the pygame event pump, the mouse camera controls, the window and the clock. A key press is the `Key` argument of `HandleKey`, and `dt` is a parameter.
- Floating point is left out. Positions are exact reals, so rounding in the solver is not modelled.
- The Euclidean norm is left out. `np.linalg.norm` is the parameter `norm`, a total map from vectors to reals, and `np.sqrt(2)` is the parameter `root2`. The spring lemmas hold for any norm that satisfies their stated hypotheses.
- Physics.ApplySpring: a spring with an end off the sheet is skipped. The original would index outside the array instead. The generated springs never have such an end (`Topology.LatticeWellFormed`), so this case is unreachable from the constructor.
- Simulation.Tarp.constructor: requires at least two points per axis, which excludes three behaviours of the original. With one point it divides by zero computing the step. With zero points the division by -1 succeeds, both loops are empty, and the result is an empty sheet with no springs. With a negative count `np.zeros` raises. The model describes none of these.
- Simulation.Tarp.EnforcePins: the order in which Python iterates the dictionary is not modelled. This order is unobservable, because the pins write different cells.
- Convergence is left out. Nothing here states that repeated relaxation passes bring the sheet towards rest lengths. Only the per-spring correction is characterised (`FreeSpringReachesRest`, `PinnedSpringHalvesError`, `PinnedSecondEndHalvesError`).
