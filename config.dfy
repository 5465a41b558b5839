/** The tuning constants of the simulator (code.py lines 9-13) and the
    fixed heights used by reset and by the stake and lift keys. */
module Config {
  import opened Vectors

  /** TARP_SIZE: the side of the square sheet, in metres. */
  const TarpSize: real := 3.0
  /** POINTS_PER_AXIS: the sheet is a PointsPerAxis x PointsPerAxis grid. */
  const PointsPerAxis: nat := 17
  /** SOLVER_ITERATIONS: relaxation passes per update. */
  const SolverIterations: nat := 5
  /** GRAVITY: constant acceleration added by every integration step. */
  const Gravity: Vec3 := Vec3(0.0, -9.8, 0.0)
  /** POLE_HEIGHT: target height of a lifted tie-out. */
  const PoleHeight: real := 1.2
  /** Height at which reset lays the sheet out flat. */
  const ResetHeight: real := 3.0
  /** Target height of a staked tie-out; also the ground clamp level. */
  const GroundLevel: real := 0.0
}
