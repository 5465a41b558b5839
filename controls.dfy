/** The keyboard rules of the main loop of code.py (lines 224-251): the
    arrow keys move the selection around the nine tie-outs, S, L and U
    stake, lift and unpin the selected tie-out, R resets the sheet and the
    space bar pauses the simulation. One frame of the loop then updates the
    sheet unless it is paused (lines 254-255). */
module Controls {
  import opened Vectors
  import opened Grids
  import opened Config
  import opened PinTable
  import opened TieOuts
  import opened Physics
  import opened Layout
  import opened Simulation

  /** The keys the loop reacts to; every other key only leaves the state as it is. */
  datatype Key = LeftArrow | RightArrow | StakeKey | LiftKey | UnpinKey | ResetKey | PauseKey | OtherKey

  /** The selected tie-out index after a key press: Python's `% 9`, which
      with a positive divisor agrees with Dafny's Euclidean `%`. */
  function Select(selected: int, key: Key): (r: int)
    ensures 0 <= r < 9
    ensures 0 <= selected < 9 && key == LeftArrow ==> r == (if selected == 0 then 8 else selected - 1)
    ensures 0 <= selected < 9 && key == RightArrow ==> r == (if selected == 8 then 0 else selected + 1)
    ensures 0 <= selected < 9 && key != LeftArrow && key != RightArrow ==> r == selected
  {
    match key
    case LeftArrow => (selected - 1) % 9
    case RightArrow => (selected + 1) % 9
    case _ => selected % 9
  }

  /** The selection after `count` presses of the same key. */
  function Presses(selected: int, key: Key, count: nat): (r: int)
    ensures 0 <= r < 9
  {
    if count == 0 then selected % 9 else Select(Presses(selected, key, count - 1), key)
  }

  /** Pressing the right arrow `count` times moves the selection `count`
      places forward, cyclically. */
  lemma {:induction false} RightPresses(selected: int, count: nat)
    ensures Presses(selected, RightArrow, count) == (selected + count) % 9
  {
    if count > 0 {
      RightPresses(selected, count - 1);
      ModNine(selected + count - 1);
    }
  }

  /** Pressing the left arrow `count` times moves the selection `count`
      places back, cyclically. */
  lemma {:induction false} LeftPresses(selected: int, count: nat)
    ensures Presses(selected, LeftArrow, count) == (selected - count) % 9
  {
    if count > 0 {
      LeftPresses(selected, count - 1);
      ModNine(selected - count + 1);
    }
  }

  /** Taking the remainder first does not change the next remainder. */
  lemma ModNine(x: int)
    ensures ((x % 9) + 1) % 9 == (x + 1) % 9
    ensures ((x % 9) - 1) % 9 == (x - 1) % 9
  {
    var q, r := x / 9, x % 9;
    assert x == 9 * q + r;
    if r == 8 {
      assert x + 1 == 9 * (q + 1);
    }
    if r == 0 {
      assert x - 1 == 9 * (q - 1) + 8;
    }
  }

  /** How many right-arrow presses lead from one selection to another. */
  function Distance(from: int, to: int): (m: nat)
    requires 0 <= from < 9 && 0 <= to < 9
    ensures m < 9 && (from + m) % 9 == to
  {
    if from <= to then to - from else to - from + 9
  }

  /** Every one of the nine tie-outs is reached from any selection within
      eight presses of the right arrow, and nine presses bring the
      selection back. */
  lemma SelectionCycles(selected: int)
    requires 0 <= selected < 9
    ensures forall k | 0 <= k < 9 :: Presses(selected, RightArrow, Distance(selected, k)) == k
    ensures Presses(selected, RightArrow, 9) == selected
  {
    forall k | 0 <= k < 9
      ensures Presses(selected, RightArrow, Distance(selected, k)) == k
    {
      RightPresses(selected, Distance(selected, k));
    }
    RightPresses(selected, 9);
  }

  /** The left arrow undoes the right arrow, and the other way round. */
  lemma SelectInverse(selected: int)
    requires 0 <= selected < 9
    ensures Select(Select(selected, RightArrow), LeftArrow) == selected
    ensures Select(Select(selected, LeftArrow), RightArrow) == selected
  {
  }

  /** One KEYDOWN event. The tie-out the pin keys act on is the one selected
      before the key is handled. */
  method HandleKey(tarp: Tarp, selected: int, paused: bool, key: Key) returns (selected': int, paused': bool)
    requires tarp.Valid() && 0 <= selected < 9
    modifies tarp, tarp.points
    ensures tarp.Valid() && tarp.points == old(tarp.points)
    ensures selected' == Select(selected, key)
    ensures paused' == (if key == PauseKey then !paused else paused)
    ensures key == StakeKey ==>
      var c := TieOutIndices(tarp.n)[selected];
      tarp.pinned == PinIfAbsent(old(tarp.pinned), c, WithY(old(tarp.points[c.i, c.j]), GroundLevel))
    ensures key == LiftKey ==>
      var c := TieOutIndices(tarp.n)[selected];
      tarp.pinned == PinIfAbsent(old(tarp.pinned), c, WithY(old(tarp.points[c.i, c.j]), PoleHeight))
    ensures key == UnpinKey ==> tarp.pinned == UnpinIfPresent(old(tarp.pinned), TieOutIndices(tarp.n)[selected])
    ensures key == ResetKey ==>
      && tarp.pinned == map[]
      && tarp.Current() == FlatLayout(tarp.n, tarp.size)
      && tarp.Previous() == tarp.Current()
    ensures key != ResetKey ==> tarp.oldPoints == old(tarp.oldPoints) && tarp.Current() == old(tarp.Current())
    ensures key !in {StakeKey, LiftKey, UnpinKey, ResetKey} ==> tarp.pinned == old(tarp.pinned)
  {
    var current := TieOutIndices(tarp.n)[selected];
    selected' := Select(selected, key);
    paused' := paused;
    match key
    case StakeKey => tarp.Stake(current);
    case LiftKey => tarp.Lift(current);
    case UnpinKey => tarp.Unpin(current);
    case ResetKey => tarp.Reset();
    case PauseKey => paused' := !paused;
    case _ =>
  }

  /** The physics part of one frame: the sheet advances by dt unless paused. */
  method Frame(tarp: Tarp, paused: bool, dt: real, norm: Norm)
    requires tarp.Valid()
    modifies tarp.points, tarp.oldPoints
    ensures tarp.Valid()
    ensures paused ==> tarp.Current() == old(tarp.Current()) && tarp.Previous() == old(tarp.Previous())
    ensures !paused ==>
      (tarp.Current(), tarp.Previous()) == Tick(old(tarp.Current()), old(tarp.Previous()), tarp.springs, tarp.pinned, dt, norm)
    ensures !paused ==> forall c | c in tarp.pinned :: tarp.Current()[c] == tarp.pinned[c]
  {
    if !paused {
      tarp.Update(dt, norm);
    }
  }
}
