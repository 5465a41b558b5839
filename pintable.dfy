/** The pin table: a dictionary from a grid cell to the fixed target
    position of that cell (`pinned_points` in code.py). The key handlers
    only ever insert a key that is absent and delete a key that is
    present; both are no-ops otherwise (code.py lines 232-246). */
module PinTable {
  import opened Vectors
  import opened Grids

  type Pins = map<Cell, Vec3>

  /** Pins `c` at `target` unless it is pinned already, in which case the
      existing target is kept. */
  function PinIfAbsent(pins: Pins, c: Cell, target: Vec3): (r: Pins)
    ensures r.Keys == pins.Keys + {c}
    ensures c in pins ==> r == pins
    ensures c !in pins ==> r[c] == target
    ensures forall d | d in pins :: r[d] == pins[d]
  {
    if c in pins then pins else pins[c := target]
  }

  /** Removes the pin of `c` if it has one. */
  function UnpinIfPresent(pins: Pins, c: Cell): (r: Pins)
    ensures r.Keys == pins.Keys - {c}
    ensures c !in pins ==> r == pins
    ensures forall d | d in r :: r[d] == pins[d]
  {
    if c in pins then pins - {c} else pins
  }

  /** Pinning a free cell and unpinning it again restores the table. */
  lemma UnpinUndoesPin(pins: Pins, c: Cell, target: Vec3)
    requires c !in pins
    ensures UnpinIfPresent(PinIfAbsent(pins, c, target), c) == pins
  {
  }

  /** Unpinning a pinned cell and pinning it again at its old target
      restores the table. */
  lemma PinUndoesUnpin(pins: Pins, c: Cell)
    requires c in pins
    ensures PinIfAbsent(UnpinIfPresent(pins, c), c, pins[c]) == pins
  {
  }

  /** A second stake or lift of the same cell changes nothing: the first
      target stays. */
  lemma PinIdempotent(pins: Pins, c: Cell, first: Vec3, second: Vec3)
    ensures PinIfAbsent(PinIfAbsent(pins, c, first), c, second) == PinIfAbsent(pins, c, first)
  {
  }
}
