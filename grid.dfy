/**
 * Grid snapping (static/engine.js:2, 13-15). `snap(val)` is
 * `Math.round(val / 20) * 20`; `Math.round` rounds halves towards +infinity,
 * i.e. it is floor(x + 1/2), which on integer input is floor((v + 10) / 20).
 * Dafny's `/` with a positive divisor is floor division.
 */
module Grid {
  const GRID_SIZE: int := 20

  /** The multiple of the grid unit nearest to `v`, halves rounded up. */
  function Snap(v: int): (r: int)
    ensures r % GRID_SIZE == 0
    ensures v - GRID_SIZE / 2 < r <= v + GRID_SIZE / 2
  {
    ((v + 10) / 20) * 20
  }

  /**
   * The postcondition of Snap pins its result down: the only grid multiple in
   * the window (v - 10, v + 10] is Snap(v).
   */
  lemma SnapUnique(v: int, m: int)
    requires m % GRID_SIZE == 0
    requires v - GRID_SIZE / 2 < m <= v + GRID_SIZE / 2
    ensures Snap(v) == m
  {
    var r := Snap(v);
    assert r == (r / 20) * 20 && m == (m / 20) * 20;
    assert -20 < r - m < 20;
    assert -20 < (r / 20 - m / 20) * 20 < 20;
    assert r / 20 == m / 20;
  }

  /** Snapping an aligned value changes nothing; in particular snap is idempotent. */
  lemma SnapAligned(v: int)
    requires v % GRID_SIZE == 0
    ensures Snap(v) == v
  {
    SnapUnique(v, v);
  }

  lemma SnapIdempotent(v: int)
    ensures Snap(Snap(v)) == Snap(v)
  {
    SnapAligned(Snap(v));
  }

  /** Snapping never reverses the order of two coordinates. */
  lemma SnapMonotone(a: int, b: int)
    requires a <= b
    ensures Snap(a) <= Snap(b)
  {
    assert (a + 10) / 20 <= (b + 10) / 20;
  }

  /** Moving by whole grid cells moves the snapped value by the same amount. */
  lemma SnapShift(v: int, k: int)
    ensures Snap(v + k * GRID_SIZE) == Snap(v) + k * GRID_SIZE
  {
    SnapUnique(v + k * GRID_SIZE, Snap(v) + k * GRID_SIZE);
  }
}
