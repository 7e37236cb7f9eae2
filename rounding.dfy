/** `round(sim, 3)`: the similarity a kept sentence pair stores. */
module Rounding {

  /** Rounds to the nearest multiple of 0.001, halves rounding up. */
  function Round3(x: real): (r: real)
    ensures x - 0.0005 < r <= x + 0.0005
  {
    ((x * 1000.0 + 0.5).Floor as real) / 1000.0
  }

  /** A value that is already a multiple of 0.001. */
  predicate OnGrid(x: real) {
    Round3(x) == x
  }

  /** Rounding never reverses the order of two values. */
  lemma Round3Monotone(x: real, y: real)
    requires x <= y
    ensures Round3(x) <= Round3(y)
  {
    var a := (x * 1000.0 + 0.5).Floor;
    var b := (y * 1000.0 + 0.5).Floor;
    assert a as real <= x * 1000.0 + 0.5 <= y * 1000.0 + 0.5 < b as real + 1.0;
    assert a <= b;
    assert Round3(x) == a as real / 1000.0 && Round3(y) == b as real / 1000.0;
  }

  /** Rounding a rounded value changes nothing. */
  lemma Round3Idempotent(x: real)
    ensures OnGrid(Round3(x))
  {
    var n := (x * 1000.0 + 0.5).Floor;
    assert Round3(x) * 1000.0 == n as real;
    assert (n as real + 0.5).Floor == n;
  }

  /** A cosine similarity in [0, 1] stays in [0, 1] once rounded. */
  lemma Round3UnitInterval(x: real)
    requires 0.0 <= x <= 1.0
    ensures 0.0 <= Round3(x) <= 1.0
  {
    Round3Monotone(0.0, x);
    Round3Monotone(x, 1.0);
    assert Round3(0.0) == 0.0 && Round3(1.0) == 1.0;
  }

  /** A value at or above a threshold that is a multiple of 0.001 is still at
      or above it once rounded. */
  lemma Round3KeepsGridThreshold(x: real, threshold: real)
    requires OnGrid(threshold) && x >= threshold
    ensures Round3(x) >= threshold
  {
    Round3Monotone(threshold, x);
  }

  /** Without `OnGrid(threshold)` the guarantee of `Round3KeepsGridThreshold`
      fails: 0.6504 is not a multiple of 0.001, and a raw similarity of
      exactly 0.6504 passes `sim >= 0.6504` but is stored as 0.65. */
  lemma Round3CanDropBelowFineThreshold()
    ensures !OnGrid(0.6504) && Round3(0.6504) == 0.65 && Round3(0.6504) < 0.6504
  {
    assert (0.6504 * 1000.0 + 0.5).Floor == 650;
  }
}
