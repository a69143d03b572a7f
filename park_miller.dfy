/**
 * The Park–Miller "minimal standard" generator used by the original
 * version: `seed := (16807 * seed) mod (2^31 - 1)` (labyrinthe.py:57,
 * fourmi.py:41, fourmi.py:129, fourmi.py:186).  Python's `%` with a
 * positive modulus agrees with Dafny's Euclidean `%`; NumPy's int64 seeds
 * never overflow because 16807 * (2^31 - 2) < 2^63.
 */
module ParkMiller {

  const MULTIPLIER: int := 16807
  const MODULUS: int := 2147483647

  function Next(seed: int): (r: int)
    ensures 0 <= r < MODULUS
  {
    (MULTIPLIER * seed) % MODULUS
  }

  /** `seed` advanced `k` times. */
  function Iterate(seed: int, k: nat): int {
    if k == 0 then seed else Next(Iterate(seed, k - 1))
  }

  lemma {:induction false} IterateInRange(seed: int, k: nat)
    requires k > 0 || 0 <= seed < MODULUS
    ensures 0 <= Iterate(seed, k) < MODULUS
  {
  }

  /** Advancing `a` times and then `b` times is advancing `a + b` times. */
  lemma {:induction false} IterateAdd(seed: int, a: nat, b: nat)
    ensures Iterate(Iterate(seed, a), b) == Iterate(seed, a + b)
  {
    if b > 0 {
      IterateAdd(seed, a, b - 1);
    }
  }

  /** Advancing once more is advancing the first value `k` times. */
  lemma {:induction false} IterateShift(seed: int, k: nat)
    ensures Iterate(Next(seed), k) == Iterate(seed, k + 1)
  {
    IterateAdd(seed, 1, k);
  }
}
