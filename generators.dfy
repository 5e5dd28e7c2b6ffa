/** NumPy's `np.random.default_rng` and `Generator.permutation`, kept abstract: the
    bit generator's algorithm is not part of this model, only that it is a
    deterministic function of its state and that each draw is a permutation. */
module Generators {
  import opened Permutations

  /** What `default_rng` is seeded from: the caller's integer seed, or fresh
      operating-system entropy when the seed is None. */
  datatype SeedSource = FromSeed(seed: nat) | FromEntropy(entropy: nat)

  /** A generator: `init` gives the state `default_rng` starts from; `permutation`
      returns the array `rng.permutation(n)` draws from a state, and the state the
      generator is left in. */
  datatype Generator = Generator(init: SeedSource -> nat, permutation: (nat, nat) -> (seq<nat>, nat)) {

    /** Every draw of length n is a permutation of [0, n). */
    ghost predicate Valid() {
      forall state: nat, n: nat :: IsPermutation(permutation(state, n).0, n)
    }
  }

  /** `rng = default_rng(source)`, then `rng.permutation(h)` for the rows and
      `rng.permutation(w)` for the columns, in that order. */
  function DrawRowsThenColumns(g: Generator, source: SeedSource, h: nat, w: nat): (r: (seq<nat>, seq<nat>))
    requires g.Valid()
    ensures IsPermutation(r.0, h) && IsPermutation(r.1, w)
  {
    var (rows, afterRows) := g.permutation(g.init(source), h);
    var (cols, _) := g.permutation(afterRows, w);
    (rows, cols)
  }
}
