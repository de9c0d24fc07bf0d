/** The random number generator the guide-tree builder threads through its
    recursion (`struct rng_state`), and the global generator behind
    `random_int_zero_to_x`. Both are outside this model; what the core relies
    on is a fixed stream of draws, each below the bound it was asked for. */
module Random {

  /** The k-th draw of a generator asked for a value below n is `draws(k, n)`;
      a well-behaved generator keeps each draw below its bound. */
  ghost predicate InRange(draws: (nat, nat) -> nat)
  {
    forall k: nat, n: nat :: 0 < n ==> draws(k, n) < n
  }

  class Rng {
    const draws: (nat, nat) -> nat
    /** Number of draws handed out so far: the generator's state. */
    var used: nat

    constructor (draws: (nat, nat) -> nat)
      ensures this.draws == draws && used == 0
    {
      this.draws := draws;
      used := 0;
    }

    /** tl_random_int(rng, n): the next draw, a value in [0, n). */
    method RandomInt(n: nat) returns (r: nat)
      requires InRange(draws) && 0 < n
      modifies this`used
      ensures r == draws(old(used), n) && r < n
      ensures used == old(used) + 1
    {
      r := draws(used, n);
      used := used + 1;
    }

    /** random_int_zero_to_x(x): the next draw, a value in [0, x]. */
    method RandomIntZeroToX(x: nat) returns (r: nat)
      requires InRange(draws)
      modifies this`used
      ensures r == draws(old(used), x + 1) && r <= x
      ensures used == old(used) + 1
    {
      r := draws(used, x + 1);
      used := used + 1;
    }
  }
}
