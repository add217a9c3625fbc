/**
 * The seeded pseudo-random source of the sweepstake page: a linear
 * congruential generator with modulus 2^31, multiplier 1103515245 and
 * increment 12345. The source keeps its integer state in a closure and
 * reassigns it on every call; here that closure is an object whose one
 * field, `currentSeed`, every call to `Next` updates.
 */
module SeededRandom {

  const Modulus: nat := 0x8000_0000
  const Multiplier: nat := 1103515245
  const Increment: nat := 12345

  /** One step of the generator. */
  function Step(state: nat): (next: nat)
    ensures next < Modulus
  {
    (Multiplier * state + Increment) % Modulus
  }

  /** The generator's state after `calls` calls, for a generator created with `seed`. */
  function StateAfter(seed: int, calls: nat): (state: nat)
    requires seed > 0
    ensures state < Modulus
    ensures calls > 0 ==> state == Step(StateAfter(seed, calls - 1))
  {
    if calls == 0 then seed % Modulus else Step(StateAfter(seed, calls - 1))
  }

  /** The number a call returns for a state: the state divided by the modulus. */
  function Value(state: nat): (x: real)
    requires state < Modulus
    ensures 0.0 <= x < 1.0
    ensures x * (Modulus as real) == state as real
  {
    state as real / Modulus as real
  }

  /** The first `n` numbers a generator created with `seed` returns. */
  function Stream(seed: int, n: nat): (xs: seq<real>)
    requires seed > 0
    ensures |xs| == n
    ensures forall i :: 0 <= i < n ==> 0.0 <= xs[i] < 1.0
  {
    seq(n, i requires 0 <= i < n => Value(StateAfter(seed, i + 1)))
  }

  class Generator {
    /** The seed the generator was created with, and how often it has been called. */
    ghost const seed: int
    ghost var calls: nat
    /** The generator's integer state. */
    var currentSeed: nat

    ghost predicate Valid()
      reads this
    {
      seed > 0 && currentSeed == StateAfter(seed, calls)
    }

    /** Creates a generator whose state starts at `seed` reduced modulo 2^31. */
    constructor (seed: int)
      requires seed > 0
      ensures Valid() && this.seed == seed && calls == 0
      ensures currentSeed == seed % Modulus && currentSeed < Modulus
    {
      this.seed := seed;
      calls := 0;
      currentSeed := seed % Modulus;
    }

    /** Advances the state by one step and returns the new state over 2^31. */
    method Next() returns (x: real)
      requires Valid()
      modifies this
      ensures Valid() && calls == old(calls) + 1
      ensures currentSeed == Step(old(currentSeed)) && currentSeed < Modulus
      ensures x == Value(currentSeed) && 0.0 <= x < 1.0
    {
      currentSeed := Step(currentSeed);
      calls := calls + 1;
      x := Value(currentSeed);
    }
  }

  /**
   * Determinism: two generators created with the same seed, called in
   * turn, return the same numbers, and those numbers depend on the seed
   * alone.
   */
  method SameSeedSameOutputs(seed: int, n: nat) returns (xs: seq<real>, ys: seq<real>)
    requires seed > 0
    ensures xs == ys == Stream(seed, n)
    ensures forall i :: 0 <= i < n ==> 0.0 <= xs[i] < 1.0
  {
    var first := new Generator(seed);
    var second := new Generator(seed);
    xs, ys := [], [];
    var i := 0;
    while i < n
      invariant 0 <= i <= n
      invariant first.Valid() && second.Valid()
      invariant first.seed == seed && second.seed == seed
      invariant first.calls == i && second.calls == i
      invariant xs == ys == Stream(seed, i)
    {
      var x := first.Next();
      var y := second.Next();
      xs, ys := xs + [x], ys + [y];
      i := i + 1;
    }
  }
}
