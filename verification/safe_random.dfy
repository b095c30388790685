// parallel_core::SafeRandom (AsioNet/AsioNet/parallel_core/SafeRandom.hpp):
// Marsaglia's xorshift64 generator over one shared 64-bit state. The
// spinlock is left out and the time(0) seed is a parameter.

module SafeRandoms {

  /** One xorshift64 step: x ^= x << 13; x ^= x >> 7; x ^= x << 17, all on 64 bits. */
  function Xorshift64(x: bv64): (r: bv64)
  {
    var a := x ^ (x << 13);
    var b := a ^ (a >> 7);
    b ^ (b << 17)
  }

  /** x ^ (x << k) and x ^ (x >> k) vanish only at zero: the lowest (highest) set bit of x survives. */
  lemma NoZeroLeft13(x: bv64)
    ensures x ^ (x << 13) == 0 ==> x == 0
  {
  }

  lemma NoZeroRight7(x: bv64)
    ensures x ^ (x >> 7) == 0 ==> x == 0
  {
  }

  lemma NoZeroLeft17(x: bv64)
    ensures x ^ (x << 17) == 0 ==> x == 0
  {
  }

  /** Zero is a fixed point of the step, and the only state that reaches zero. */
  lemma ZeroStaysZero(x: bv64)
    ensures Xorshift64(x) == 0 <==> x == 0
  {
    var a := x ^ (x << 13);
    var b := a ^ (a >> 7);
    NoZeroLeft17(b);
    NoZeroRight7(a);
    NoZeroLeft13(x);
  }

  class SafeRandom {
    /** _rand_state->a */
    var state: bv64

    /** seed(origin): the state starts at the seed. */
    constructor (seed: bv64)
      ensures state == seed
    {
      state := seed;
    }

    /** next / xorshift64: advances the state one step and returns the new state. */
    method Next() returns (r: bv64)
      modifies this
      ensures r == state && r == Xorshift64(old(state))
      ensures (r == 0) == (old(state) == 0)
    {
      ZeroStaysZero(state);
      r := Xorshift64(state);
      state := r;
    }
  }
}
