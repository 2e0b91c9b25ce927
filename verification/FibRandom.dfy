/** rte_rand, as test-fib uses it. */
module FibRandom {

  /** The generator behind rte_rand, which gives 64-bit numbers. */
  class Random {
    /** All numbers drawn so far. */
    ghost var drawn: seq<nat>

    constructor ()
      ensures drawn == []
    {
      drawn := [];
    }

    method Next() returns (r: nat)
      modifies this
      ensures r < 0x1_0000_0000_0000_0000 && drawn == old(drawn) + [r]
    {
      r :| 0 <= r < 0x1_0000_0000_0000_0000;
      drawn := drawn + [r];
    }
  }
}
