/** The counter that numbers orders and trades. */
module Sequencers {

  import opened Types
  import EngineSpec

  class Sequencer {
    var sequence: nat

    constructor ()
      ensures sequence == EngineSpec.FIRST_SEQUENCE
    {
      sequence := EngineSpec.FIRST_SEQUENCE;
    }

    /** The next 64-bit number; below the wrap-around it is larger than every number drawn before. */
    method Next() returns (r: nat)
      modifies this
      ensures r == sequence == (old(sequence) + 1) % U64
      ensures old(sequence) + 1 < U64 ==> r == old(sequence) + 1
    {
      sequence := (sequence + 1) % U64;
      r := sequence;
    }
  }
}
