/** Null-terminated chains of addresses, shared by the block pool and the heap's free lists. */
module Chains {

  /** The address after position i of a chain, or null. */
  function After(c: seq<nat>, i: nat): nat {
    if i + 1 < |c| then c[i + 1] else 0
  }
}
