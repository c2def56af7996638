/** The numeric range that separates SCE calls from system calls. */
module SceCallIds {

  const SCE_CALL_BASE: bv32 := 0x5000_0000
  const SCE_CALL_MASK: bv32 := 0x0FFF_FFFF

  /** static_cast<uint32_t>. */
  function Low32(number: bv64): bv32 { (number & 0xFFFF_FFFF) as bv32 }

  predicate IsSceCall(number: bv64) { Low32(number) & 0xF000_0000 == SCE_CALL_BASE }

  function SceCallId(number: bv64): bv32 { Low32(number) & SCE_CALL_MASK }

  function MakeSceCall(id: bv32): bv64 { (SCE_CALL_BASE | (id & SCE_CALL_MASK)) as bv64 }

  /** Exactly the numbers whose low 32 bits lie in [0x50000000, 0x60000000) are SCE calls; none below 0x50000000 is. */
  lemma IsSceCallIff(number: bv64)
    ensures IsSceCall(number) <==> 0x5000_0000 <= Low32(number) < 0x6000_0000
    ensures number < 0x5000_0000 ==> !IsSceCall(number)
  {
  }

  /** Every made number is an SCE call, and the id survives exactly when it fits in 28 bits. */
  lemma SceCallRoundTripIff(id: bv32)
    ensures IsSceCall(MakeSceCall(id))
    ensures SceCallId(MakeSceCall(id)) == id <==> id < 0x1000_0000
  {
  }
}
