# FusionPS4: verified model of the runtime's cores

A Dafny model of the parts of the FusionPS4 runtime that carry hard promises, with proofs of those promises for every
input, every run and every interleaving. `dafny verify dfyconfig.toml` checks the whole project.

- **Trap ring** (`TrapRing*.dfy`): guest threads and the one server thread share 256 slots. Every atomic access, payload
  copy, futex park and futex wake is one step; a run is any interleaving of the steps of any number of guests.
- **Allocators**: the CAS free list of `SceUlt` (`UltPool.dfy`), the size-class heap of `LibcInternal` (`HeapLayout.dfy`,
  `LibcHeap.dfy`), the first-fit guest address space (`AddressSpace.dfy`). `Bits.dfy` holds the one proof about alignUp
  they share with the ELF loader.
- **Codecs and hashes**: streaming SHA-256 and NIDs (`Sha256*.dfy`, `SceNid.dfy`), CRC-32 (`Crc32.dfy`), the save
  container and its guest-visible blob (`SaveContainer*.dfy`, `SaveData.dfy`), the ChaCha20 generator (`ChaCha20.dfy`,
  `SceRandom.dfy`), ticks and dates (`Calendar.dfy`, `SceRtc.dfy`).
- **Guest paths**: normalisation, mount match, translation, policy (`VirtualPath.dfy`, `FsPolicy.dfy`,
  `VirtualFileSystem.dfy`).
- **Small compilers and the linker**: the seccomp filter against a BPF evaluator (`SeccompFilter.dfy`), the SCE stubs
  against an x86 evaluator (`SceCallIds.dfy`, `Trampoline.dfy`), image layout, segment placement and relocation
  (`GuestMemory.dfy`, `ElfLoader.dfy`, `Relocation*.dfy`, `LoadedImage.dfy`).
- **Shared**: little-endian integers and buffers (`Bytes.dfy`), division facts (`Arith.dfy`), null-terminated chains
  (`Chains.dfy`), options (`Options.dfy`).

Code that changes state is a class or a method with loops, proved against specification functions; the theorems are
lemmas about those functions. A 64-bit sum that can wrap is written with its wrap-around.

## Where the code and its promises part

Each of these is proved; where a promise fails, the model gives the run or input that shows it and the condition under
which it holds.

- `syscall/trap/TrapRing.hpp:20-22` says the payload is stored before Pending; `TrapRing.cpp:53` publishes Pending first.
  Request/response matching holds for every run of the documented order (`DocumentedOrderMatches`), fails in a run of the
  order as written (`AsWrittenOrderMismatches`), and there holds for exactly the claims whose request was not copied and
  whose answer was not stored too early (`ClaimMatchesIff`).
- The server can go to sleep with work pending (`ServerWakeCanBeMissed`), but only on a bump it had already counted when
  it loaded its futex (`PendingWhileServerSleeps`), and it can go to sleep on a raised shutdown the same way
  (`ShutdownWakeCanBeMissed`), but only past the shutdown test (`NoSleepAfterShutdown`); its 50 ms timeout hides both.
- The lock-free pool breaks exactly on a stale pop (`StepKeepsPoolIff`, `ReuseHandsOutHeldBlock`), and create does not
  link the blocks (`CreatedPoolSoundIff`, `ZeroedPoolSoundIff`).
- heapAlloc serves every request except exactly those whose 64-bit sum wraps (`HeapAlloc`, `BumpArithmetic`), such as
  2^64 - 1 bytes (`HugeRequestGetsEmptyBlock`); another such request makes the next malloc hand out a live block
  (`HandOutTwice`).
- map keeps the regions disjoint and in the arena exactly when the sum that decides its search does not wrap (`Map`), and
  a request for 2^64 - 4096 bytes breaks that in every state (`MapNearlyAll`).
- The offset check of deserialize lets a descriptor pass whose 64-bit sum wraps: exactly when (`OutOfBoundsIff`), and an
  input (`WrappedOffsetPasses`). Containers beyond the 32-bit fields of the header do not come back (`RoundTripIff`).
- Ticks and dates are inverse exactly for the years 2000 to 2099 (`TickRoundTripIff`).
- `filesystem/virtual/VirtualPath.hpp:24-25` says empty components are rejected; the code collapses them
  (`EmptyComponentsCollapse`, `DoubledSlashAccepted`), and the model follows the code.
- A seccomp allowlist of more than 32766 numbers is installed truncated and wrong (`InstalledDecidesIff`).
- A segment without file bytes is not zeroed (`FilledByte`, `StaleBytesSurvive`); a symbol table without a size entry counts as empty
  (`CountIsZeroIff`, `NullFirstSymbolMeansNone`). The image size misses a segment exactly when a 64-bit end wraps
  (`ImageSizeCoversIff`, `HugeSegmentGivesEmptyImage`), the file check is wrong exactly when one does
  (`FileCheckPassesWronglyIff`), and placed segments overlap exactly when a size was rounded up to 0 (`PlacedOverlapIff`).
- Relocation checks the first byte of a slot only (`WriteStaysIff`, `SlotPastSegment`).

## Model

| member | source | states |
|---|---|---|
| TrapRingTheorems.InvariantKept | syscall/trap/TrapRing.cpp:48-137 | Every atomic access, payload copy, park and wake of any guest or of the server, in either store order, keeps the ring's global invariant |
| TrapRingTheorems.OneOwnerPerSlot | syscall/trap/TrapRing.cpp:48-98 | In every reachable state a slot is non-Free exactly while some guest is between its claim and its release, and never two guests at once |
| TrapRingTheorems.CompletionOnlyOnPending | syscall/trap/TrapRing.cpp:100-122 | complete only ever acts on a slot that is still Pending and whose owner is still waiting |
| TrapRingTheorems.ExactlyOneDispatchPerReturn | syscall/trap/TrapServer.cpp:46-84 | No claim is dispatched twice or returned twice, and every claim that returned was dispatched |
| TrapRingTheorems.RequestsKept | syscall/trap/TrapRing.cpp:62-98 | In every run the requests a guest has submitted, read off the actions, are those its finished submits were about, in order, and the one it is inside of |
| TrapRingTheorems.ClaimMatchesIff | syscall/trap/TrapRing.cpp:48-98 | In either store order, claim by claim: the dispatcher was handed the request the guest submitted exactly if the server did not copy the slot before the guest had written it (or the stale request happens to be the same), and submit returns the dispatcher's answer exactly if the server did not store it before the guest had cleared the slot (or the answer is the empty one) |
| TrapRingTheorems.DocumentedOrderMatches | syscall/trap/TrapRing.hpp:20-22 | With the payload written before Pending becomes visible, no claim of any run is ever early, and every submit returns the dispatcher's answer to the very request it was called with |
| TrapRingTheorems.DocumentedPayloadIsRaceFree | syscall/trap/TrapRing.hpp:20-22 | In the documented order the payload copies of guest and server never overlap on a slot |
| TrapRingTheorems.AsWrittenOrderMismatches | syscall/trap/TrapRing.cpp:48-60 | For any request and any answer there is a run of the order as written in which the dispatcher is handed the slot's empty request and submit returns an empty response instead of the answer |
| TrapRingTheorems.NoLostGuestWake | syscall/trap/TrapRing.cpp:82-93 | A guest asleep on a finished slot always has the server's increment or wake of its futex still to come, also after a late increment from an earlier claim |
| TrapRingTheorems.NoLostServerWakeAfterPark | syscall/trap/TrapRing.cpp:124-137 | If the server sleeps although its futex moved since it went to sleep, some guest still owes it a wake |
| TrapRingProgress.SubmitCanReturn | syscall/trap/TrapRing.cpp:62-98 | From every reachable state of a running server, however many guests are waiting or sleeping and even with all slots taken, each guest inside submit has a continuation of instructions and server timeouts alone in which its submit returns |
| TrapRingProgress.ServerCanStop | syscall/trap/TrapServer.cpp:36-44 | Once stop has cleared the flag and raised shutdown, the server's own steps lead to its end, whatever is still pending |
| TrapRingProgress.NoDispatchAfterShutdown | syscall/trap/TrapServer.cpp:46-54 | A server back at the top of its loop after shutdown was raised never dispatches anything again |
| TrapRingProgress.StopWakesSleeper | syscall/trap/TrapRing.cpp:139-142 | A server asleep when stop is called stops after two more instructions, without its timeout |
| TrapRingProgress.NoSleepAfterShutdown | syscall/trap/TrapRing.cpp:129-142 | A server that has not passed the shutdown test on its way to sleep when shutdown is raised never sleeps again |
| TrapRingProgress.ShutdownWakeCanBeMissed | syscall/trap/TrapRing.cpp:129-142 | One that has passed it goes to sleep after the wake of requestShutdown if it has yet to read its futex or finds it unchanged: requestShutdown does not change the futex |
| TrapRingTheorems.PendingWhileServerSleeps | syscall/trap/TrapRing.cpp:129-137 | In every reachable state with the server asleep and a slot Pending: its owner has yet to bump and wake the server, or some guest still owes the wake, or the owner's bump was already counted when the server loaded its futex, or the 32-bit word came round between load and sleep |
| TrapRingTheorems.ServerWakeCanBeMissed | syscall/trap/TrapServer.cpp:46-60 | A run that leaves the server asleep with a slot Pending, no wake outstanding, and the owner's bump already counted in the futex value the server loaded: only the 50 ms timeout gets the request served |
| UltPool.StepKeepsPoolIff | sce/ult/SceUlt.cpp:144-187 | Exactly which atomic steps keep the free list a duplicate-free chain with free, held and in-transit blocks partitioning the pool: all but a pop that swings the head to a stale link |
| UltPool.PoolSafety | sce/ult/SceUlt.cpp:144-187 | Any interleaving of any number of threads that frees no block while another alloc holds a link it read from it keeps the chain and the partition |
| UltPool.CasIsStackOperation | sce/ult/SceUlt.cpp:144-187 | A successful alloc CAS pops the top of the stack and hands it out, a successful free CAS pushes its block, no other step changes the stack |
| UltPool.NullMeansEmpty | sce/ult/SceUlt.cpp:150-155 | A thread comes to test a null head only by loading it while the stack was empty |
| UltPool.AllocEnds | sce/ult/SceUlt.cpp:144-168 | An alloc ends exactly on a null head, without a block, or after a successful CAS, with the block it took |
| UltPool.FailedCasReloads | sce/ult/SceUlt.cpp:160-186 | A failed CAS changes nothing and goes on with the present head: alloc tests it, free links its block to it |
| UltPool.ExhaustedMeansEmpty | sce/ult/SceUlt.cpp:144-168 | Over runs: an alloc that ends without a block loaded its last head at a moment when the stack was empty and has not touched the pool since |
| UltPool.AllocAlone | sce/ult/SceUlt.cpp:144-168 | An alloc that runs alone: no block from an empty pool, otherwise the top block with its first word cleared, the rest as it was |
| UltPool.FreeAlone | sce/ult/SceUlt.cpp:170-187 | A free that runs alone pushes its block and links it to the old head |
| UltPool.ReuseHandsOutHeldBlock | sce/ult/SceUlt.cpp:144-187 | The ABA run: with a block freed under a pending alloc, a held block becomes the head of the free list |
| UltPool.CreatedPoolSoundIff | sce/ult/SceUlt.cpp:83-126 | Create links nothing: for any content of the backing memory the created pool is well formed exactly when that content already chains all the blocks |
| UltPool.BlocksAtIff | sce/ult/SceUlt.cpp:83-126 | The blocks of the pool are the addresses from the backing address on, a multiple of the block size apart, as many as were asked for |
| UltPool.ZeroedPoolSoundIff | sce/ult/SceUlt.cpp:83-126 | Over zeroed memory that is a single block |
| LibcHeap.PickClass | sce/libc/LibcInternal.cpp:86-95 | The class is the smallest that holds the request, and 255 with the size rounded to 16 above the largest class |
| LibcHeap.BumpArithmetic | sce/libc/LibcInternal.cpp:155-161 | The wrapped sums of the bump path agree with unbounded arithmetic unless the request overflows; an overflowing request never fits, and passes the bounds check exactly when its rounded size or the new bump pointer wraps |
| LibcHeap.WrappedNext | sce/libc/LibcInternal.cpp:154-177 | Where a wrapped request leaves the bump pointer: one header on with an empty block, or not beyond where it was |
| LibcHeap.WrapReturnsTo | sce/libc/LibcInternal.cpp:154-177 | For every block there is a request that wraps and takes the bump pointer back to that block |
| LibcHeap.Heap.HandOutTwice | sce/libc/LibcInternal.cpp:154-177 | After that request a small malloc returns the address of a block that is still live |
| LibcHeap.HugeRequestGetsEmptyBlock | sce/libc/LibcInternal.cpp:154-177 | malloc(2^64 - 1) with a header's room left returns a block of no bytes |
| LibcHeap.Heap.HeapAlloc | sce/libc/LibcInternal.cpp:132-178 | Serves the request exactly when its 64-bit sum does not wrap: null, with nothing changed, if and only if no free block of the class and no room are left, otherwise a 16-aligned block of at least the requested size that was not live, all other live blocks and their bytes untouched, `live` grown by its size. When the sum wraps, the exact state it leaves; a small request gets the block of its class freed last, or the next one of the region if none is free |
| LibcHeap.Heap.HeapFree | sce/libc/LibcInternal.cpp:180-210 | A live pointer is released, every other live block keeps its bytes, `live` shrinks by the block's size; null, unknown and already freed pointers change nothing |
| LibcHeap.Heap.FreeThenAlloc | sce/libc/LibcInternal.cpp:132-210 | A small block that is freed is what the next request of its class gets, with its size, and the heap lists are as before |
| LibcHeap.Heap.Calloc | sce/libc/LibcInternal.cpp:225-231 | Null exactly on a product beyond 64 bits or exhaustion, otherwise a block whose first count times size bytes are zero; reports exactly the products whose block comes from a wrapped sum |
| LibcHeap.Heap.Realloc | sce/libc/LibcInternal.cpp:233-249 | malloc of null, free on size 0, the same block while it is big enough, otherwise a bigger block that starts with all the old bytes and the old block released; a freed pointer is copied from and not freed again; reports exactly the sizes whose sum wraps, with the state that the copy and the free then leave, and exactly when that copy leaves the region |
| LibcHeap.CallocCheck | sce/libc/LibcInternal.cpp:226-227 | The division test detects exactly the products that do not fit in 64 bits |
| HeapLayout.BlocksPartition | sce/libc/LibcInternal.cpp:154-177 | Every address of the used part of the region lies in exactly one header-plus-payload block |
| HeapLayout.BlocksDisjoint | sce/libc/LibcInternal.cpp:132-178 | Two different blocks never overlap |
| HeapLayout.BlockHasOneRole | sce/libc/LibcInternal.cpp:180-210 | Every block is live, or on the free list of its own class and no other, or a retired large block: exactly one of the three |
| HeapLayout.PopOk | sce/libc/LibcInternal.cpp:139-152 | Popping a free list along the stored link keeps tiling, free lists and the live count |
| HeapLayout.BumpOk | sce/libc/LibcInternal.cpp:154-177 | Extending the region by a block keeps them |
| HeapLayout.FreeOk | sce/libc/LibcInternal.cpp:180-210 | Flagging a block free and threading it into its list keeps them |
| HeapLayout.WriteOk | sce/libc/LibcInternal.cpp:132-178 | Guest writes inside one live payload never disturb headers, links or lists |
| Bits.AlignUpIsLeastMultipleIff | sce/libc/LibcInternal.cpp:80-82 | For a power of two the mask form of alignUp is the least multiple at or above v exactly when v is 0 or leaves room for the alignment in 64 bits; otherwise it is 0 |
| Bits.AlignUpClosedForm | loader/ElfLoader.cpp:27-30 | The mask form in closed form for every 64-bit v, wrap-around included |
| AddressSpace.Space.FindFreeGap | runtime/memory/AddressSpace.cpp:71-99 | A usable hint is returned as is; otherwise the least address from the next hint on that fits the arena and meets no region, 0 exactly if there is none; wrong exactly when the 64-bit sum that decides wraps, and then what it returns still passes the code's own test |
| AddressSpace.Space.Map | runtime/memory/AddressSpace.cpp:101-123 | Appends a region at the address the search finds, the hint or else the least that fits from the next hint on; afterwards the regions are disjoint and in the arena exactly when the sum that decides the search did not wrap; the region holds the request exactly up to 2^64 - 4096 bytes; failure changes nothing and means that nothing fits; says exactly when the answer is the hint |
| AddressSpace.Space.MapNearlyAll | runtime/memory/AddressSpace.cpp:101-123 | A request for 2^64 - 4096 bytes is granted in every state and leaves a region that overlaps the rest of memory |
| AddressSpace.RequestHeldIff | runtime/memory/AddressSpace.cpp:29-31 | The rounded size is at least the request exactly for requests up to 2^64 - 4096 |
| AddressSpace.Space.Unmap | runtime/memory/AddressSpace.cpp:125-136 | Removes exactly the first region with that base |
| AddressSpace.Space.Protect | runtime/memory/AddressSpace.cpp:138-155 | Changes the protection of the one region that holds the address and nothing else |
| AddressSpace.Space.Find | runtime/memory/AddressSpace.cpp:157-163 | Finds the region that holds the address, the only one, or reports that none does |
| AddressSpace.HolderUnique | runtime/memory/AddressSpace.cpp:157-163 | No address lies in two regions |
| AddressSpace.FitsIff | runtime/memory/AddressSpace.cpp:71-99 | What the search calls a gap: a range inside the arena with no byte in any region that has bytes |
| SceNid.Sha256Ctx.Transform | loader/sce/SceNid.cpp:50-77 | One block: the state becomes the compression function of section 6.2.2 of FIPS 180-4, whose parts the rows of Sha256Proofs pin down |
| SceNid.Sha256Ctx.Update | loader/sce/SceNid.cpp:79-88 | After an update the context stands for everything absorbed so far |
| SceNid.Sha256Ctx.Final | loader/sce/SceNid.cpp:90-112 | For every message under 2^61 bytes the output is its SHA-256 digest, padding as in section 5.1.1 of FIPS 180-4 |
| SceNid.HashPieces | loader/sce/SceNid.cpp:79-112 | However a message is cut into updates, the digest is that of the whole message |
| SceNid.ComputeLegacy | loader/sce/SceNid.cpp:116-128 | The legacy NID is the first eight digest bytes as a little-endian number |
| Sha256Proofs.ChoosesBits | loader/sce/SceNid.cpp:67 | Ch takes the bits of y where x has ones and those of z where it has zeros |
| Sha256Proofs.MajorityBits | loader/sce/SceNid.cpp:70 | Maj has the bits of any two of the words where they agree |
| Sha256Proofs.RotrSwaps | loader/sce/SceNid.cpp:46-48 | For every amount the low bits go to the top and the others to the bottom |
| Sha256Proofs.ConstantsAreRoots | loader/sce/SceNid.cpp:22-44 | K and the initial state are the first 32 fractional bits of the cube and square roots of the listed primes (sections 4.2.2 and 5.3.3 of FIPS 180-4) |
| Sha256Proofs.FirstPrimes | loader/sce/SceNid.cpp:32-44 | That list has exactly the primes up to 311, smallest first |
| Sha256Proofs.PaddingIs | loader/sce/SceNid.cpp:90-107 | The padded message is the message, a one bit, zeros and the bit count with its most significant byte first |
| Sha256Proofs.AbcDigest | loader/sce/SceNid.cpp:50-112 | The digest of "abc" is the one of the FIPS 180-4 example |
| SceNid.FromHex | loader/sce/SceNid.cpp:136-148 | Accepts exactly the 16-digit hexadecimal strings and returns the number they denote |
| SceNid.DigitValues | loader/sce/SceNid.cpp:136-148 | The value of every digit in both cases, none for any other character |
| SceNid.HexIsInverse | loader/sce/SceNid.cpp:130-148 | fromHex undoes toHex for every NID, and toHex undoes fromHex up to the case of the digits |
| SceNid.LowerIs | loader/sce/SceNid.cpp:130-148 | The case change of HexIsInverse moves the letters A to F down the alphabet and nothing else |
| Crc32.ComputeCrc | sce/savedata/SaveContainer.cpp:39-48 | The loop computes the bitwise register map with complement in and out |
| Crc32.CrcIsRfc1952 | sce/savedata/SaveContainer.cpp:39-48 | That value is the table-driven CRC of section 8 of RFC 1952 for every byte string |
| Crc32.CheckValue | sce/savedata/SaveContainer.cpp:39-48 | The CRC of "123456789" is CBF43926, the published check value |
| Crc32.FeedInjective | sce/savedata/SaveContainer.cpp:39-48 | Feeding fixed bytes is injective on register states |
| Crc32.BurstDetected | sce/savedata/SaveContainer.cpp:39-48 | Any two different payloads of one length that differ only inside four consecutive bytes have different CRCs |
| SaveContainer.CopyStr | sce/savedata/SaveContainer.cpp:56-60 | The field is the string cut to its capacity minus one, then zeros |
| SaveContainer.FittingIs | sce/savedata/SaveContainer.cpp:56-60 | A string too long for its field keeps exactly its first capacity minus one bytes, any other all of them |
| SaveContainer.ReadStr | sce/savedata/SaveContainer.cpp:62-66 | The string before the first NUL |
| SaveContainer.Serialize | sce/savedata/SaveContainer.cpp:98-143 | The bytes are header, descriptor table with prefix-sum offsets, payload |
| SaveContainerProofs.HeaderFields | sce/savedata/SaveContainer.cpp:14-28 | Every field of the header at its offset in the image, reserved word and checksum included |
| SaveContainerProofs.DescriptorFields | sce/savedata/SaveContainer.cpp:30-36 | Every field of every descriptor at its offset, reserved word included |
| SaveContainer.Deserialize | sce/savedata/SaveContainer.cpp:145-200 | The loop computes Decode: the first check that fails or the first bad descriptor decides, otherwise the decoded container |
| SaveContainerProofs.ParsedIff | sce/savedata/SaveContainer.cpp:145-200 | Deserialize accepts exactly when sizes, magic, version and checksum are right and every descriptor lies inside the payload |
| SaveContainerProofs.OutOfBoundsIff | sce/savedata/SaveContainer.cpp:186-198 | It leaves its bounds exactly when those checks pass and the first descriptor outside the payload has an offset and size whose sum is between 2^64 and 2^64 plus the payload size |
| SaveContainerProofs.WrappedOffsetPasses | sce/savedata/SaveContainer.cpp:186-198 | The image of any container with an entry, its first descriptor overwritten with offset 2^64 - 1 and size 1, is such an input |
| SaveContainer.FieldStableIff | sce/savedata/SaveContainer.cpp:56-66 | Writing back a string that was read leaves the field unchanged exactly when no byte was hidden behind a NUL |
| SaveContainerProofs.RoundTripIff | sce/savedata/SaveContainer.cpp:98-200 | For every container, deserialize of serialize gives it back with strings cut to their fields exactly when its entry count and payload are under 2^32 |
| SaveContainerProofs.DecodeIgnoresTail | sce/savedata/SaveContainer.cpp:166-168 | Bytes after the payload are not read |
| SaveContainerProofs.PayloadTiles | sce/savedata/SaveContainer.cpp:110-124 | The stored offsets are prefix sums: entry i lies in the payload right after the entries before it |
| SaveContainerProofs.ReserializeIff | sce/savedata/SaveContainer.cpp:98-200 | Re-serializing what was read gives the same bytes exactly when no string hides bytes behind a NUL |
| SaveContainerProofs.CorruptPayloadRejected | sce/savedata/SaveContainer.cpp:179-183 | A serialized container changed only inside four consecutive payload bytes is always rejected |
| SaveData.Saves.GetMemory | sce/savedata/SceSaveData.cpp:227-239 | The status and the slice of the serialized blob that reaches the guest |
| SaveData.ToInt32Is | sce/savedata/SceSaveData.cpp:227-239 | The size returned as an int keeps its value modulo 2^32 |
| SaveData.Saves.SetMemory | sce/savedata/SceSaveData.cpp:241-262 | A write is applied exactly when the patched blob parses, otherwise the container is kept; for every size and offset, with the writes that leave the buffers of the source named |
| SaveData.GrownIs | sce/savedata/SceSaveData.cpp:241-262 | The buffer grows to exactly the end of the write, with zeros |
| SaveData.Saves.WriteBack | sce/savedata/SceSaveData.cpp:227-262 | Reading at any offset and writing the result back succeeds and leaves the container with its strings cut to their fields exactly when the container's sizes fit the 32-bit fields of the header |
| SaveData.WriteBackIsIdentityIff | sce/savedata/SceSaveData.cpp:227-262 | Writing back an unmodified slice leaves the save as it was exactly when all its strings fit their fields |
| ChaCha20.DoubleRoundsBijective | sce/random/SceRandom.cpp:25-49 | Any number of double rounds is a bijection on 16-word states, with an explicit inverse |
| ChaCha20.RotlClosedForm | sce/random/SceRandom.cpp:25-27 | The OR of the two shifts swaps the halves of the word |
| ChaCha20.QuarterRoundExample | sce/random/SceRandom.cpp:29-35 | The quarter round gives the result of the example of section 2.1.1 of RFC 8439 |
| ChaCha20.LanesInOrder | sce/random/SceRandom.cpp:40-49 | The eight quarter rounds of a double round work on the columns and then the diagonals |
| ChaCha20.AddStatesAt | sce/random/SceRandom.cpp:50 | The permuted state and the input are added word by word modulo 2^32 |
| ChaCha20.SerializeAt | sce/random/SceRandom.cpp:98 | Word i of the output is bytes 4i to 4i + 3 of the buffer, low byte first |
| SceRandom.SeedLayout | sce/random/SceRandom.cpp:78-95 | The bytes of the input state are "expand 32-byte k", the first 32 seed bytes, the counter in eight bytes and the last 8 seed bytes |
| ChaCha20.StatesNeverRepeat | sce/random/SceRandom.cpp:87-97 | Under one key and nonce two different counters never give the same input state nor the same permuted state |
| SceRandom.Qr | sce/random/SceRandom.cpp:29-35 | Four words in place become the quarter round of section 2.1 of RFC 8439 |
| SceRandom.ChaCha20Block | sce/random/SceRandom.cpp:37-51 | Ten double rounds plus the input, as in section 2.3 of RFC 8439 |
| SceRandom.Drbg.ReseedFromKernel | sce/random/SceRandom.cpp:69-85 | Success installs key and nonce and restarts the stream at byte 0, failure changes nothing |
| SceRandom.Drbg.Refill | sce/random/SceRandom.cpp:87-101 | The buffer becomes the block of the current counter, which then moves on |
| SceRandom.Drbg.FillBytes | sce/random/SceRandom.cpp:103-129 | The output is the key stream at the current position (byte k mod 64 of block k div 64), from position 0 after a reseed; when and with what it reseeds; zeros when no seed was ever delivered; produced and counter keep the stated relation modulo 2^64 |
| SceRandom.Drbg.FillPieces | sce/random/SceRandom.cpp:103-129 | Between reseeds, splitting a request never changes the bytes |
| Calendar.UnixEpoch | sce/rtc/SceRtc.cpp:34-36 | 62135596800 is the number of seconds between 0001-01-01 and 1970-01-01 in the proleptic Gregorian calendar |
| Calendar.MonthStart | sce/rtc/SceRtc.cpp:74-82 | The days before each month in closed form, without the month lengths |
| Calendar.LeapDays | sce/rtc/SceRtc.cpp:74-82 | and the days before each year |
| Calendar.TimeGmIs | sce/rtc/SceRtc.cpp:95-107 | timegm of fields of any size in closed form |
| Calendar.GmTimeInverse | sce/rtc/SceRtc.cpp:74-82 | gmtime gives a valid date and time of day, and timegm takes it back to the same second |
| Calendar.TimeGmInverse | sce/rtc/SceRtc.cpp:96-107 | gmtime undoes timegm on every valid date |
| Calendar.DateUnique | sce/rtc/SceRtc.cpp:74-82 | Two valid dates with the same day number are the same date |
| SceRtc.BcdRoundTrip | sce/rtc/SceRtc.cpp:62-67 | Every number below 100 survives BCD encoding and decoding |
| SceRtc.BcdInverseIff | sce/rtc/SceRtc.cpp:62-67 | A byte survives decoding and encoding exactly when its low digit is decimal |
| SceRtc.TickToCivil | sce/rtc/SceRtc.cpp:71-92 | The struct of a tick is its gmtime in BCD, with the two last digits of the year |
| SceRtc.CivilIs | sce/rtc/SceRtc.cpp:71-92 | Digit by digit: time of day and microseconds of the tick, and the valid date whose day number is the number of whole days |
| SceRtc.CivilToTick | sce/rtc/SceRtc.cpp:95-109 | For every content of the fields the tick is the instant the fields denote and no 64-bit step wraps |
| SceRtc.TickIs | sce/rtc/SceRtc.cpp:95-109 | The tick of any fields from their digits, a month of 0 or above 12 carried into the year |
| SceRtc.TickRoundTripIff | sce/rtc/SceRtc.cpp:71-109 | A tick survives the conversion to a date and back exactly when its year is in 2000 to 2099 |
| SceRtc.DateRoundTripIff | sce/rtc/SceRtc.cpp:71-109 | A date and time survives the conversion to a tick and back exactly when it is canonical: decimal digits, a valid date of those years, reserved bytes zero |
| VirtualPath.Normalize | filesystem/virtual/VirtualPath.cpp:19-62 | The index-and-stack loop equals split, resolve and join on components, for which LastComponent says what each component does |
| VirtualPath.LastComponent | filesystem/virtual/VirtualPath.cpp:34-48 | One more component: a name is added at the end, ".." takes the last one away and does nothing at the root, "." and the empty one do nothing |
| VirtualPath.DownAndUp | filesystem/virtual/VirtualPath.cpp:41-43 | For valid a and a name x, a/x/.. means a |
| VirtualPath.DotStays | filesystem/virtual/VirtualPath.cpp:39-43 | A dot component changes nothing, and "/.." is "/" |
| VirtualPath.LeadingSlash | filesystem/virtual/VirtualPath.cpp:28-29 | A path without a leading slash starts at the root |
| VirtualPath.RejectedIff | filesystem/virtual/VirtualPath.cpp:21-45 | A path is rejected exactly when it is empty or a component other than "." and ".." has a byte outside 0x20 to 0x7E |
| VirtualPath.FixpointIff | filesystem/virtual/VirtualPath.cpp:19-62 | Normalisation leaves a path unchanged exactly when it is canonical: no empty, "." or ".." component, bytes 0x20 to 0x7E |
| VirtualPath.NormalIsCanonical | filesystem/virtual/VirtualPath.hpp:7-10 | Every normal form is canonical |
| VirtualPath.Idempotent | filesystem/virtual/VirtualPath.cpp:19-62 | Normalising twice is normalising once |
| VirtualPath.NormalOfAppend | filesystem/virtual/VirtualPath.cpp:19-62 | For valid a, the normal form of a/b is that of the normal form of a followed by /b |
| VirtualPath.NulIsRejected | filesystem/virtual/VirtualPath.cpp:23-24 | A NUL anywhere makes the path invalid |
| VirtualPath.EmptyComponentsCollapse | filesystem/virtual/VirtualPath.cpp:34-38 | A doubled or a final slash makes no difference |
| VirtualPath.DoubledSlashAccepted | filesystem/virtual/VirtualPath.cpp:34-38 | For any two names x and y the path /x//y is accepted and means /x/y |
| VirtualPath.UnprintableIsFinal | filesystem/virtual/VirtualPath.cpp:44-46 | An unprintable component rejects the path even if ".." would pop it later |
| VirtualPath.JoinSplit | filesystem/virtual/VirtualPath.cpp:31-60 | Splitting loses nothing: joining the pieces gives the path back |
| FsPolicy.Policy.Match | filesystem/policy/FsPolicy.cpp:33-51 | The mount with the longest matching prefix, the first of that length, or none exactly when none matches |
| FsPolicy.Policy.IsAllowed | filesystem/policy/FsPolicy.cpp:53-92 | Allowed exactly when the governing mount allows the operation; a reason exactly on refusal |
| FsPolicy.AllowsIff | filesystem/policy/FsPolicy.cpp:60-91 | For any mount, flag by flag: which operations readOnly, allowCreate and allowDelete forbid |
| FsPolicy.MatchesIff | filesystem/policy/FsPolicy.cpp:36-44 | On canonical paths the string test holds exactly for the first components of the path; the prefix "/" matches only "/" |
| VirtualFileSystem.Translate | filesystem/virtual/VirtualPath.cpp:64-89 | The host path is root, host directory and the components, with single slashes between; names the one case in which the source reads the end of an empty string |
| VirtualFileSystem.FileSystem.Resolve | filesystem/virtual/VirtualFileSystem.cpp:20-70 | Outcome of a resolution in component terms: the mount's prefix is the first components, the host path the mount's directory and exactly the remaining ones |
| VirtualFileSystem.SuffixNormal | filesystem/virtual/VirtualFileSystem.cpp:43-53 | What is left below a mount is already canonical, so the second normalisation is the identity and the EINVAL after it cannot occur |
| VirtualFileSystem.ResolvedBelow | filesystem/virtual/VirtualFileSystem.cpp:66-69 | A successful host path starts with the root and none of the components below the mount is "..", "." or empty |
| VirtualFileSystem.HostPathIs | filesystem/virtual/VirtualPath.cpp:79-87 | The host path from left to right: root, slash if needed, hostSubdir, slash if needed, components |
| VirtualFileSystem.HostPathDeterminesGuestPath | filesystem/virtual/VirtualFileSystem.cpp:20-70 | Two guest paths that one mount resolves to the same host path have the same normal form |
| VirtualFileSystem.ErrnoIff | filesystem/virtual/VirtualFileSystem.cpp:28-64 | EINVAL exactly for invalid paths, ENOENT exactly for valid paths outside every mount; below a governing mount EACCES exactly when it forbids the operation and success exactly when it allows it, except exactly when there is no base to put the path in |
| SeccompFilter.Build | isolation/SeccompFilter.cpp:57-85 | The builder produces load, two instructions per number, trap; the length is cut to 16 bits |
| SeccompFilter.ProgramIs | isolation/SeccompFilter.cpp:57-85 | Every instruction with its opcode, jumps and constant |
| SeccompFilter.FilterDecides | isolation/SeccompFilter.cpp:61-80 | For every list and every number the evaluated program returns ALLOW if the number is listed and TRAP otherwise |
| SeccompFilter.JumpsStayInside | isolation/SeccompFilter.cpp:37-40 | Both targets of every jump lie inside the program |
| SeccompFilter.InstalledDecidesIff | isolation/SeccompFilter.cpp:82-84 | With the 16-bit length the installed filter is right for every number exactly when the list has at most 32766 entries |
| SceCallIds.IsSceCallIff | syscall/trap/SceCallIds.hpp:19-21 | SCE calls are exactly the numbers whose low 32 bits lie in 0x50000000 to 0x5FFFFFFF; none below 0x50000000 is one |
| SceCallIds.SceCallRoundTripIff | syscall/trap/SceCallIds.hpp:23-29 | Every made number is an SCE call, and the id survives exactly when it fits in 28 bits |
| Trampoline.Emit | loader/trampolines/SceTrampolineEmitter.cpp:34-56 | Writes exactly the eleven stub bytes at its slot and returns their address; slot 256 and up and a null page return 0 and change nothing |
| Trampoline.EmitVariable | loader/trampolines/SceTrampolineEmitter.cpp:58-70 | Writes exactly the sixteen accessor bytes at its slot |
| Trampoline.EmittedStub | loader/trampolines/SceTrampolineEmitter.cpp:34-56 | The eleven bytes of a stub, one by one |
| Trampoline.EmittedAccessor | loader/trampolines/SceTrampolineEmitter.cpp:58-70 | The sixteen bytes of an accessor, breakpoints after the ret |
| Trampoline.StubCalls | syscall/trap/TrapTriggers.hpp:14-35 | Executing a stub traps with an SCE call of its id and the caller's six arguments although syscall destroys rcx and r11; the result set by the handler comes back in rax, and besides r10 nothing else changes |
| Trampoline.RunInside | loader/trampolines/SceTrampolineEmitter.cpp:34-70 | Code the evaluator knows to its end runs the same wherever it lies on a page |
| Trampoline.StubCallsOnPage | loader/trampolines/SceTrampolineEmitter.cpp:34-56 | After any run of emits, calling a slot whose last emit was a stub makes that stub's call and returns its result, whatever else is on the page |
| Trampoline.AccessorReturnsOnPage | loader/trampolines/SceTrampolineEmitter.cpp:58-70 | and a slot whose last emit was an accessor returns that immediate |
| Trampoline.AccessorReturns | loader/trampolines/SceTrampolineEmitter.cpp:63-68 | Executing an accessor returns its immediate, zero-extended, and changes no other register |
| Trampoline.SlotHoldsLastWrite | loader/trampolines/SceTrampolineEmitter.cpp:34-70 | After any run of emits each slot holds the code of the last emit to it |
| ElfLoader.ComputeLayout | loader/ElfLoader.cpp:73-95 | None exactly without PT_LOAD; otherwise lowest page, largest alignment capped at 2 MiB, page-rounded largest end |
| ElfLoader.LowestPageIs | loader/ElfLoader.cpp:74-80 | The preferred base is page-aligned, at or below every segment, and the page of one of them |
| ElfLoader.ImageSizeCoversIff | loader/ElfLoader.cpp:88-95 | Every segment with its page padding lies inside the image size exactly when all of them end below the last page of the 64-bit range; the size is then the smallest whole number of pages with that property |
| ElfLoader.HugeSegmentGivesEmptyImage | loader/ElfLoader.cpp:88-95 | A segment of 2^64 - 1 bytes at 0x1000 gives an image of size 0 |
| ElfLoader.LargestAlignIs | loader/ElfLoader.cpp:75-87 | The alignment before the cap is the largest of a page and the segments' alignments, 0 meaning a page |
| ElfLoader.MapSegments | loader/ElfLoader.cpp:106-163 | For every segment table: the first segment that is not placed decides how it ends (its address taken, its bytes outside the file, a copy that leaves the arena, no range of its own); it succeeds exactly when each segment in turn finds its own range free, its bytes in the file and room for the copy; memory, regions and descriptors afterwards |
| ElfLoader.PlacingOkIff | loader/ElfLoader.cpp:119-144 | Which segment tables are placed does not depend on where the address space will look next |
| ElfLoader.FileCheckPassesWronglyIff | loader/ElfLoader.cpp:133-139 | The file check lets a range pass that is not in the file exactly when its offset is in the file and offset plus size lies between 2^64 and 2^64 plus the file size |
| ElfLoader.StrayIff | loader/ElfLoader.cpp:114-131 | The loader goes on with a segment that has no range of its own exactly when the segment has no file bytes, map answers with its address, and that address is 0 or the segment's end leaves 64 bits |
| ElfLoader.PlacedOverlapIff | loader/ElfLoader.cpp:114-131 | Two placed segments overlap exactly when the size of one was rounded up to 0 and the other does not end below it |
| ElfLoader.SegmentsDisjoint | loader/ElfLoader.cpp:119-131 | The segments of a placed image are pairwise disjoint, page padding included |
| ElfLoader.SegmentInArena | loader/ElfLoader.cpp:119-131 | and lie inside the arena |
| ElfLoader.PlacedRegion | loader/ElfLoader.cpp:106-163 | What is recorded of a segment: place, size in whole pages, rights and name in the address space; place, sizes and the file's flags in the module |
| LoadedImage.WritableIff | loader/symbols/RelocationProcessor.cpp:19-26 | Relocation takes an address for writable exactly when the first segment of the file that covers it has the W flag |
| ElfLoader.FilledByte | loader/ElfLoader.cpp:133-150 | Every byte of the placed image: file bytes, then zeros, inside a segment with file bytes; unchanged everywhere else, segments without file bytes included |
| ElfLoader.StaleBytesSurvive | loader/ElfLoader.cpp:133-150 | A page without file bytes, placed anywhere in an empty arena, keeps whatever bytes were there |
| ElfLoader.Load | loader/ElfLoader.cpp:64-236 | For every segment table and base: gives a module exactly when there is a PT_LOAD segment, a range, room for every segment in turn and no relocation that fails; then the memory is the placed image with all relocations applied and the entry point is shifted by the delta; goes astray exactly when placing does |
| LoadedImage.LoadedByte | loader/ElfLoader.cpp:106-222 | Every byte of the memory a successful load leaves: in a slot the slot's value as of the placed image, elsewhere the file byte, the zero of a segment's tail, or what was there before |
| LoadedImage.SameAtAnotherBase | loader/ElfLoader.cpp:106-222 | A load that succeeds at one base succeeds at every base at which its segments can be placed; the two images differ by the difference of the bases in the slots of RELATIVE entries and of symbols the module defines, not at all in the other slots and in all other bytes that come from the file |
| Relocation.Module.PopulateSymbolTable | loader/modules/Module.cpp:34-95 | Symbol and string table of the last matching dynamic entries; the count from the size entry or by the walk over the table |
| Relocation.Module.LookupExport | loader/modules/Module.cpp:109-122 | The address of the first defined symbol with the name, 0 if there is none |
| Relocation.Processor.ResolveSymbol | loader/symbols/SymbolResolver.cpp:14-37 | The module's own export first, then the registry's answer |
| Relocation.Processor.IsWritableAddress | loader/symbols/RelocationProcessor.cpp:19-26 | The first segment that holds the address decides by its write flag |
| Relocation.Processor.ApplyOne | loader/symbols/RelocationProcessor.cpp:42-127 | Outcome, written slot and counters of one entry, for every type and every error; the words are those of SlotWords |
| Relocation.Processor.ApplyRelaRange | loader/symbols/RelocationProcessor.cpp:129-138 | The entries in order, each read from the memory the earlier ones left |
| Relocation.Processor.ApplyAll | loader/symbols/RelocationProcessor.cpp:140-217 | The two tables the dynamic entries describe, one after the other; an unexpected entry size stops before either |
| RelocationProofs.AllRelocates | loader/symbols/RelocationProcessor.cpp:140-217 | With targets that overlap neither each other nor the tables, the final memory is the initial one with exactly the slots filled, each with a value that depends on the initial memory only |
| RelocationMeaning.SlotWords | loader/symbols/RelocationProcessor.cpp:60-115 | The word in each slot of that memory, modulo 2^64: delta + addend for RELATIVE, S + addend for R_X86_64_64, S for GLOB_DAT and JUMP_SLOT (section 4.4.1 of the System V AMD64 psABI) |
| RelocationMeaning.ResolveIs | loader/symbols/SymbolResolver.cpp:14-37 | S is st_value plus delta of the first defined symbol of that name, or the registry's answer where there is none or that address is 0 |
| RelocationMeaning.HasSlotIff | loader/symbols/RelocationProcessor.cpp:42-115 | Exactly which entries get a slot: a target the module may write, and either no symbol needed or one in the table whose S is not 0 |
| RelocationMeaning.TablesByTag | loader/symbols/RelocationProcessor.cpp:140-175 | Where the relocation tables are, by the numbers of the last matching dynamic tags |
| RelocationMeaning.EntriesByTable | loader/symbols/RelocationProcessor.cpp:129-138 | The entries looked at: those of the first table, then of the second, each read as three words |
| RelocationMeaning.StatsByType | loader/symbols/RelocationProcessor.cpp:42-127 | Each counter of applied entries counts those of its own relocation type, over a whole table |
| RelocationMeaning.SymbolsByTag | loader/modules/Module.cpp:34-74 | The symbol and string table by the numbers of the last matching dynamic tags, and the count of a size entry |
| RelocationMeaning.CountIs | loader/modules/Module.cpp:75-95 | The count without a size entry is the first index at which the table meets the string table, a symbol of zeros or the cap |
| RelocationProofs.RelocatedUnique | loader/symbols/RelocationProcessor.cpp:129-138 | The result depends only on which entries there are, not on their order |
| RelocationProofs.TwoBases | loader/symbols/RelocationProcessor.cpp:64-115 | Relocating one module in two memories some places apart changes their common bytes alike, and fills slots with values that differ by the difference of the bases for RELATIVE entries and symbols the module itself exports, and not at all for the others |
| RelocationProofs.AllFineIff | loader/symbols/RelocationProcessor.cpp:140-217 | applyAll succeeds exactly when the entry size is the expected one and every entry can be applied to the initial image, whatever earlier entries have written |
| RelocationProofs.WriteStaysIff | loader/symbols/RelocationProcessor.cpp:19-26 | The first segment that holds the target decides, and the eight bytes written stay in it exactly when it goes on for eight bytes |
| RelocationProofs.SlotPastSegment | loader/symbols/RelocationProcessor.cpp:64-75 | A RELATIVE entry at the only byte of a segment also changes the seven bytes after it |
| RelocationProofs.RangeStats | loader/symbols/RelocationProcessor.cpp:42-138 | total = none + relative + globDat + jumpSlot + abs64 + failed; skipped ones are among the failed; a table is good exactly when nothing in it failed |
| RelocationProofs.AllOkIff | loader/symbols/RelocationProcessor.cpp:175-216 | applyAll succeeds exactly when no entry failed and the entry size is the expected one |
| RelocationProofs.CountIsZeroIff | loader/modules/Module.cpp:75-95 | Without a size entry the count is 0 exactly for a table that starts with the null symbol or has no room before the string table |
| RelocationProofs.NullFirstSymbolMeansNone | loader/modules/Module.cpp:75-122 | Such a module exports nothing, and each of its symbol relocations at a writable address fails as a bad symbol |

## Left out

- LibcHeap.Heap.HeapAlloc: the code at `sce/libc/LibcInternal.cpp:145-150` is a placeholder that returns nothing, so the model pops along the link heapFree stores. After a request whose sum wrapped the heap invariant is gone and nothing is stated about later calls.
- LibcHeap.Heap.HeapFree: pointers the heap never handed out are ignored; a forged header magic in guest memory is not modelled, nor is the bit layout of the header.
- LibcHeap.Heap.Calloc: the model stops before the memset when the block came from a sum that wrapped.
- LibcHeap.Heap.Realloc: the model stops before a copy that would leave the region, and does not write headers into memory.
- SaveData.Saves.SetMemory: the model stops, with the container kept, where the source leaves its buffers; allocation failures of vectors are not modelled.
- AddressSpace.Space.Map: once a region that does not fit has been recorded nothing is stated about later calls; std::sort is modelled as insertion sort by base.
- ElfLoader.MapSegments: a copy that would leave the arena, where the program faults, and a segment without a range of its own end the model's run; a failed load does not state how far it got. The file is shorter than 2^63 bytes, as every vector is.
- ElfLoader.FilledByte: assumes at most memsz file bytes in each segment, as the ELF format demands, and sizes that can be rounded up to pages; MapSegments assumes neither.
- ElfLoader.Load: the range the address space offers is an input (findFreeRange is not part of this model: the repository does not define it); the entries of PT_DYNAMIC and the answers of the module registry are inputs; reading and parsing the file and TLS are not modelled.
- RelocationProofs.AllRelocates: symbol names must end inside the string table and the tables lie in the window; a read outside the window gives zeros and a write there nothing in the model, where the program faults.
- LoadedImage.SameAtAnotherBase: assumes that no sum about a segment's place wraps at either base, that the tables of the module come from the file, that symbol names end inside the string table, that its slots stay in their segments and overlap neither the tables nor each other, and that no symbol it defines lies at address 0 at either base, where a lookup takes it for missing.
- Calendar.GmTimeInverse: instants before the year 1, which no tick denotes, are excluded.
- SceRandom.Drbg.FillBytes: getrandom is a parameter; the pointer check of sceRandomGetRandomNumber and the float variant are not modelled. The source copies from a std::array plus an offset, read here as its data pointer plus the offset.
- SceRtc: the struct layout (its static_assert says 0x18 bytes, its fields add up to 16), time zones and the clock itself.
- Trap ring: payload copies are single steps; futexes are atomic compare-and-park; that every fair schedule lets submit return (only that some continuation does), fork, shared mappings, signal delivery, the SCE invocation after the ring, and wakeServer, which nothing calls.
- UltPool: the pool registry, argument checks and error codes of create and destroy; weak memory orders (steps interleave sequentially).
- libc: memalign, which loses its pointer by its own comment, the peak counter, stdio and strings.
- Save data: host file I/O, setup parameters and icons.
- Trampolines: reserving the page; slots hold breakpoints only after reservation.
- Seccomp: the system call that installs the filter and its flags; the kernel's own limit on program length.
- Host mmap, munmap and mprotect calls: their results are parameters.
- Vulkan, OpenGL, windows, audio, codecs, network, fibers, logging, profiler, registries and stub libraries: foreign calls or easy members.
