/** The stubs the loader writes for imported functions, against an evaluator for the instructions they use. */
module Trampoline {
  import opened Bytes
  import opened SceCallIds

  const SLOT_STRIDE: nat := 16
  const SLOTS_PER_PAGE: nat := 256
  const PAGE: nat := 4096

  // ---- the emitter ----

  /** mov r10, rcx; mov eax, SCE_CALL_BASE | id; syscall; ret. */
  function Stub(id: bv32): (code: seq<byte>)
    ensures |code| == 11
  {
    [0x49, 0x89, 0xCA] + [0xB8] + WordLE(SCE_CALL_BASE | (id & SCE_CALL_MASK)) + [0x0F, 0x05] + [0xC3]
  }

  function Breakpoints(n: nat): (code: seq<byte>)
    ensures |code| == n
  {
    if n == 0 then [] else Breakpoints(n - 1) + [0xCC]
  }

  /** mov eax, id; ret; then breakpoints to the end of the slot. */
  function Accessor(id: bv32): (code: seq<byte>)
    ensures |code| == 16
  {
    [0xB8] + WordLE(id) + [0xC3] + Breakpoints(10)
  }

  method Emit(page: array?<byte>, base: nat, slot: nat, id: bv32) returns (address: nat)
    requires page != null ==> page.Length == PAGE
    modifies page
    ensures page == null || slot >= SLOTS_PER_PAGE ==> address == 0
    ensures page != null && slot >= SLOTS_PER_PAGE ==> page[..] == old(page[..])
    ensures page != null && slot < SLOTS_PER_PAGE ==>
              address == base + 16 * slot && page[..] == Store(old(page[..]), 16 * slot, Stub(id))
  {
    if page == null || slot >= SLOTS_PER_PAGE {
      return 0;
    }
    hide WordLE, Store;
    var p := slot * SLOT_STRIDE;
    ghost var before := page[..];
    Put(page, p, [0x49, 0x89, 0xCA]);
    ghost var code := PutNext(page, p, 3, [0xB8], before, [0x49, 0x89, 0xCA]);
    var immediate := WordLE(SCE_CALL_BASE | (id & SCE_CALL_MASK));
    code := PutNext(page, p, 4, immediate, before, code);
    code := PutNext(page, p, 8, [0x0F, 0x05], before, code);
    code := PutNext(page, p, 10, [0xC3], before, code);
    assert code == Stub(id);
    address := base + p;
  }

  /** The next bytes of the code at `p`, of which `code` is already there. */
  method PutNext(page: array<byte>, p: nat, n: nat, bs: seq<byte>, ghost before: seq<byte>, ghost code: seq<byte>)
    returns (ghost code': seq<byte>)
    requires n == |code| && p + n + |bs| <= page.Length == |before| && page[..] == Store(before, p, code)
    modifies page
    ensures code' == code + bs && page[..] == Store(before, p, code')
  {
    hide Store;
    Put(page, p + n, bs);
    StoreStore(before, p, code, bs);
    code' := code + bs;
  }

  method EmitVariable(page: array?<byte>, base: nat, slot: nat, id: bv32) returns (address: nat)
    requires page != null ==> page.Length == PAGE
    modifies page
    ensures page == null || slot >= SLOTS_PER_PAGE ==> address == 0
    ensures page != null && slot >= SLOTS_PER_PAGE ==> page[..] == old(page[..])
    ensures page != null && slot < SLOTS_PER_PAGE ==>
              address == base + 16 * slot && page[..] == Store(old(page[..]), 16 * slot, Accessor(id))
  {
    if page == null || slot >= SLOTS_PER_PAGE {
      return 0;
    }
    hide WordLE, Store, Breakpoints;
    var p := slot * SLOT_STRIDE;
    ghost var before := page[..];
    Put(page, p, [0xB8]);
    ghost var code := PutNext(page, p, 1, WordLE(id), before, [0xB8]);
    code := PutNext(page, p, 5, [0xC3], before, code);
    PutBreakpoints(page, p, 6, before, code);
    address := base + p;
  }

  method PutBreakpoints(page: array<byte>, p: nat, from: nat, ghost before: seq<byte>, ghost start: seq<byte>)
    requires from == |start| <= SLOT_STRIDE && p + SLOT_STRIDE <= page.Length == |before|
    requires page[..] == Store(before, p, start)
    modifies page
    ensures page[..] == Store(before, p, start + Breakpoints(SLOT_STRIDE - from))
  {
    hide Store, Breakpoints;
    ghost var code := start;
    NoBreakpoints(start);
    for i := from to SLOT_STRIDE
      invariant |code| == i && code == start + Breakpoints(i - from) && page[..] == Store(before, p, code)
    {
      code := PutNext(page, p, i, [0xCC], before, code);
      MoreBreakpoints(start, i - from);
    }
  }

  lemma NoBreakpoints(code: seq<byte>)
    ensures code + Breakpoints(0) == code
  {
  }

  lemma MoreBreakpoints(code: seq<byte>, n: nat)
    ensures code + Breakpoints(n) + [0xCC] == code + Breakpoints(n + 1)
  {
  }

  // ---- the evaluator ----

  /** The sixteen general registers by their number in an instruction. */
  type Regs = r: seq<bv64> | |r| == 16 witness seq(16, _ => 0)

  const RAX: nat := 0
  const RCX: nat := 1
  const RDX: nat := 2
  const RSI: nat := 6
  const RDI: nat := 7
  const R8: nat := 8
  const R9: nat := 9
  const R10: nat := 10
  const R11: nat := 11

  /** How execution leaves the code: by a system call with the next instruction at `next`, by ret, by a breakpoint,
      or by running into something the evaluator does not know. */
  datatype Stop = Syscall(regs: Regs, next: nat) | Ret(regs: Regs) | Breakpoint | Unknown

  /** Bits 3 to 5 and 0 to 2 of a ModRM byte. */
  function RegField(m: byte): (r: nat)
    ensures r < 8
  {
    ((m >> 3) & 7) as int
  }

  function RmField(m: byte): (r: nat)
    ensures r < 8
  {
    (m & 7) as int
  }

  /** The four bytes at `pc` as a zero-extended immediate. */
  function Immediate(code: seq<byte>, pc: nat): bv64
    requires pc + 4 <= |code|
  {
    WordFromLE(code[pc..pc + 4]) as bv64
  }

  predicate IsMov64(code: seq<byte>, pc: nat) {
    pc + 3 <= |code| && code[pc] == 0x49 && code[pc + 1] == 0x89 && code[pc + 2] >= 0xC0
  }

  predicate IsMovImm(code: seq<byte>, pc: nat) {
    pc + 5 <= |code| && 0xB8 <= code[pc] <= 0xBF
  }

  /** Runs the code from `pc`: REX.WB 89 /r between registers, B8+r imm32, 0F 05, C3 and CC. */
  function Run(code: seq<byte>, pc: nat, regs: Regs): Stop
    decreases |code| - pc
  {
    if IsMov64(code, pc) then
      var m := code[pc + 2];
      Run(code, pc + 3, regs[8 + RmField(m) := regs[RegField(m)]])
    else if IsMovImm(code, pc) then
      Run(code, pc + 5, regs[RmField(code[pc]) := Immediate(code, pc + 1)])
    else if pc + 2 <= |code| && code[pc] == 0x0F && code[pc + 1] == 0x05 then Syscall(regs, pc + 2)
    else if pc < |code| && code[pc] == 0xC3 then Ret(regs)
    else if pc < |code| && code[pc] == 0xCC then Breakpoint
    else Unknown
  }

  // ---- what the trap handler sees ----

  function SyscallNumber(regs: Regs): bv64 { regs[RAX] }

  function Arg(regs: Regs, i: int): bv64 {
    match i
    case 0 => regs[RDI]
    case 1 => regs[RSI]
    case 2 => regs[RDX]
    case 3 => regs[R10]
    case 4 => regs[R8]
    case 5 => regs[R9]
    case _ => 0
  }

  function SetResult(regs: Regs, v: bv64): Regs { regs[RAX := v] }

  /** The processor's own writes on syscall: rcx gets the return address, r11 the flags. */
  function Clobbered(regs: Regs, rip: bv64, flags: bv64): Regs { regs[RCX := rip][R11 := flags] }

  /** The instructions byte by byte, the immediate low byte first. */
  lemma EmittedStub(id: bv32, number: bv32)
    requires number == 0x5000_0000 | (id & 0x0FFF_FFFF)
    ensures var code := Stub(id);
            && |code| == 11 && code[0] == 0x49 && code[1] == 0x89 && code[2] == 0xCA && code[3] == 0xB8
            && code[4] == LowByte(number) && code[5] == LowByte(number >> 8)
            && code[6] == LowByte(number >> 16) && code[7] == LowByte(number >> 24)
            && code[8] == 0x0F && code[9] == 0x05 && code[10] == 0xC3
  {
    hide Stub, WordLE, LowByte;
    StubPieces(id, number);
    LowByteFirst(number);
    var code := Stub(id);
    assert code[4] == code[4..8][0] && code[5] == code[4..8][1] && code[6] == code[4..8][2] && code[7] == code[4..8][3];
  }

  lemma StubPieces(id: bv32, number: bv32)
    requires number == 0x5000_0000 | (id & 0x0FFF_FFFF)
    ensures var code := Stub(id);
            && code[0] == 0x49 && code[1] == 0x89 && code[2] == 0xCA && code[3] == 0xB8
            && code[4..8] == WordLE(number) && code[8] == 0x0F && code[9] == 0x05 && code[10] == 0xC3
  {
    hide WordLE;
  }

  lemma EmittedAccessor(id: bv32)
    ensures var code := Accessor(id);
            && |code| == 16 && code[0] == 0xB8 && code[5] == 0xC3
            && code[1] == LowByte(id) && code[2] == LowByte(id >> 8)
            && code[3] == LowByte(id >> 16) && code[4] == LowByte(id >> 24)
            && forall i :: 6 <= i < 16 ==> code[i] == 0xCC
  {
    hide WordLE, LowByte, Breakpoints;
    BreakpointsOnly(10);
    LowByteFirst(id);
  }

  function LowByte(w: bv32): byte { (w & 0xFF) as byte }

  lemma LowByteFirst(w: bv32)
    ensures WordLE(w) == [LowByte(w), LowByte(w >> 8), LowByte(w >> 16), LowByte(w >> 24)]
  {
  }

  lemma {:induction false} BreakpointsOnly(n: nat)
    ensures forall i :: 0 <= i < n ==> Breakpoints(n)[i] == 0xCC
  {
    if n > 0 {
      BreakpointsOnly(n - 1);
    }
  }

  lemma FieldsOfStub()
    ensures RegField(0xCA) == RCX && 8 + RmField(0xCA) == R10 && RmField(0xB8) == RAX
  {
  }

  lemma StubBytes(id: bv32)
    ensures var code := Stub(id);
            && IsMov64(code, 0) && !IsMov64(code, 3) && IsMovImm(code, 3) && !IsMov64(code, 8) && !IsMovImm(code, 8)
            && code[2] == 0xCA && code[3] == 0xB8 && code[8] == 0x0F && code[9] == 0x05 && code[10] == 0xC3
            && !IsMov64(code, 10) && !IsMovImm(code, 10)
            && code[4..8] == WordLE(SCE_CALL_BASE | (id & SCE_CALL_MASK))
  {
    hide WordLE;
  }

  /** The stub up to its system call: r10 takes rcx, rax the tagged id, nothing else changes. */
  lemma StubRuns(id: bv32, regs: Regs)
    ensures Run(Stub(id), 0, regs) == Syscall(regs[R10 := regs[RCX]][RAX := MakeSceCall(id)], 10)
  {
    hide WordLE, WordFromLE, RegField, RmField, Stub, IsMov64, IsMovImm, MakeSceCall;
    var code := Stub(id);
    FieldsOfStub();
    StubBytes(id);
    StubImmediate(id);
    var after := regs[R10 := regs[RCX]];
    assert Run(code, 8, after[RAX := MakeSceCall(id)]) == Syscall(after[RAX := MakeSceCall(id)], 10);
    assert Run(code, 3, after) == Run(code, 8, after[RAX := MakeSceCall(id)]);
  }

  lemma StubImmediate(id: bv32)
    ensures Immediate(Stub(id), 4) == MakeSceCall(id)
  {
    hide WordLE, WordFromLE, Stub;
    StubBytes(id);
    WordRoundTrip(SCE_CALL_BASE | (id & SCE_CALL_MASK));
  }

  /** After the system call comes the ret. */
  lemma StubReturns(id: bv32, regs: Regs)
    ensures Run(Stub(id), 10, regs) == Ret(regs)
  {
    hide Stub, IsMov64, IsMovImm;
    StubBytes(id);
  }

  /** The handler sees the call `id` with the six arguments of the caller. */
  predicate SeesCall(seen: Regs, id: bv32, regs: Regs) {
    && IsSceCall(SyscallNumber(seen)) && SceCallId(SyscallNumber(seen)) == id
    && Arg(seen, 0) == regs[RDI] && Arg(seen, 1) == regs[RSI] && Arg(seen, 2) == regs[RDX]
    && Arg(seen, 3) == regs[RCX] && Arg(seen, 4) == regs[R8] && Arg(seen, 5) == regs[R9]
  }

  /** Running the code from `pc` makes the call, and running on from there returns the handler's result in rax: r10
      holds the old rcx, rcx and r11 what the system call left, all other registers what the caller had. */
  predicate MakesCall(code: seq<byte>, pc: nat, id: bv32, regs: Regs, rip: bv64, flags: bv64, result: bv64) {
    match Run(code, pc, regs)
    case Syscall(r, next) =>
      var seen := Clobbered(r, rip, flags);
      && SeesCall(seen, id, regs)
      && Run(code, next, SetResult(seen, result))
         == Ret(regs[R10 := regs[RCX]][RAX := result][RCX := rip][R11 := flags])
    case _ => false
  }

  /** Calling a stub: the handler sees an SCE call with the stub's id and the caller's six arguments, although the
      system call destroys rcx and r11; the handler's result comes back in rax, and besides r10 no other register has
      changed. */
  lemma StubCalls(id: bv32, regs: Regs, rip: bv64, flags: bv64, result: bv64)
    requires id < 0x1000_0000
    ensures MakesCall(Stub(id), 0, id, regs, rip, flags, result)
  {
    hide IsSceCall, SceCallId, MakeSceCall, Stub, Run, Arg, Clobbered, SetResult;
    StubRuns(id, regs);
    SceCallRoundTripIff(id);
    ArgumentsSurvive(regs, MakeSceCall(id), rip, flags);
    ResultReplacesNumber(regs, MakeSceCall(id), rip, flags, result);
    var seen := Clobbered(regs[R10 := regs[RCX]][RAX := MakeSceCall(id)], rip, flags);
    StubReturns(id, SetResult(seen, result));
  }

  lemma ArgumentsSurvive(regs: Regs, number: bv64, rip: bv64, flags: bv64)
    ensures var seen := Clobbered(regs[R10 := regs[RCX]][RAX := number], rip, flags);
            && SyscallNumber(seen) == number
            && Arg(seen, 0) == regs[RDI] && Arg(seen, 1) == regs[RSI] && Arg(seen, 2) == regs[RDX]
            && Arg(seen, 3) == regs[RCX] && Arg(seen, 4) == regs[R8] && Arg(seen, 5) == regs[R9]
  {
  }

  lemma ResultReplacesNumber(regs: Regs, number: bv64, rip: bv64, flags: bv64, result: bv64)
    ensures SetResult(Clobbered(regs[R10 := regs[RCX]][RAX := number], rip, flags), result) ==
            regs[R10 := regs[RCX]][RAX := result][RCX := rip][R11 := flags]
  {
  }

  /** Calling an accessor returns its immediate and changes nothing else. */
  lemma AccessorReturns(id: bv32, regs: Regs)
    ensures Run(Accessor(id), 0, regs) == Ret(regs[RAX := id as bv64])
  {
    hide WordLE, WordFromLE, RmField, RegField;
    var code := Accessor(id);
    FieldsOfStub();
    assert code[1..5] == WordLE(id) && code[5] == 0xC3 && code[0] == 0xB8;
    WordRoundTrip(id);
  }

  // ---- many stubs on one page ----

  datatype Write = Function(slot: nat, id: bv32) | Variable(slot: nat, id: bv32)

  function Code(w: Write): (code: seq<byte>)
    ensures |code| <= 16
  {
    match w
    case Function(_, id) => Stub(id)
    case Variable(_, id) => Accessor(id)
  }

  /** The page after a run of emits. */
  function Emitted(page: seq<byte>, writes: seq<Write>): (r: seq<byte>)
    requires |page| == PAGE
    ensures |r| == PAGE
  {
    if writes == [] then page
    else
      var before, w := Emitted(page, writes[..|writes| - 1]), writes[|writes| - 1];
      if w.slot < SLOTS_PER_PAGE then Store(before, 16 * w.slot, Code(w)) else before
  }

  /** Each slot holds the code of the last emit to it, whatever was emitted to other slots. */
  lemma {:induction false} SlotHoldsLastWrite(page: seq<byte>, writes: seq<Write>, i: nat)
    requires |page| == PAGE && i < |writes| && writes[i].slot < SLOTS_PER_PAGE
    requires forall j :: i < j < |writes| ==> writes[j].slot != writes[i].slot
    ensures Load(Emitted(page, writes), 16 * writes[i].slot, |Code(writes[i])|) == Code(writes[i])
  {
    hide Code;
    if i < |writes| - 1 {
      var w := writes[|writes| - 1];
      SlotHoldsLastWrite(page, writes[..|writes| - 1], i);
      if w.slot < SLOTS_PER_PAGE {
        StoreFrame(Emitted(page, writes[..|writes| - 1]), 16 * w.slot, Code(w), 16 * writes[i].slot,
                   |Code(writes[i])|);
      }
    }
  }

  /** Where a run stops when its code lies at `at`. */
  function StopAt(stop: Stop, at: nat): Stop {
    match stop
    case Syscall(regs, next) => Syscall(regs, at + next)
    case other => other
  }

  /** Code that the evaluator knows to its end runs the same wherever it lies on a page. */
  lemma {:induction false} RunInside(page: seq<byte>, at: nat, code: seq<byte>, pc: nat, regs: Regs)
    requires at + |code| <= |page| && Load(page, at, |code|) == code && pc <= |code|
    requires !Run(code, pc, regs).Unknown?
    ensures Run(page, at + pc, regs) == StopAt(Run(code, pc, regs), at)
    decreases |code| - pc
  {
    hide RegField, RmField, WordFromLE;
    assert forall k :: 0 <= k < |code| ==> page[at + k] == code[k] by {
      assert forall k :: 0 <= k < |code| ==> page[at + k] == Load(page, at, |code|)[k];
    }
    SameInstruction(page, at, code, pc);
    if IsMov64(code, pc) {
      RunInside(page, at, code, pc + 3, regs[8 + RmField(code[pc + 2]) := regs[RegField(code[pc + 2])]]);
    } else if IsMovImm(code, pc) {
      RunInside(page, at, code, pc + 5, regs[RmField(code[pc]) := Immediate(code, pc + 1)]);
    }
  }

  lemma SameInstruction(page: seq<byte>, at: nat, code: seq<byte>, pc: nat)
    requires at + |code| <= |page| && forall k :: 0 <= k < |code| ==> page[at + k] == code[k]
    ensures IsMov64(code, pc) ==> IsMov64(page, at + pc)
    ensures IsMovImm(code, pc) ==> IsMovImm(page, at + pc) && Immediate(page, at + (pc + 1)) == Immediate(code, pc + 1)
    ensures pc < |code| ==> page[at + pc] == code[pc]
    ensures pc + 1 < |code| ==> page[at + (pc + 1)] == code[pc + 1]
    ensures pc + 2 < |code| ==> page[at + (pc + 2)] == code[pc + 2]
  {
    hide WordFromLE;
    if IsMovImm(code, pc) {
      assert page[at + (pc + 1)..at + (pc + 1) + 4] == code[pc + 1..pc + 1 + 4];
    }
  }

  /** Calling the stub of a slot on a page full of others: what StubCalls says, at the slot's place. */
  lemma StubCallsOnPage(page: seq<byte>, writes: seq<Write>, i: nat, regs: Regs, rip: bv64, flags: bv64, result: bv64)
    requires |page| == PAGE && i < |writes| && writes[i].Function? && writes[i].id < 0x1000_0000
    requires writes[i].slot < SLOTS_PER_PAGE && forall j :: i < j < |writes| ==> writes[j].slot != writes[i].slot
    ensures MakesCall(Emitted(page, writes), 16 * writes[i].slot, writes[i].id, regs, rip, flags, result)
  {
    hide Stub, Run, SeesCall, Clobbered, SetResult, Emitted, MakeSceCall;
    var all, at, id := Emitted(page, writes), 16 * writes[i].slot, writes[i].id;
    SlotHoldsLastWrite(page, writes, i);
    StubCalls(id, regs, rip, flags, result);
    StubRuns(id, regs);
    RunInside(all, at, Stub(id), 0, regs);
    var Syscall(r, next) := Run(Stub(id), 0, regs);
    RunInside(all, at, Stub(id), next, SetResult(Clobbered(r, rip, flags), result));
  }

  /** Calling the accessor of a slot on a page full of others. */
  lemma AccessorReturnsOnPage(page: seq<byte>, writes: seq<Write>, i: nat, regs: Regs)
    requires |page| == PAGE && i < |writes| && writes[i].Variable?
    requires writes[i].slot < SLOTS_PER_PAGE && forall j :: i < j < |writes| ==> writes[j].slot != writes[i].slot
    ensures Run(Emitted(page, writes), 16 * writes[i].slot, regs) == Ret(regs[RAX := writes[i].id as bv64])
  {
    hide Run, Accessor, Emitted;
    SlotHoldsLastWrite(page, writes, i);
    AccessorReturns(writes[i].id, regs);
    RunInside(Emitted(page, writes), 16 * writes[i].slot, Accessor(writes[i].id), 0, regs);
  }
}
