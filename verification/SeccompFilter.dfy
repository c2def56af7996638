/** The seccomp allowlist compiled to classic BPF, against an evaluator for the three instructions it uses. */
module SeccompFilter {

  const WORD: nat := 0x1_0000_0000
  const LD_W_ABS: nat := 0x20
  const JEQ_K: nat := 0x15
  const RET_K: nat := 0x06
  const ALLOW: nat := 0x7fff_0000
  const TRAP: nat := 0x0003_0000

  datatype Insn = Insn(code: nat, jt: nat, jf: nat, k: nat)

  type Int32 = n: int | -0x8000_0000 <= n < 0x8000_0000

  /** static_cast<uint32_t>: two's complement. */
  function Unsigned(n: Int32): nat { n % WORD }

  // ---- the builder ----

  class BpfBuilder {
    var ops: seq<Insn>

    constructor ()
      ensures ops == []
    {
      ops := [];
    }

    method Emit(code: nat, k: nat)
      modifies this
      ensures ops == old(ops) + [Insn(code, 0, 0, k)]
    {
      ops := ops + [Insn(code, 0, 0, k)];
    }

    method LoadSyscallNumber()
      modifies this
      ensures ops == old(ops) + [Insn(LD_W_ABS, 0, 0, 0)]
    {
      Emit(LD_W_ABS, 0);
    }

    method JumpIfEqual(k: nat, jt: nat, jf: nat)
      modifies this
      ensures ops == old(ops) + [Insn(JEQ_K, jt, jf, k)]
    {
      ops := ops + [Insn(JEQ_K, jt, jf, k)];
    }

    method Ret(action: nat)
      modifies this
      ensures ops == old(ops) + [Insn(RET_K, 0, 0, action)]
    {
      Emit(RET_K, action);
    }
  }

  /** Two instructions for each allowed number. */
  function Checks(allow: seq<Int32>): (ops: seq<Insn>)
    ensures |ops| == 2 * |allow|
  {
    if allow == [] then []
    else Checks(allow[..|allow| - 1])
         + [Insn(JEQ_K, 0, 1, Unsigned(allow[|allow| - 1])), Insn(RET_K, 0, 0, ALLOW)]
  }

  function Program(allow: seq<Int32>): seq<Insn> {
    [Insn(LD_W_ABS, 0, 0, 0)] + Checks(allow) + [Insn(RET_K, 0, 0, TRAP)]
  }

  /** What installImpl hands to the kernel: the instructions, and their number cut to 16 bits. */
  method Build(allow: seq<Int32>) returns (filter: seq<Insn>, len: nat)
    ensures filter == Program(allow) && len == |filter| % 0x1_0000
  {
    var b := new BpfBuilder();
    b.LoadSyscallNumber();
    for i := 0 to |allow|
      invariant b.ops == [Insn(LD_W_ABS, 0, 0, 0)] + Checks(allow[..i])
    {
      assert allow[..i + 1][..i] == allow[..i];
      b.JumpIfEqual(Unsigned(allow[i]), 0, 1);
      b.Ret(ALLOW);
    }
    assert allow[..|allow|] == allow;
    b.Ret(TRAP);
    filter, len := b.ops, |b.ops| % 0x1_0000;
  }

  // ---- the evaluator ----

  /** `FellOff`: control left the program. `BadInsn`: an instruction outside the three. */
  datatype Verdict = Return(action: nat) | FellOff | BadInsn

  /** Jumps only go forward, so every program terminates. */
  function Eval(prog: seq<Insn>, pc: nat, acc: nat, nr: nat): Verdict
    decreases |prog| - pc
  {
    if pc >= |prog| then FellOff
    else
      var op := prog[pc];
      if op.code == LD_W_ABS && op.k == 0 then Eval(prog, pc + 1, nr, nr)
      else if op.code == JEQ_K then Eval(prog, pc + 1 + (if acc == op.k then op.jt else op.jf), acc, nr)
      else if op.code == RET_K then Return(op.k)
      else BadInsn
  }

  function Filter(prog: seq<Insn>, nr: Int32): Verdict { Eval(prog, 0, 0, Unsigned(nr)) }

  // ---- correctness ----

  /** `prog` starts with the load and the checks of the first k numbers. */
  ghost predicate StartsWith(prog: seq<Insn>, allow: seq<Int32>, k: nat) {
    && k <= |allow| && 1 + 2 * k <= |prog| && prog[0] == Insn(LD_W_ABS, 0, 0, 0)
    && forall i :: 0 <= i < k ==> CheckAt(prog, allow, i)
  }

  predicate CheckAt(prog: seq<Insn>, allow: seq<Int32>, i: nat)
    requires i < |allow| && 2 * i + 2 < |prog|
  {
    prog[2 * i + 1] == Insn(JEQ_K, 0, 1, Unsigned(allow[i])) && prog[2 * i + 2] == Insn(RET_K, 0, 0, ALLOW)
  }

  /** The instructions one by one, with the constants of linux/filter.h and linux/seccomp.h. */
  lemma ProgramIs(allow: seq<Int32>, i: nat)
    requires i < |allow|
    ensures var prog, nr: int := Program(allow), allow[i];
            && |prog| == 2 * |allow| + 2
            && prog[0] == Insn(0x20, 0, 0, 0) && prog[|prog| - 1] == Insn(0x06, 0, 0, 0x30000)
            && prog[2 * i + 1] == Insn(0x15, 0, 1, if nr < 0 then nr + 0x1_0000_0000 else nr)
            && prog[2 * i + 2] == Insn(0x06, 0, 0, 0x7fff_0000)
  {
    ProgramStarts(allow, |allow|);
    assert CheckAt(Program(allow), allow, i);
  }

  /** A number among the first i is allowed; any other reaches the instruction after their checks. */
  lemma {:induction false} ScanChecks(prog: seq<Insn>, allow: seq<Int32>, k: nat, i: nat, nr: Int32)
    requires StartsWith(prog, allow, k) && i <= k
    ensures nr in allow[..i] ==> Filter(prog, nr) == Return(ALLOW)
    ensures nr !in allow[..i] ==> Filter(prog, nr) == Eval(prog, 2 * i + 1, Unsigned(nr), Unsigned(nr))
  {
    if i == 0 {
      assert allow[..0] == [];
    } else {
      var j := i - 1;
      ScanChecks(prog, allow, k, j, nr);
      assert allow[..i] == allow[..j] + [allow[j]];
      assert CheckAt(prog, allow, j);
      if nr !in allow[..j] {
        UnsignedInjective(nr, allow[j]);
      }
    }
  }

  lemma UnsignedInjective(m: Int32, n: Int32)
    ensures Unsigned(m) == Unsigned(n) <==> m == n
  {
  }

  lemma {:induction false} ChecksAt(allow: seq<Int32>, i: nat)
    requires i < |allow|
    ensures Checks(allow)[2 * i] == Insn(JEQ_K, 0, 1, Unsigned(allow[i]))
    ensures Checks(allow)[2 * i + 1] == Insn(RET_K, 0, 0, ALLOW)
  {
    if i < |allow| - 1 {
      ChecksAt(allow[..|allow| - 1], i);
    }
  }

  lemma ProgramStarts(allow: seq<Int32>, k: nat)
    requires k <= |allow|
    ensures |Program(allow)| == 2 * |allow| + 2
    ensures StartsWith(Program(allow), allow, k)
    ensures StartsWith(Program(allow)[..2 * k + 2], allow, k)
  {
    hide Checks;
    var prog := Program(allow);
    forall i | 0 <= i < k ensures CheckAt(prog, allow, i) {
      ChecksAt(allow, i);
      assert prog[2 * i + 1] == Checks(allow)[2 * i];
      assert prog[2 * i + 2] == Checks(allow)[2 * i + 1];
    }
    var cut := prog[..2 * k + 2];
    forall i | 0 <= i < k ensures CheckAt(cut, allow, i) {
      assert CheckAt(prog, allow, i);
    }
  }

  /** ALLOW for the listed numbers and TRAP for all others, for every list and every number. */
  lemma FilterDecides(allow: seq<Int32>, nr: Int32)
    ensures Filter(Program(allow), nr) == Return(if nr in allow then ALLOW else TRAP)
  {
    var prog, n := Program(allow), |allow|;
    ProgramStarts(allow, n);
    ScanChecks(prog, allow, n, n, nr);
    assert allow[..n] == allow;
    assert prog[2 * n + 1] == Insn(RET_K, 0, 0, TRAP);
  }

  lemma JumpsStayInside(allow: seq<Int32>, pc: nat)
    requires pc < |Program(allow)| && Program(allow)[pc].code == JEQ_K
    ensures var op := Program(allow)[pc]; pc + 1 + op.jt < |Program(allow)| && pc + 1 + op.jf < |Program(allow)|
  {
    hide Checks;
    var i := (pc - 1) / 2;
    assert 1 <= pc < 2 * |allow| + 1;
    ChecksAt(allow, i);
    assert Program(allow)[pc] == Checks(allow)[pc - 1];
  }

  // ---- the 16-bit length ----

  /** The program as the kernel sees it. */
  function Installed(allow: seq<Int32>): seq<Insn> {
    Program(allow)[..|Program(allow)| % 0x1_0000]
  }

  ghost predicate Decides(prog: seq<Insn>, allow: seq<Int32>) {
    forall nr: Int32 :: Filter(prog, nr) == Return(if nr in allow then ALLOW else TRAP)
  }

  /** The installed filter is right exactly for lists of at most 32766 numbers. */
  lemma InstalledDecidesIff(allow: seq<Int32>)
    ensures Decides(Installed(allow), allow) <==> |allow| <= 32766
  {
    var len := |Program(allow)| % 0x1_0000;
    ProgramStarts(allow, 0);
    if |allow| <= 32766 {
      assert Installed(allow) == Program(allow);
      forall nr: Int32 ensures Filter(Installed(allow), nr) == Return(if nr in allow then ALLOW else TRAP) {
        FilterDecides(allow, nr);
      }
    } else if len == 0 {
      assert Filter(Installed(allow), 0) == FellOff;
    } else {
      var k := len / 2 - 1;
      ProgramStarts(allow, k);
      var nr := Missing(allow[..k]);
      CutProgramFallsOff(allow, k, nr);
    }
  }

  lemma CutProgramFallsOff(allow: seq<Int32>, k: nat, nr: Int32)
    requires k < |allow| && nr !in allow[..k]
    ensures Filter(Program(allow)[..2 * k + 2], nr) == FellOff
  {
    var prog := Program(allow)[..2 * k + 2];
    ProgramStarts(allow, k);
    ProgramStarts(allow, k + 1);
    ScanChecks(prog, allow, k, k, nr);
    assert CheckAt(Program(allow), allow, k);
  }

  /** A list misses one of the numbers from 0 to its length. */
  lemma Missing(s: seq<Int32>) returns (v: Int32)
    requires |s| < 0x1_0000
    ensures v !in s
  {
    var range := Below(|s| + 1);
    var elements: set<int> := set i | i in s;
    SetOfSeq(s);
    var common := elements * range;
    assert elements == common + (elements - common) && |common| < |range|;
    assert range == common + (range - elements);
    v :| v in range && v !in elements;
  }

  function Below(n: nat): (r: set<int>)
    ensures |r| == n && forall i :: i in r <==> 0 <= i < n
  {
    if n == 0 then {} else Below(n - 1) + {n - 1}
  }

  lemma {:induction false} SetOfSeq(s: seq<int>)
    ensures |set i | i in s| <= |s|
  {
    if s != [] {
      var init := s[..|s| - 1];
      SetOfSeq(init);
      assert s == init + [s[|s| - 1]];
      assert (set i | i in s) == (set i | i in init) + {s[|s| - 1]};
    }
  }
}
