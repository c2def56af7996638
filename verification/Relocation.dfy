/** Dynamic symbols and relocations of a loaded module: section 4.4.1 of the System V AMD64 psABI as far as the loader
    supports it. Tables and strings are read from guest memory while other parts of it are being written. */
module Relocation {
  import opened Bytes
  import opened GuestMemory
  import opened Options

  datatype LoadedSegment = LoadedSegment(vaddr: U64, filesz: U64, memsz: U64, prot: nat)

  datatype Dyn = Dyn(tag: int, val: U64)

  const DT_STRTAB := 5
  const DT_SYMTAB := 6
  const DT_RELA := 7
  const DT_RELASZ := 8
  const DT_RELAENT := 9
  const DT_SYMTABSZ := 11
  const DT_JMPREL := 23
  const DT_PLTRELSZ := 2
  const DT_SCE_SYMTAB := 0x6100000D
  const DT_SCE_STRTAB := 0x6100000F
  const DT_SCE_SYMTABSZ := 0x61000011
  const DT_SCE_RELA := 0x61000019
  const DT_SCE_RELASZ := 0x6100001B
  const DT_SCE_RELAENT := 0x6100001D

  const SYM_SIZE: nat := 24
  const RELA_SIZE: nat := 24

  /** What relocation needs to know of a module; the tables are addresses, 0 for none. */
  datatype Info = Info(delta: U64, segments: seq<LoadedSegment>, dynamics: seq<Dyn>, dynsym: U64, dynstr: U64,
                       dynsymCount: nat)

  function Relocate(m: Info, preferred: U64): U64 { Wrap(preferred + m.delta) }

  // ---- symbols ----

  function SymAt(m: Info, i: nat): int { m.dynsym + SYM_SIZE * i }

  function SymName(m: Info, mem: Memory, i: nat): int { m.dynstr + PeekNumber(mem, SymAt(m, i), 4) }

  /** Symbol i is defined here, has a name, and the name is `name`. */
  predicate Exports(m: Info, mem: Memory, i: nat, name: seq<byte>) {
    && PeekNumber(mem, SymAt(m, i) + 6, 2) != 0
    && PeekNumber(mem, SymAt(m, i), 4) != 0
    && CString(mem, SymName(m, mem, i)) == name
  }

  function SymAddress(m: Info, mem: Memory, i: nat): U64 { Wrap(Peek64(mem, SymAt(m, i) + 8) + m.delta) }

  predicate HasSymbols(m: Info) { m.dynsym != 0 && m.dynstr != 0 }

  /** The address of the first export with the name among those from i on, 0 if there is none. */
  function LookupFrom(m: Info, mem: Memory, name: seq<byte>, i: nat): U64
    decreases m.dynsymCount - i
  {
    if i >= m.dynsymCount then 0
    else if Exports(m, mem, i, name) then SymAddress(m, mem, i)
    else LookupFrom(m, mem, name, i + 1)
  }

  function Lookup(m: Info, mem: Memory, name: seq<byte>): U64 {
    if HasSymbols(m) then LookupFrom(m, mem, name, 0) else 0
  }

  /** The module's own export first, then whatever the registry of modules answers. */
  function Resolve(m: Info, mem: Memory, registry: seq<byte> -> U64, name: seq<byte>): U64 {
    if Lookup(m, mem, name) != 0 then Lookup(m, mem, name) else registry(name)
  }

  // ---- one relocation ----

  /** The addend is the 64-bit pattern of r_addend. */
  datatype Rela = Rela(offset: U64, info: U64, addend: U64)

  function ReadRela(mem: Memory, addr: int): Rela {
    Rela(Peek64(mem, addr), Peek64(mem, addr + 8), Peek64(mem, addr + 16))
  }

  function RelType(info: U64): nat { info % TWO32 }

  function RelSym(info: U64): nat { info / TWO32 }

  predicate Holds(s: LoadedSegment, addr: U64) { s.vaddr <= addr < Wrap(s.vaddr + s.memsz) }

  predicate WriteFlag(s: LoadedSegment) { s.prot / 2 % 2 == 1 }

  /** The first segment that holds the address decides. */
  predicate Writable(segments: seq<LoadedSegment>, addr: U64) {
    if segments == [] then false
    else if Holds(segments[0], addr) then WriteFlag(segments[0])
    else Writable(segments[1..], addr)
  }

  datatype Outcome =
    | NotWritable | NoneType | Relative | Abs64 | GlobDat | JumpSlot | BadSymbol | Unresolved | Unsupported

  function SymbolOutcome(m: Info, mem: Memory, registry: seq<byte> -> U64, sym: nat, fine: Outcome): Outcome {
    if !HasSymbols(m) || sym >= m.dynsymCount then BadSymbol
    else if Resolve(m, mem, registry, CString(mem, SymName(m, mem, sym))) == 0 then Unresolved
    else fine
  }

  function Classify(m: Info, mem: Memory, registry: seq<byte> -> U64, r: Rela): Outcome {
    if !Writable(m.segments, Relocate(m, r.offset)) then NotWritable
    else
      match RelType(r.info)
      case 0 => NoneType
      case 8 => Relative
      case 1 => SymbolOutcome(m, mem, registry, RelSym(r.info), Abs64)
      case 6 => SymbolOutcome(m, mem, registry, RelSym(r.info), GlobDat)
      case 7 => SymbolOutcome(m, mem, registry, RelSym(r.info), JumpSlot)
      case _ => Unsupported
  }

  predicate WritesSlot(o: Outcome) { o.Relative? || o.Abs64? || o.GlobDat? || o.JumpSlot? }

  function SymbolValue(m: Info, mem: Memory, registry: seq<byte> -> U64, r: Rela): U64 {
    Resolve(m, mem, registry, CString(mem, SymName(m, mem, RelSym(r.info))))
  }

  /** B + A, S + A or S. */
  function Value(m: Info, mem: Memory, registry: seq<byte> -> U64, r: Rela): U64 {
    match RelType(r.info)
    case 8 => Wrap(m.delta + r.addend)
    case 1 => Wrap(SymbolValue(m, mem, registry, r) + r.addend)
    case _ => SymbolValue(m, mem, registry, r)
  }

  function Apply(m: Info, mem: Memory, registry: seq<byte> -> U64, r: Rela): (mem': Memory)
    ensures mem'.origin == mem.origin && |mem'.bytes| == |mem.bytes|
  {
    if WritesSlot(Classify(m, mem, registry, r))
    then Poke64(mem, Relocate(m, r.offset), Value(m, mem, registry, r)) else mem
  }

  datatype Stats = Stats(total: nat, relative: nat, globDat: nat, jumpSlot: nat, abs64: nat, skipped: nat, failed: nat)

  const NoStats := Stats(0, 0, 0, 0, 0, 0, 0)

  function Count(s: Stats, o: Outcome): Stats {
    var t := s.(total := s.total + 1);
    match o
    case NoneType => t
    case Relative => t.(relative := s.relative + 1)
    case Abs64 => t.(abs64 := s.abs64 + 1)
    case GlobDat => t.(globDat := s.globDat + 1)
    case JumpSlot => t.(jumpSlot := s.jumpSlot + 1)
    case Unsupported => t.(skipped := s.skipped + 1, failed := s.failed + 1)
    case _ => t.(failed := s.failed + 1)
  }

  predicate Fine(o: Outcome) { WritesSlot(o) || o.NoneType? }

  /** A table of relocations, part of the way through. */
  datatype Progress = Progress(mem: Memory, stats: Stats, ok: bool)

  function Step(m: Info, registry: seq<byte> -> U64, p: Progress, r: Rela): (p': Progress)
    ensures p'.mem.origin == p.mem.origin && |p'.mem.bytes| == |p.mem.bytes|
  {
    var o := Classify(m, p.mem, registry, r);
    Progress(Apply(m, p.mem, registry, r), Count(p.stats, o), p.ok && Fine(o))
  }

  /** After the first n entries of the table at `addr`, each read when its turn comes. */
  function Range(m: Info, registry: seq<byte> -> U64, p: Progress, addr: int, n: nat): (p': Progress)
    ensures p'.mem.origin == p.mem.origin && |p'.mem.bytes| == |p.mem.bytes|
  {
    if n == 0 then p
    else
      var q := Range(m, registry, p, addr, n - 1);
      Step(m, registry, q, ReadRela(q.mem, addr + RELA_SIZE * (n - 1)))
  }

  // ---- the dynamic table ----

  /** The last entry with one of the two tags. */
  function LastEntry(dyns: seq<Dyn>, a: int, b: int): Option<U64> {
    if dyns == [] then None
    else
      var d := dyns[|dyns| - 1];
      if d.tag == a || d.tag == b then Some(d.val) else LastEntry(dyns[..|dyns| - 1], a, b)
  }

  function OrElse(o: Option<U64>, otherwise: U64): U64 { if o.Some? then o.value else otherwise }

  /** Where the module's relocations are: the table of DT_RELA or its SCE twin, its size and entry size, and the table
      of DT_JMPREL and its size. */
  datatype Tables = Tables(rela: Option<U64>, relaSize: U64, relaEnt: U64, jmprel: Option<U64>, pltrelsz: U64)

  function FindTables(d: seq<Dyn>): Tables {
    Tables(LastEntry(d, DT_RELA, DT_SCE_RELA), OrElse(LastEntry(d, DT_RELASZ, DT_SCE_RELASZ), 0),
           OrElse(LastEntry(d, DT_RELAENT, DT_SCE_RELAENT), RELA_SIZE),
           LastEntry(d, DT_JMPREL, DT_JMPREL), OrElse(LastEntry(d, DT_PLTRELSZ, DT_PLTRELSZ), 0))
  }

  /** DT_RELA first, DT_JMPREL second; an unexpected entry size stops everything. */
  function All(m: Info, registry: seq<byte> -> U64, mem: Memory): (p: Progress)
  {
    var t := FindTables(m.dynamics);
    var start := Progress(mem, NoStats, true);
    if t.rela.Some? && t.relaSize != 0 && t.relaEnt != RELA_SIZE then start.(ok := false)
    else
      var first :=
        if t.rela.Some? && t.relaSize != 0
        then Table(m, registry, start, Relocate(m, t.rela.value), t.relaSize / RELA_SIZE) else start;
      if t.jmprel.Some? && t.pltrelsz != 0
      then Table(m, registry, first, Relocate(m, t.jmprel.value), t.pltrelsz / RELA_SIZE) else first
  }

  /** A null table is skipped. */
  function Table(m: Info, registry: seq<byte> -> U64, p: Progress, addr: U64, count: nat): Progress {
    if addr == 0 then p else Range(m, registry, p, addr, count)
  }

  // ---- the symbol table ----

  predicate NullSymbol(mem: Memory, at: int) {
    && PeekNumber(mem, at, 4) == 0 && PeekNumber(mem, at + 4, 1) == 0
    && PeekNumber(mem, at + 6, 2) == 0 && Peek64(mem, at + 8) == 0
  }

  const MANY_SYMBOLS: nat := 0x10_0000

  /** How far the count without DT_SYMTABSZ gets from n: to the string table, to a null symbol, or past 2^20. */
  function CountFrom(mem: Memory, dynsym: U64, dynstr: U64, n: nat): (r: nat)
    ensures r >= n
    decreases MANY_SYMBOLS + 1 - n
  {
    if n > MANY_SYMBOLS || dynsym + SYM_SIZE * (n + 1) > dynstr || NullSymbol(mem, dynsym + SYM_SIZE * n) then n
    else CountFrom(mem, dynsym, dynstr, n + 1)
  }

  /** The module once populateSymbolTableFromDynamic has run. */
  function WithSymbols(m: Info, mem: Memory): Info {
    var symtab := LastEntry(m.dynamics, DT_SYMTAB, DT_SCE_SYMTAB);
    var strtab := LastEntry(m.dynamics, DT_STRTAB, DT_SCE_STRTAB);
    var size := LastEntry(m.dynamics, DT_SYMTABSZ, DT_SCE_SYMTABSZ);
    if symtab.None? || strtab.None? then m.(dynsym := 0, dynstr := 0, dynsymCount := 0)
    else
      var sym, str := Relocate(m, symtab.value), Relocate(m, strtab.value);
      m.(dynsym := sym, dynstr := str,
         dynsymCount := if size.Some? then size.value / SYM_SIZE else CountFrom(mem, sym, str, 0))
  }

  lemma NextEntry(dyns: seq<Dyn>, i: nat, a: int, b: int)
    requires i < |dyns|
    ensures LastEntry(dyns[..0], a, b) == None
    ensures var d := dyns[i];
            LastEntry(dyns[..i + 1], a, b) ==
            if d.tag == a || d.tag == b then Some(d.val) else LastEntry(dyns[..i], a, b)
  {
    assert dyns[..i + 1][..i] == dyns[..i];
  }

  lemma NoEntry(dyns: seq<Dyn>, a: int, b: int)
    ensures LastEntry(dyns[..0], a, b) == None && dyns[..|dyns|] == dyns
  {
  }

  // ---- the code ----

  class Module {
    var delta: U64
    var segments: seq<LoadedSegment>
    var dynamics: seq<Dyn>
    var dynsym: U64
    var dynstr: U64
    var dynsymCount: nat

    constructor (preferredBase: U64, actualBase: U64)
      ensures Data() == Info(Wrap(actualBase - preferredBase), [], [], 0, 0, 0)
    {
      delta := Wrap(actualBase - preferredBase);
      segments, dynamics := [], [];
      dynsym, dynstr, dynsymCount := 0, 0, 0;
    }

    function Data(): Info
      reads this
    {
      Info(delta, segments, dynamics, dynsym, dynstr, dynsymCount)
    }

    method AppendSegment(s: LoadedSegment)
      modifies this`segments
      ensures segments == old(segments) + [s]
    {
      segments := segments + [s];
    }

    method SetDynamics(dyns: seq<Dyn>)
      modifies this`dynamics
      ensures dynamics == dyns
    {
      dynamics := dyns;
    }

    method PopulateSymbolTable(mem: Memory)
      modifies this`dynsym, this`dynstr, this`dynsymCount
      ensures Data() == WithSymbols(old(Data()), mem)
    {
      hide LastEntry, CountFrom;
      dynsym, dynstr, dynsymCount := 0, 0, 0;
      var symtab: Option<U64>, strtab: Option<U64>, size: Option<U64> := None, None, None;
      NoEntry(dynamics, DT_SYMTAB, DT_SCE_SYMTAB);
      NoEntry(dynamics, DT_STRTAB, DT_SCE_STRTAB);
      NoEntry(dynamics, DT_SYMTABSZ, DT_SCE_SYMTABSZ);
      for i := 0 to |dynamics|
        invariant dynsym == 0 && dynstr == 0 && dynsymCount == 0
        invariant symtab == LastEntry(dynamics[..i], DT_SYMTAB, DT_SCE_SYMTAB)
        invariant strtab == LastEntry(dynamics[..i], DT_STRTAB, DT_SCE_STRTAB)
        invariant size == LastEntry(dynamics[..i], DT_SYMTABSZ, DT_SCE_SYMTABSZ)
      {
        var d := dynamics[i];
        NextEntry(dynamics, i, DT_SYMTAB, DT_SCE_SYMTAB);
        NextEntry(dynamics, i, DT_STRTAB, DT_SCE_STRTAB);
        NextEntry(dynamics, i, DT_SYMTABSZ, DT_SCE_SYMTABSZ);
        if d.tag == DT_SYMTAB || d.tag == DT_SCE_SYMTAB {
          symtab := Some(d.val);
        } else if d.tag == DT_STRTAB || d.tag == DT_SCE_STRTAB {
          strtab := Some(d.val);
        } else if d.tag == DT_SYMTABSZ || d.tag == DT_SCE_SYMTABSZ {
          size := Some(d.val);
        }
      }
      if symtab.None? || strtab.None? {
        return;
      }
      dynsym := Wrap(symtab.value + delta);
      dynstr := Wrap(strtab.value + delta);
      if size.Some? {
        dynsymCount := size.value / SYM_SIZE;
      } else {
        dynsymCount := CountSymbols(mem, dynsym, dynstr);
      }
    }

    method LookupExport(mem: Memory, name: seq<byte>) returns (addr: U64)
      ensures addr == Lookup(Data(), mem, name)
    {
      hide Exports, SymAddress;
      if dynsym == 0 || dynstr == 0 || dynsymCount == 0 {
        return 0;
      }
      for i := 0 to dynsymCount
        invariant LookupFrom(Data(), mem, name, 0) == LookupFrom(Data(), mem, name, i)
      {
        if Exports(Data(), mem, i, name) {
          return SymAddress(Data(), mem, i);
        }
      }
      return 0;
    }
  }

  method CountSymbols(mem: Memory, dynsym: U64, dynstr: U64) returns (n: nat)
    ensures n == CountFrom(mem, dynsym, dynstr, 0)
  {
    hide NullSymbol;
    n := 0;
    while true
      invariant n <= MANY_SYMBOLS && CountFrom(mem, dynsym, dynstr, 0) == CountFrom(mem, dynsym, dynstr, n)
      decreases MANY_SYMBOLS - n
    {
      if dynsym + SYM_SIZE * (n + 1) > dynstr {
        break;
      }
      if NullSymbol(mem, dynsym + SYM_SIZE * n) {
        break;
      }
      n := n + 1;
      if n > MANY_SYMBOLS {
        break;
      }
    }
  }

  class Processor {
    const m: Module
    const guest: Guest
    const registry: seq<byte> -> U64

    constructor (m': Module, guest': Guest, registry': seq<byte> -> U64)
      ensures m == m' && guest == guest' && registry == registry'
    {
      m, guest, registry := m', guest', registry';
    }

    method ResolveSymbol(name: seq<byte>) returns (addr: U64)
      ensures addr == Resolve(m.Data(), guest.Mem(), registry, name)
    {
      var own := m.LookupExport(guest.Mem(), name);
      if own != 0 {
        return own;
      }
      return registry(name);
    }

    method IsWritableAddress(addr: U64) returns (ok: bool)
      ensures ok == Writable(m.segments, addr)
    {
      hide Holds, WriteFlag;
      for i := 0 to |m.segments|
        invariant Writable(m.segments, addr) == Writable(m.segments[i..], addr)
      {
        if Holds(m.segments[i], addr) {
          return WriteFlag(m.segments[i]);
        }
      }
      return false;
    }

    method ApplyOne(r: Rela, stats: Stats) returns (ok: bool, stats': Stats)
      modifies guest.bytes
      ensures Progress(guest.Mem(), stats', ok) ==
              Step(m.Data(), registry, Progress(old(guest.Mem()), stats, true), r)
    {
      hide Resolve, Writable, Poke64, CString, PeekNumber;
      var typ, sym := RelType(r.info), RelSym(r.info);
      var target := Relocate(m.Data(), r.offset);
      stats' := stats.(total := stats.total + 1);
      var writable := IsWritableAddress(target);
      if !writable {
        return false, stats'.(failed := stats'.failed + 1);
      }
      if typ == 0 {
        return true, stats';
      } else if typ == 8 {
        guest.WriteU64(target, Wrap(m.delta + r.addend));
        return true, stats'.(relative := stats'.relative + 1);
      } else if typ == 1 || typ == 6 || typ == 7 {
        if !HasSymbols(m.Data()) || sym >= m.dynsymCount {
          return false, stats'.(failed := stats'.failed + 1);
        }
        var name := CString(guest.Mem(), SymName(m.Data(), guest.Mem(), sym));
        var addr := ResolveSymbol(name);
        if addr == 0 {
          return false, stats'.(failed := stats'.failed + 1);
        }
        if typ == 1 {
          guest.WriteU64(target, Wrap(addr + r.addend));
          return true, stats'.(abs64 := stats'.abs64 + 1);
        }
        guest.WriteU64(target, addr);
        if typ == 6 {
          return true, stats'.(globDat := stats'.globDat + 1);
        }
        return true, stats'.(jumpSlot := stats'.jumpSlot + 1);
      } else {
        return false, stats'.(skipped := stats'.skipped + 1, failed := stats'.failed + 1);
      }
    }

    method ApplyRelaRange(addr: U64, count: nat, stats: Stats) returns (ok: bool, stats': Stats)
      modifies guest.bytes
      ensures Progress(guest.Mem(), stats', ok) ==
              Table(m.Data(), registry, Progress(old(guest.Mem()), stats, true), addr, count)
    {
      hide Step, ReadRela;
      ok, stats' := true, stats;
      if addr == 0 || count == 0 {
        return;
      }
      ghost var start := Progress(guest.Mem(), stats, true);
      for i := 0 to count
        invariant Progress(guest.Mem(), stats', ok) == Range(m.Data(), registry, start, addr, i)
      {
        ghost var before := Progress(guest.Mem(), stats', ok);
        var r := ReadRela(guest.Mem(), addr + RELA_SIZE * i);
        var one;
        StepForgets(m.Data(), registry, guest.Mem(), stats', ok, r);
        one, stats' := ApplyOne(r, stats');
        if !one {
          ok := false;
        }
      }
    }

    method ApplyAll() returns (ok: bool, stats: Stats)
      modifies guest.bytes
      ensures Progress(guest.Mem(), stats, ok) == All(m.Data(), registry, old(guest.Mem()))
    {
      hide Range, LastEntry, Relocate;
      stats := NoStats;
      var t := ScanTables();
      ok := true;
      if t.rela.Some? && t.relaSize != 0 {
        if t.relaEnt != RELA_SIZE {
          return false, stats;
        }
        ok, stats := ApplyRelaRange(Relocate(m.Data(), t.rela.value), t.relaSize / t.relaEnt, stats);
      }
      if t.jmprel.Some? && t.pltrelsz != 0 {
        ghost var p := Progress(guest.Mem(), stats, true);
        var fine;
        TableForgets(m.Data(), registry, p.mem, stats, ok, Relocate(m.Data(), t.jmprel.value), t.pltrelsz / RELA_SIZE);
        fine, stats := ApplyRelaRange(Relocate(m.Data(), t.jmprel.value), t.pltrelsz / RELA_SIZE, stats);
        if !fine {
          ok := false;
        }
      }
    }

    method ScanTables() returns (t: Tables)
      ensures t == FindTables(m.dynamics)
    {
      hide LastEntry;
      var dyns := m.dynamics;
      var rela: Option<U64>, jmprel: Option<U64> := None, None;
      var relaSize: U64, relaEnt: U64, pltrelsz: U64 := 0, RELA_SIZE, 0;
      NoTags(dyns);
      for i := 0 to |dyns|
        invariant Tables(rela, relaSize, relaEnt, jmprel, pltrelsz) == FindTables(dyns[..i])
      {
        var d := dyns[i];
        NextTags(dyns, i);
        if d.tag == DT_RELA || d.tag == DT_SCE_RELA {
          rela := Some(d.val);
        } else if d.tag == DT_RELASZ || d.tag == DT_SCE_RELASZ {
          relaSize := d.val;
        } else if d.tag == DT_RELAENT || d.tag == DT_SCE_RELAENT {
          relaEnt := d.val;
        } else if d.tag == DT_JMPREL {
          jmprel := Some(d.val);
        } else if d.tag == DT_PLTRELSZ {
          pltrelsz := d.val;
        }
      }
      assert dyns[..|dyns|] == dyns;
      t := Tables(rela, relaSize, relaEnt, jmprel, pltrelsz);
    }
  }

  function AddTag(t: Tables, d: Dyn): Tables {
    if d.tag == DT_RELA || d.tag == DT_SCE_RELA then t.(rela := Some(d.val))
    else if d.tag == DT_RELASZ || d.tag == DT_SCE_RELASZ then t.(relaSize := d.val)
    else if d.tag == DT_RELAENT || d.tag == DT_SCE_RELAENT then t.(relaEnt := d.val)
    else if d.tag == DT_JMPREL then t.(jmprel := Some(d.val))
    else if d.tag == DT_PLTRELSZ then t.(pltrelsz := d.val)
    else t
  }

  lemma NoTags(dyns: seq<Dyn>)
    ensures FindTables(dyns[..0]) == Tables(None, 0, RELA_SIZE, None, 0)
  {
  }

  lemma NextTags(dyns: seq<Dyn>, i: nat)
    requires i < |dyns|
    ensures FindTables(dyns[..i + 1]) == AddTag(FindTables(dyns[..i]), dyns[i])
  {
    hide LastEntry;
    NextEntry(dyns, i, DT_RELA, DT_SCE_RELA);
    NextEntry(dyns, i, DT_RELASZ, DT_SCE_RELASZ);
    NextEntry(dyns, i, DT_RELAENT, DT_SCE_RELAENT);
    NextEntry(dyns, i, DT_JMPREL, DT_JMPREL);
    NextEntry(dyns, i, DT_PLTRELSZ, DT_PLTRELSZ);
  }

  /** Only `ok` remembers earlier failures. */
  lemma StepForgets(m: Info, registry: seq<byte> -> U64, mem: Memory, stats: Stats, ok: bool, r: Rela)
    ensures var p := Step(m, registry, Progress(mem, stats, true), r);
            Step(m, registry, Progress(mem, stats, ok), r) == p.(ok := ok && p.ok)
  {
    hide Classify, Apply, Count;
  }

  lemma {:induction false} TableForgets(m: Info, registry: seq<byte> -> U64, mem: Memory, stats: Stats, ok: bool,
                                        addr: U64, n: nat)
    ensures var p := Table(m, registry, Progress(mem, stats, true), addr, n);
            Table(m, registry, Progress(mem, stats, ok), addr, n) == p.(ok := ok && p.ok)
  {
    RangeForgets(m, registry, mem, stats, ok, addr, n);
  }

  lemma {:induction false} RangeForgets(m: Info, registry: seq<byte> -> U64, mem: Memory, stats: Stats, ok: bool,
                                        addr: int, n: nat)
    ensures var p := Range(m, registry, Progress(mem, stats, true), addr, n);
            Range(m, registry, Progress(mem, stats, ok), addr, n) == p.(ok := ok && p.ok)
  {
    hide Step, ReadRela;
    if n > 0 {
      RangeForgets(m, registry, mem, stats, ok, addr, n - 1);
      var q := Range(m, registry, Progress(mem, stats, true), addr, n - 1);
      var r := ReadRela(q.mem, addr + RELA_SIZE * (n - 1));
      StepForgets(m, registry, q.mem, q.stats, q.ok, r);
      StepForgets(m, registry, q.mem, q.stats, ok && q.ok, r);
    }
  }
}
