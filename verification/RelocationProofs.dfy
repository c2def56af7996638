/** What a relocated image is: every slot holds its value, nothing else has changed, in whatever order the entries come
    and wherever the image lies. */
module RelocationProofs {
  import opened Bytes
  import opened GuestMemory
  import opened Options
  import opened Relocation

  type Registry = seq<byte> -> U64

  // ---- the statistics ----

  function Sum(s: Stats): nat { s.relative + s.globDat + s.jumpSlot + s.abs64 + s.failed }

  /** How many of the first n entries are R_X86_64_NONE. */
  function Nones(m: Info, reg: Registry, p: Progress, addr: int, n: nat): nat {
    if n == 0 then 0
    else
      var q := Range(m, reg, p, addr, n - 1);
      Nones(m, reg, p, addr, n - 1)
      + if Classify(m, q.mem, reg, ReadRela(q.mem, addr + RELA_SIZE * (n - 1))).NoneType? then 1 else 0
  }

  /** One entry, by its outcome. */
  lemma StepStats(m: Info, reg: Registry, p: Progress, r: Rela)
    ensures var o, s, t := Classify(m, p.mem, reg, r), p.stats, Step(m, reg, p, r).stats;
            && t.total == s.total + 1
            && Sum(t) == Sum(s) + (if o.NoneType? then 0 else 1)
            && 0 <= t.skipped - s.skipped <= t.failed - s.failed
            && (Step(m, reg, p, r).ok <==> p.ok && t.failed == s.failed)
  {
    hide Classify, Apply;
  }

  /** total = none + relative + globDat + jumpSlot + abs64 + failed, the skipped ones are among the failed, and the
      table is reported good exactly when nothing in it failed. */
  lemma {:induction false} RangeStats(m: Info, reg: Registry, p: Progress, addr: int, n: nat)
    ensures var s, t := p.stats, Range(m, reg, p, addr, n).stats;
            && t.total - s.total == n
            && n == Nones(m, reg, p, addr, n) + (Sum(t) - Sum(s))
            && 0 <= t.skipped - s.skipped <= t.failed - s.failed
            && (Range(m, reg, p, addr, n).ok <==> p.ok && t.failed == s.failed)
  {
    hide Classify, ReadRela, Step, Sum;
    if n > 0 {
      RangeStats(m, reg, p, addr, n - 1);
      var q := Range(m, reg, p, addr, n - 1);
      StepStats(m, reg, q, ReadRela(q.mem, addr + RELA_SIZE * (n - 1)));
    }
  }

  lemma TableFailures(m: Info, reg: Registry, p: Progress, addr: U64, n: nat)
    ensures var q := Table(m, reg, p, addr, n);
            p.stats.failed <= q.stats.failed && (q.ok <==> p.ok && q.stats.failed == p.stats.failed)
  {
    hide Range;
    RangeStats(m, reg, p, addr, n);
  }

  /** applyAll succeeds exactly when no entry failed and the entry size is the expected one. */
  lemma AllOkIff(m: Info, reg: Registry, mem: Memory)
    ensures var t, p := FindTables(m.dynamics), All(m, reg, mem);
            && p.ok <==> p.stats.failed == 0 && !(t.rela.Some? && t.relaSize != 0 && t.relaEnt != RELA_SIZE)
  {
    hide Table, FindTables, Relocate;
    var t := FindTables(m.dynamics);
    var start := Progress(mem, NoStats, true);
    var first := start;
    if t.rela.Some? && t.relaSize != 0 {
      first := Table(m, reg, start, Relocate(m, t.rela.value), t.relaSize / RELA_SIZE);
      TableFailures(m, reg, start, Relocate(m, t.rela.value), t.relaSize / RELA_SIZE);
    }
    if t.jmprel.Some? {
      TableFailures(m, reg, first, Relocate(m, t.jmprel.value), t.pltrelsz / RELA_SIZE);
    }
  }

  /** Without DT_SYMTABSZ the count is 0 exactly for a table that starts with the null symbol, as every ELF symbol table
      does, or that has no room before the string table. */
  lemma CountIsZeroIff(mem: Memory, dynsym: U64, dynstr: U64)
    ensures CountFrom(mem, dynsym, dynstr, 0) == 0 <==> NullSymbol(mem, dynsym) || dynsym + SYM_SIZE > dynstr
  {
    assert CountFrom(mem, dynsym, dynstr, 1) >= 1;
  }

  /** What follows for such a module: it exports nothing, and each of its symbol relocations fails. */
  lemma NullFirstSymbolMeansNone(m: Info, mem: Memory, later: Memory, reg: Registry, name: seq<byte>, r: Rela)
    requires LastEntry(m.dynamics, DT_SYMTABSZ, DT_SCE_SYMTABSZ) == None
    requires HasSymbols(WithSymbols(m, mem)) && NullSymbol(mem, WithSymbols(m, mem).dynsym)
    ensures var m' := WithSymbols(m, mem);
            && m'.dynsymCount == 0 && Lookup(m', later, name) == 0
            && (RelType(r.info) in {1, 6, 7} ==>
                  Classify(m', later, reg, r) ==
                  if Writable(m'.segments, Relocate(m', r.offset)) then BadSymbol else NotWritable)
  {
    hide LastEntry, NullSymbol, Writable, RelType;
    var m' := WithSymbols(m, mem);
    CountIsZeroIff(mem, m'.dynsym, m'.dynstr);
  }

  // ---- symbols and strings do not change while slots are written ----

  /** A range of indices of the window. */
  datatype Area = Area(at: nat, len: nat)

  ghost predicate SameArea(mem: Memory, mem': Memory, a: Area) {
    forall k :: a.at <= k < a.at + a.len && k < |mem.bytes| && k < |mem'.bytes| ==> mem.bytes[k] == mem'.bytes[k]
  }

  ghost predicate Spared(mem: Memory, mem': Memory, areas: seq<Area>) {
    && mem.origin == mem'.origin && |mem.bytes| == |mem'.bytes|
    && forall i :: 0 <= i < |areas| ==> SameArea(mem, mem', areas[i])
  }

  /** The symbol table and the string table are areas of the window, every name starts in the string table, and the
      string table ends with a NUL. */
  ghost predicate Closed(m: Info, mem: Memory, areas: seq<Area>) {
    HasSymbols(m) ==>
      && |areas| >= 2
      && areas[0] == Area(IndexOf(mem, m.dynsym), SYM_SIZE * m.dynsymCount)
      && areas[1].at == IndexOf(mem, m.dynstr) && areas[1].len > 0
      && areas[0].at + areas[0].len <= |mem.bytes| && areas[1].at + areas[1].len <= |mem.bytes| < TWO64
      && mem.bytes[areas[1].at + areas[1].len - 1] == 0
      && forall i :: 0 <= i < m.dynsymCount ==> PeekNumber(mem, SymAt(m, i), 4) < areas[1].len
  }

  lemma IndexShift(mem: Memory, addr: int, k: nat)
    requires IndexOf(mem, addr) + k < TWO64
    ensures IndexOf(mem, addr + k) == IndexOf(mem, addr) + k
  {
  }

  lemma PeekSame(mem: Memory, mem': Memory, addr: int, n: nat, a: Area)
    requires mem.origin == mem'.origin && |mem.bytes| == |mem'.bytes| && SameArea(mem, mem', a)
    requires a.at <= IndexOf(mem, addr) && IndexOf(mem, addr) + n <= a.at + a.len
    ensures Peek(mem, addr, n) == Peek(mem', addr, n)
  {
  }

  lemma {:induction false} UpToNulSame(s: seq<byte>, t: seq<byte>, n: nat)
    requires n < |s| && n < |t| && s[n] == 0 && forall k :: 0 <= k <= n ==> s[k] == t[k]
    ensures UpToNul(s) == UpToNul(t)
  {
    if s[0] != 0 {
      UpToNulSame(s[1..], t[1..], n - 1);
    }
  }

  /** The parts of symbol i. */
  lemma SymbolSame(m: Info, mem: Memory, mem': Memory, areas: seq<Area>, i: nat)
    requires Closed(m, mem, areas) && Spared(mem, mem', areas) && HasSymbols(m) && i < m.dynsymCount
    ensures PeekNumber(mem, SymAt(m, i), 4) == PeekNumber(mem', SymAt(m, i), 4)
    ensures PeekNumber(mem, SymAt(m, i) + 6, 2) == PeekNumber(mem', SymAt(m, i) + 6, 2)
    ensures SymAddress(m, mem, i) == SymAddress(m, mem', i)
    ensures CString(mem, SymName(m, mem, i)) == CString(mem', SymName(m, mem', i))
  {
    hide Peek, FromLE, IndexOf, UpToNul;
    var a, b := areas[0], areas[1];
    assert SameArea(mem, mem', a) && SameArea(mem, mem', b);
    var at := SYM_SIZE * i;
    IndexShift(mem, m.dynsym, at);
    IndexShift(mem, m.dynsym, at + 6);
    IndexShift(mem, m.dynsym, at + 8);
    PeekSame(mem, mem', SymAt(m, i), 4, a);
    PeekSame(mem, mem', SymAt(m, i) + 6, 2, a);
    PeekSame(mem, mem', SymAt(m, i) + 8, 8, a);
    var name := PeekNumber(mem, SymAt(m, i), 4);
    IndexShift(mem, m.dynstr, name);
    IndexSame(mem, mem', SymName(m, mem, i));
    var s := b.at + name;
    UpToNulSame(mem.bytes[s..], mem'.bytes[s..], b.len - 1 - name);
  }

  lemma IndexSame(mem: Memory, mem': Memory, addr: int)
    requires mem.origin == mem'.origin
    ensures IndexOf(mem, addr) == IndexOf(mem', addr)
  {
  }

  lemma {:induction false} LookupSame(m: Info, mem: Memory, mem': Memory, areas: seq<Area>, name: seq<byte>, i: nat)
    requires Closed(m, mem, areas) && Spared(mem, mem', areas) && HasSymbols(m)
    ensures LookupFrom(m, mem, name, i) == LookupFrom(m, mem', name, i)
    decreases m.dynsymCount - i
  {
    hide Closed, Spared, PeekNumber, CString, SymAddress, SymName, SymAt;
    if i < m.dynsymCount {
      SymbolSame(m, mem, mem', areas, i);
      LookupSame(m, mem, mem', areas, name, i + 1);
    }
  }

  /** An entry means the same in any memory that has only changed outside the tables. */
  lemma MeaningSame(m: Info, mem: Memory, mem': Memory, areas: seq<Area>, reg: Registry, r: Rela)
    requires Closed(m, mem, areas) && Spared(mem, mem', areas)
    ensures Classify(m, mem, reg, r) == Classify(m, mem', reg, r)
    ensures WritesSlot(Classify(m, mem, reg, r)) ==> Value(m, mem, reg, r) == Value(m, mem', reg, r)
  {
    hide Closed, Spared, LookupFrom, CString, SymName, Writable, RelType, RelSym;
    var sym := RelSym(r.info);
    if HasSymbols(m) && sym < m.dynsymCount {
      SymbolSame(m, mem, mem', areas, sym);
      LookupSame(m, mem, mem', areas, CString(mem, SymName(m, mem, sym)), 0);
    }
  }

  // ---- the relocated image ----

  function SlotOf(m: Info, mem: Memory, r: Rela): nat { IndexOf(mem, Relocate(m, r.offset)) }

  predicate HasSlot(m: Info, mem: Memory, reg: Registry, r: Rela) { WritesSlot(Classify(m, mem, reg, r)) }

  predicate InSlot(m: Info, mem: Memory, r: Rela, k: nat) { SlotOf(m, mem, r) <= k < SlotOf(m, mem, r) + 8 }

  predicate SlotApart(m: Info, mem: Memory, r: Rela, a: Area) {
    SlotOf(m, mem, r) + 8 <= a.at || a.at + a.len <= SlotOf(m, mem, r)
  }

  predicate SlotsApart(m: Info, mem: Memory, r: Rela, q: Rela) {
    SlotOf(m, mem, r) + 8 <= SlotOf(m, mem, q) || SlotOf(m, mem, q) + 8 <= SlotOf(m, mem, r)
  }

  /** Every slot is inside the window and overlaps neither a table nor another slot. */
  ghost predicate Separate(m: Info, mem: Memory, reg: Registry, relas: seq<Rela>, areas: seq<Area>) {
    && (forall i :: 0 <= i < |relas| && HasSlot(m, mem, reg, relas[i]) ==>
          Inside(mem, Relocate(m, relas[i].offset), 8)
          && forall a :: 0 <= a < |areas| ==> SlotApart(m, mem, relas[i], areas[a]))
    && (forall i, j :: 0 <= i < j < |relas| && HasSlot(m, mem, reg, relas[i]) && HasSlot(m, mem, reg, relas[j]) ==>
          SlotsApart(m, mem, relas[i], relas[j]))
  }

  predicate SlotFilled(m: Info, mem: Memory, reg: Registry, r: Rela, after: Memory) {
    Inside(after, Relocate(m, r.offset), 8)
    && Peek(after, Relocate(m, r.offset), 8) == LE(Value(m, mem, reg, r), 8)
  }

  /** Byte k belongs to the slot of one of the entries. */
  ghost predicate Touched(m: Info, mem: Memory, reg: Registry, relas: seq<Rela>, k: nat) {
    exists i :: 0 <= i < |relas| && HasSlot(m, mem, reg, relas[i]) && InSlot(m, mem, relas[i], k)
  }

  /** `after` is `mem` with exactly the slots of the entries filled, the values computed in `mem`. */
  ghost predicate Relocated(m: Info, mem: Memory, reg: Registry, relas: seq<Rela>, after: Memory) {
    && after.origin == mem.origin && |after.bytes| == |mem.bytes|
    && (forall i :: 0 <= i < |relas| && HasSlot(m, mem, reg, relas[i]) ==> SlotFilled(m, mem, reg, relas[i], after))
    && (forall k :: 0 <= k < |mem.bytes| && !Touched(m, mem, reg, relas, k) ==> after.bytes[k] == mem.bytes[k])
  }

  lemma NothingRelocated(m: Info, mem: Memory, reg: Registry)
    ensures Relocated(m, mem, reg, [], mem)
  {
  }

  /** Tables survive: no slot touches them. */
  lemma RelocatedSpares(m: Info, mem: Memory, reg: Registry, relas: seq<Rela>, after: Memory, areas: seq<Area>)
    requires Relocated(m, mem, reg, relas, after) && Separate(m, mem, reg, relas, areas)
    ensures Spared(mem, after, areas)
  {
    hide HasSlot, SlotOf, SlotFilled;
    forall a, k | 0 <= a < |areas| && areas[a].at <= k < areas[a].at + areas[a].len && k < |mem.bytes|
      ensures mem.bytes[k] == after.bytes[k]
    {
      forall i | 0 <= i < |relas| && HasSlot(m, mem, reg, relas[i]) ensures !InSlot(m, mem, relas[i], k) {
        assert SlotApart(m, mem, relas[i], areas[a]);
      }
      assert !Touched(m, mem, reg, relas, k);
    }
  }

  /** One more entry. */
  lemma RelocateOne(m: Info, mem: Memory, reg: Registry, relas: seq<Rela>, r: Rela, now: Memory, areas: seq<Area>)
    requires Closed(m, mem, areas) && Separate(m, mem, reg, relas + [r], areas)
    requires Relocated(m, mem, reg, relas, now)
    ensures Relocated(m, mem, reg, relas + [r], Apply(m, now, reg, r))
  {
    hide Classify, Value, Closed, Touched;
    SeparatePrefix(m, mem, reg, relas, r, areas);
    RelocatedSpares(m, mem, reg, relas, now, areas);
    MeaningSame(m, mem, now, areas, reg, r);
    var all, after := relas + [r], Apply(m, now, reg, r);
    assert all[|relas|] == r;
    forall i | 0 <= i < |all| && HasSlot(m, mem, reg, all[i]) ensures SlotFilled(m, mem, reg, all[i], after) {
      if i < |relas| {
        assert all[i] == relas[i];
        EarlierSlotKept(m, mem, reg, relas[i], r, now);
      } else {
        OwnSlotFilled(m, mem, reg, r, now);
      }
    }
    forall k | 0 <= k < |mem.bytes| && !Touched(m, mem, reg, all, k) ensures after.bytes[k] == mem.bytes[k] {
      UntouchedPrefix(m, mem, reg, relas, r, k);
      assert HasSlot(m, mem, reg, r) ==> !InSlot(m, mem, r, k);
    }
  }

  lemma SeparatePrefix(m: Info, mem: Memory, reg: Registry, relas: seq<Rela>, r: Rela, areas: seq<Area>)
    requires Separate(m, mem, reg, relas + [r], areas)
    ensures Separate(m, mem, reg, relas, areas)
    ensures HasSlot(m, mem, reg, r) ==> Inside(mem, Relocate(m, r.offset), 8)
    ensures forall i :: 0 <= i < |relas| && HasSlot(m, mem, reg, relas[i]) && HasSlot(m, mem, reg, r) ==>
              SlotsApart(m, mem, relas[i], r)
  {
    hide HasSlot, SlotApart, SlotsApart, Inside;
    var all := relas + [r];
    assert all[|relas|] == r;
    assert forall i :: 0 <= i < |relas| ==> all[i] == relas[i];
  }

  lemma UntouchedPrefix(m: Info, mem: Memory, reg: Registry, relas: seq<Rela>, r: Rela, k: nat)
    requires !Touched(m, mem, reg, relas + [r], k)
    ensures !Touched(m, mem, reg, relas, k) && (HasSlot(m, mem, reg, r) ==> !InSlot(m, mem, r, k))
  {
    hide HasSlot, InSlot;
    var all := relas + [r];
    assert all[|relas|] == r;
    assert forall i :: 0 <= i < |relas| ==> all[i] == relas[i];
  }

  lemma EarlierSlotKept(m: Info, mem: Memory, reg: Registry, q: Rela, r: Rela, now: Memory)
    requires mem.origin == now.origin && |mem.bytes| == |now.bytes|
    requires SlotFilled(m, mem, reg, q, now)
    requires WritesSlot(Classify(m, now, reg, r)) ==> SlotsApart(m, mem, q, r)
    ensures SlotFilled(m, mem, reg, q, Apply(m, now, reg, r))
  {
    hide Classify, Value, LE, Relocate, IndexOf;
    IndexSame(mem, now, Relocate(m, r.offset));
    IndexSame(mem, now, Relocate(m, q.offset));
    IndexSame(now, Apply(m, now, reg, r), Relocate(m, q.offset));
    if WritesSlot(Classify(m, now, reg, r)) && Inside(now, Relocate(m, r.offset), 8) {
      StoreFrame(now.bytes, SlotOf(m, mem, r), LE(Value(m, now, reg, r), 8), SlotOf(m, mem, q), 8);
    }
  }

  lemma OwnSlotFilled(m: Info, mem: Memory, reg: Registry, r: Rela, now: Memory)
    requires mem.origin == now.origin && |mem.bytes| == |now.bytes|
    requires WritesSlot(Classify(m, now, reg, r)) && Value(m, mem, reg, r) == Value(m, now, reg, r)
    requires Inside(mem, Relocate(m, r.offset), 8)
    ensures SlotFilled(m, mem, reg, r, Apply(m, now, reg, r))
  {
    hide Classify, Value, LE;
  }

  /** The entries of a table. */
  function Entries(mem: Memory, addr: int, n: nat): (relas: seq<Rela>)
    ensures |relas| == n
  {
    if n == 0 then [] else Entries(mem, addr, n - 1) + [ReadRela(mem, addr + RELA_SIZE * (n - 1))]
  }

  predicate InsideArea(mem: Memory, addr: int, n: nat, a: Area) {
    a.at == IndexOf(mem, addr) && a.at + n <= |mem.bytes| < TWO64 && n <= a.len
  }

  /** Processing a table after the entries `before`: everything so far is relocated with the values of the memory the
      whole process started from, although tables and symbols are read from the memory being changed. */
  lemma {:induction false} RangeRelocates(m: Info, mem: Memory, reg: Registry, before: seq<Rela>, p: Progress,
                                          addr: int, n: nat, areas: seq<Area>, a: nat)
    requires Closed(m, mem, areas) && a < |areas| && InsideArea(mem, addr, RELA_SIZE * n, areas[a])
    requires Separate(m, mem, reg, before + Entries(mem, addr, n), areas)
    requires Relocated(m, mem, reg, before, p.mem)
    ensures Relocated(m, mem, reg, before + Entries(mem, addr, n), Range(m, reg, p, addr, n).mem)
  {
    hide Closed, Separate, Relocated, Apply, ReadRela;
    if n == 0 {
      assert before + [] == before;
    } else {
      var relas, r := Entries(mem, addr, n - 1), ReadRela(mem, addr + RELA_SIZE * (n - 1));
      assert before + Entries(mem, addr, n) == (before + relas) + [r];
      SeparatePrefix(m, mem, reg, before + relas, r, areas);
      RangeRelocates(m, mem, reg, before, p, addr, n - 1, areas, a);
      var q := Range(m, reg, p, addr, n - 1);
      RelocatedSpares(m, mem, reg, before + relas, q.mem, areas);
      EntrySame(mem, q.mem, addr, n - 1, areas, a);
      RelocateOne(m, mem, reg, before + relas, r, q.mem, areas);
    }
  }

  lemma EntrySame(mem: Memory, mem': Memory, addr: int, i: nat, areas: seq<Area>, a: nat)
    requires Spared(mem, mem', areas) && a < |areas| && InsideArea(mem, addr, RELA_SIZE * (i + 1), areas[a])
    ensures ReadRela(mem, addr + RELA_SIZE * i) == ReadRela(mem', addr + RELA_SIZE * i)
  {
    hide Peek, IndexOf, FromLE;
    var at := RELA_SIZE * i;
    assert SameArea(mem, mem', areas[a]);
    IndexShift(mem, addr, at);
    IndexShift(mem, addr, at + 8);
    IndexShift(mem, addr, at + 16);
    PeekSame(mem, mem', addr + at, 8, areas[a]);
    PeekSame(mem, mem', addr + at + 8, 8, areas[a]);
    PeekSame(mem, mem', addr + at + 16, 8, areas[a]);
  }

  /** All entries applyAll looks at. */
  function AllEntries(m: Info, mem: Memory): seq<Rela> {
    RelaEntries(m, mem) + JmprelEntries(m, mem)
  }

  function TableAt(m: Info, mem: Memory, at: Option<U64>, size: U64): seq<Rela> {
    if at.Some? && size != 0 && Relocate(m, at.value) != 0
    then Entries(mem, Relocate(m, at.value), size / RELA_SIZE) else []
  }

  function RelaEntries(m: Info, mem: Memory): seq<Rela> {
    var t := FindTables(m.dynamics);
    TableAt(m, mem, t.rela, t.relaSize)
  }

  function JmprelEntries(m: Info, mem: Memory): seq<Rela> {
    var t := FindTables(m.dynamics);
    TableAt(m, mem, t.jmprel, t.pltrelsz)
  }

  /** The two relocation tables are the areas 2 and 3. */
  ghost predicate TablesInside(m: Info, mem: Memory, areas: seq<Area>) {
    var t := FindTables(m.dynamics);
    && |areas| == 4
    && (t.rela.Some? && t.relaSize != 0 ==>
          InsideArea(mem, Relocate(m, t.rela.value), RELA_SIZE * (t.relaSize / RELA_SIZE), areas[2]))
    && (t.jmprel.Some? && t.pltrelsz != 0 ==>
          InsideArea(mem, Relocate(m, t.jmprel.value), RELA_SIZE * (t.pltrelsz / RELA_SIZE), areas[3]))
  }

  /** applyAll turns the image into its relocated form. */
  lemma AllRelocates(m: Info, mem: Memory, reg: Registry, areas: seq<Area>)
    requires Closed(m, mem, areas) && TablesInside(m, mem, areas)
    requires Separate(m, mem, reg, AllEntries(m, mem), areas)
    requires ExpectedEntrySize(m)
    ensures Relocated(m, mem, reg, AllEntries(m, mem), All(m, reg, mem).mem)
  {
    hide Closed, Separate, Relocated, Range, Entries, FindTables, Relocate, InsideArea;
    var t := FindTables(m.dynamics);
    var start := Progress(mem, NoStats, true);
    var first, second := RelaEntries(m, mem), JmprelEntries(m, mem);
    NothingRelocated(m, mem, reg);
    assert [] + first == first;
    SeparateFront(m, mem, reg, first, second, areas);
    if first != [] {
      RangeRelocates(m, mem, reg, [], start, Relocate(m, t.rela.value), t.relaSize / RELA_SIZE, areas, 2);
    }
    var p :=
      if t.rela.Some? && t.relaSize != 0
      then Table(m, reg, start, Relocate(m, t.rela.value), t.relaSize / RELA_SIZE) else start;
    assert Relocated(m, mem, reg, first, p.mem) by { EmptyTable(m, reg, start, mem, t.rela, t.relaSize); }
    assert first + [] == first;
    if second != [] {
      RangeRelocates(m, mem, reg, first, p, Relocate(m, t.jmprel.value), t.pltrelsz / RELA_SIZE, areas, 3);
    }
    EmptyTable(m, reg, p, mem, t.jmprel, t.pltrelsz);
  }

  lemma EmptyTable(m: Info, reg: Registry, p: Progress, mem: Memory, at: Option<U64>, size: U64)
    ensures at.Some? && size != 0 && TableAt(m, mem, at, size) == [] ==>
              Table(m, reg, p, Relocate(m, at.value), size / RELA_SIZE) == p
  {
    hide Relocate;
    if at.Some? && size != 0 && Relocate(m, at.value) != 0 {
      assert |TableAt(m, mem, at, size)| == size / RELA_SIZE;
    }
  }

  lemma {:induction false} SeparateFront(m: Info, mem: Memory, reg: Registry, first: seq<Rela>, second: seq<Rela>,
                                         areas: seq<Area>)
    requires Separate(m, mem, reg, first + second, areas)
    ensures Separate(m, mem, reg, first, areas)
    decreases |second|
  {
    hide Separate;
    if second == [] {
      assert first + second == first;
    } else {
      var init, last := second[..|second| - 1], second[|second| - 1];
      assert first + second == (first + init) + [last];
      SeparatePrefix(m, mem, reg, first + init, last, areas);
      SeparateFront(m, mem, reg, first, init, areas);
    }
  }

  // ---- where the writes go ----

  /** The first segment that holds the address, the one IsWritableAddress asks. */
  ghost predicate FirstHolder(segments: seq<LoadedSegment>, i: nat, addr: U64) {
    && i < |segments| && segments[i].vaddr <= addr < Wrap(segments[i].vaddr + segments[i].memsz)
    && forall j :: 0 <= j < i ==> !(segments[j].vaddr <= addr < Wrap(segments[j].vaddr + segments[j].memsz))
  }

  /** The first holder decides by its write flag; an address without a holder is not writable. */
  lemma {:induction false} HolderDecides(segments: seq<LoadedSegment>, i: nat, addr: U64)
    requires FirstHolder(segments, i, addr) || (i == |segments| && forall k :: !FirstHolder(segments, k, addr))
    ensures Writable(segments, addr) <==> i < |segments| && segments[i].prot / 2 % 2 == 1
  {
    if segments != [] {
      assert Holds(segments[0], addr) ==> FirstHolder(segments, 0, addr);
      if !Holds(segments[0], addr) {
        HoldersShift(segments, addr);
        HolderDecides(segments[1..], i - 1, addr);
      }
    }
  }

  lemma HoldersShift(segments: seq<LoadedSegment>, addr: U64)
    requires segments != [] && !Holds(segments[0], addr)
    ensures forall k: nat :: FirstHolder(segments, k + 1, addr) <==> FirstHolder(segments[1..], k, addr)
  {
  }

  predicate InSegmentBytes(s: LoadedSegment, x: nat) { s.vaddr <= x < s.vaddr + s.memsz }

  /** The check looks at the first of the eight bytes only: a slot stays in the segment that answers for it exactly when
      the segment goes on for eight bytes. */
  lemma WriteStaysIff(segments: seq<LoadedSegment>, i: nat, addr: U64)
    requires FirstHolder(segments, i, addr) && segments[i].vaddr + segments[i].memsz < TWO64
    ensures Writable(segments, addr) == (segments[i].prot / 2 % 2 == 1)
    ensures (forall k :: addr <= k < addr + 8 ==> InSegmentBytes(segments[i], k)) <==>
            addr + 8 <= segments[i].vaddr + segments[i].memsz
  {
    var s := segments[i];
    assert Wrap(s.vaddr + s.memsz) == s.vaddr + s.memsz;
    if forall k :: addr <= k < addr + 8 ==> InSegmentBytes(s, k) {
      assert InSegmentBytes(s, addr + 7);
    }
    HolderDecides(segments, i, addr);
  }

  /** The input: a RELATIVE entry at the only byte of a segment changes that byte and the seven after it. */
  lemma SlotPastSegment(mem: Memory, addr: U64, v: U64, reg: Registry)
    requires Inside(mem, addr, 8) && addr + 1 < TWO64
    ensures var m := Info(0, [LoadedSegment(addr, 1, 1, 2)], [], 0, 0, 0);
            var r := Rela(addr, 8, v);
            && Classify(m, mem, reg, r) == Relative
            && Load(Apply(m, mem, reg, r).bytes, IndexOf(mem, addr), 8) == LE(v, 8)
  {
    NoMove(addr);
    NoMove(v);
    NoMove(addr + 1);
    hide IndexOf, Wrap;
  }

  // ---- success ----

  /** Every entry can be applied, as of one memory. */
  ghost predicate AllFine(m: Info, mem: Memory, reg: Registry, relas: seq<Rela>) {
    forall i :: 0 <= i < |relas| ==> Fine(Classify(m, mem, reg, relas[i]))
  }

  lemma AllFineAppend(m: Info, mem: Memory, reg: Registry, a: seq<Rela>, b: seq<Rela>)
    ensures AllFine(m, mem, reg, a + b) <==> AllFine(m, mem, reg, a) && AllFine(m, mem, reg, b)
  {
    hide Classify;
    assert forall i :: 0 <= i < |a| ==> (a + b)[i] == a[i];
    assert forall i :: 0 <= i < |b| ==> (a + b)[|a| + i] == b[i];
  }

  /** A table is reported good exactly when each of its entries can be applied as of the memory the process started
      from. */
  lemma {:induction false} RangeFineIff(m: Info, mem: Memory, reg: Registry, before: seq<Rela>, p: Progress, addr: int,
                                        n: nat, areas: seq<Area>, a: nat)
    requires Closed(m, mem, areas) && a < |areas| && InsideArea(mem, addr, RELA_SIZE * n, areas[a])
    requires Separate(m, mem, reg, before + Entries(mem, addr, n), areas)
    requires Relocated(m, mem, reg, before, p.mem)
    ensures Range(m, reg, p, addr, n).ok <==> p.ok && AllFine(m, mem, reg, Entries(mem, addr, n))
  {
    hide Closed, Separate, Relocated, Classify, Apply, ReadRela, AllFine;
    if n == 0 {
      assert AllFine(m, mem, reg, []) by { AllFineNone(m, mem, reg); }
    } else {
      var relas, r := Entries(mem, addr, n - 1), ReadRela(mem, addr + RELA_SIZE * (n - 1));
      assert before + Entries(mem, addr, n) == (before + relas) + [r];
      SeparatePrefix(m, mem, reg, before + relas, r, areas);
      RangeFineIff(m, mem, reg, before, p, addr, n - 1, areas, a);
      RangeRelocates(m, mem, reg, before, p, addr, n - 1, areas, a);
      var q := Range(m, reg, p, addr, n - 1);
      RelocatedSpares(m, mem, reg, before + relas, q.mem, areas);
      EntrySame(mem, q.mem, addr, n - 1, areas, a);
      MeaningSame(m, mem, q.mem, areas, reg, r);
      AllFineAppend(m, mem, reg, relas, [r]);
      AllFineOne(m, mem, reg, r);
    }
  }

  lemma AllFineNone(m: Info, mem: Memory, reg: Registry)
    ensures AllFine(m, mem, reg, [])
  {
  }

  lemma AllFineOne(m: Info, mem: Memory, reg: Registry, r: Rela)
    ensures AllFine(m, mem, reg, [r]) <==> Fine(Classify(m, mem, reg, r))
  {
    hide Classify;
    assert [r][0] == r;
  }

  predicate ExpectedEntrySize(m: Info) {
    var t := FindTables(m.dynamics);
    t.rela.Some? && t.relaSize != 0 ==> t.relaEnt == RELA_SIZE
  }

  /** applyAll succeeds exactly when the entry size is the expected one and every entry can be applied to the initial
      image, whatever the entries before it have written. */
  lemma AllFineIff(m: Info, mem: Memory, reg: Registry, areas: seq<Area>)
    requires Closed(m, mem, areas) && TablesInside(m, mem, areas)
    requires Separate(m, mem, reg, AllEntries(m, mem), areas)
    ensures All(m, reg, mem).ok <==> ExpectedEntrySize(m) && AllFine(m, mem, reg, AllEntries(m, mem))
  {
    hide Closed, Separate, Relocated, Range, Entries, FindTables, Relocate, InsideArea, AllFine;
    var t := FindTables(m.dynamics);
    var start := Progress(mem, NoStats, true);
    var first, second := RelaEntries(m, mem), JmprelEntries(m, mem);
    if ExpectedEntrySize(m) {
      NothingRelocated(m, mem, reg);
      AllFineNone(m, mem, reg);
      AllFineAppend(m, mem, reg, first, second);
      assert [] + first == first;
      SeparateFront(m, mem, reg, first, second, areas);
      if first != [] {
        RangeRelocates(m, mem, reg, [], start, Relocate(m, t.rela.value), t.relaSize / RELA_SIZE, areas, 2);
        RangeFineIff(m, mem, reg, [], start, Relocate(m, t.rela.value), t.relaSize / RELA_SIZE, areas, 2);
      }
      var p :=
        if t.rela.Some? && t.relaSize != 0
        then Table(m, reg, start, Relocate(m, t.rela.value), t.relaSize / RELA_SIZE) else start;
      EmptyTable(m, reg, start, mem, t.rela, t.relaSize);
      assert Relocated(m, mem, reg, first, p.mem);
      if second != [] {
        RangeFineIff(m, mem, reg, first, p, Relocate(m, t.jmprel.value), t.pltrelsz / RELA_SIZE, areas, 3);
      }
      EmptyTable(m, reg, p, mem, t.jmprel, t.pltrelsz);
    }
  }

  // ---- order ----

  /** The relocated image depends only on which entries there are. */
  lemma RelocatedUnique(m: Info, mem: Memory, reg: Registry, relas: seq<Rela>, relas': seq<Rela>, after: Memory,
                        after': Memory)
    requires forall r :: r in relas <==> r in relas'
    requires Relocated(m, mem, reg, relas, after) && Relocated(m, mem, reg, relas', after')
    ensures after == after'
  {
    hide HasSlot, Value, LE;
    forall k | 0 <= k < |mem.bytes| ensures after.bytes[k] == after'.bytes[k] {
      if Touched(m, mem, reg, relas, k) {
        var i :| 0 <= i < |relas| && HasSlot(m, mem, reg, relas[i]) && InSlot(m, mem, relas[i], k);
        var r := relas[i];
        assert r in relas';
        var j :| 0 <= j < |relas'| && relas'[j] == r;
        assert SlotFilled(m, mem, reg, relas[i], after) && SlotFilled(m, mem, reg, relas'[j], after');
        SlotByte(m, mem, reg, r, after, k);
        SlotByte(m, mem, reg, r, after', k);
      } else {
        forall j | 0 <= j < |relas'| && HasSlot(m, mem, reg, relas'[j]) ensures !InSlot(m, mem, relas'[j], k) {
          assert relas'[j] in relas;
          var i :| 0 <= i < |relas| && relas[i] == relas'[j];
        }
        assert !Touched(m, mem, reg, relas', k);
      }
    }
    assert after.bytes == after'.bytes;
  }

  lemma SlotByte(m: Info, mem: Memory, reg: Registry, r: Rela, after: Memory, k: nat)
    requires SlotFilled(m, mem, reg, r, after) && after.origin == mem.origin && InSlot(m, mem, r, k)
    ensures k < |after.bytes| && after.bytes[k] == LE(Value(m, mem, reg, r), 8)[k - SlotOf(m, mem, r)]
  {
    hide Value, LE;
    var s := SlotOf(m, mem, r);
    assert Load(after.bytes, s, 8)[k - s] == after.bytes[k];
  }

  // ---- two bases ----

  /** The same module `d` bytes higher; tables it does not have stay absent. */
  function Rebased(m: Info, d: U64): Info {
    m.(delta := Wrap(m.delta + d),
       segments := seq(|m.segments|, i requires 0 <= i < |m.segments| =>
                         m.segments[i].(vaddr := Wrap(m.segments[i].vaddr + d))),
       dynsym := if HasSymbols(m) then Wrap(m.dynsym + d) else m.dynsym,
       dynstr := if HasSymbols(m) then Wrap(m.dynstr + d) else m.dynstr)
  }

  /** Symbol i is defined in the module and has a name. */
  predicate Named(m: Info, mem: Memory, i: nat) {
    PeekNumber(mem, SymAt(m, i) + 6, 2) != 0 && PeekNumber(mem, SymAt(m, i), 4) != 0
  }

  /** No segment reaches past the address space, and no export lies at address 0, where a lookup takes it for
      missing. */
  ghost predicate Sane(m: Info, mem: Memory) {
    && (forall i :: 0 <= i < |m.segments| ==> m.segments[i].vaddr + m.segments[i].memsz < TWO64)
    && (HasSymbols(m) ==> forall i :: 0 <= i < m.dynsymCount && Named(m, mem, i) ==> SymAddress(m, mem, i) != 0)
  }

  /** Address x of one window and address x + d of the other are `shift` places apart; neither window is so big that
      such a place could be reached around the end of the address space. */
  predicate Apart(mem: Memory, mem': Memory, d: U64, shift: int) {
    && Wrap(mem'.origin + shift) == Wrap(mem.origin + d)
    && |mem.bytes| + |mem'.bytes| + (if shift < 0 then -shift else shift) < TWO64
  }

  /** The bytes of the area are in both windows, `shift` places apart. */
  ghost predicate Copied(mem: Memory, mem': Memory, shift: int, a: Area) {
    && a.at + a.len <= |mem.bytes| && 0 <= a.at + shift && a.at + shift + a.len <= |mem'.bytes|
    && Load(mem.bytes, a.at, a.len) == Load(mem'.bytes, a.at + shift, a.len)
  }

  /** The symbol and the string table are there in both places. */
  ghost predicate Moved(m: Info, mem: Memory, mem': Memory, d: U64, shift: int, areas: seq<Area>) {
    && Apart(mem, mem', d, shift) && Closed(m, mem, areas)
    && (HasSymbols(m) ==> Copied(mem, mem', shift, areas[0]) && Copied(mem, mem', shift, areas[1]))
    && HasSymbols(Rebased(m, d)) == HasSymbols(m)
    && Sane(m, mem) && Sane(Rebased(m, d), mem')
  }

  lemma WrapAdd(x: int, d: int)
    ensures Wrap(Wrap(x) + d) == Wrap(x + d)
  {
  }

  lemma WrapDifference(a: int, b: int, c: int, e: int)
    requires Wrap(a) == Wrap(b) && Wrap(c) == Wrap(e)
    ensures Wrap(a - c) == Wrap(b - e)
  {
    var p, q := (a - b) / TWO64, (c - e) / TWO64;
    Congruent(a, b);
    Congruent(c, e);
    assert a - c == b - e + (p - q) * TWO64;
    AddMultiple(b - e, p - q);
  }

  lemma Congruent(a: int, b: int)
    requires Wrap(a) == Wrap(b)
    ensures a - b == (a - b) / TWO64 * TWO64
  {
    assert a == a / TWO64 * TWO64 + a % TWO64 && b == b / TWO64 * TWO64 + b % TWO64;
  }

  lemma AddMultiple(x: int, n: int)
    ensures Wrap(x + n * TWO64) == Wrap(x)
  {
    var y := x + n * TWO64;
    assert y == (x / TWO64 + n) * TWO64 + x % TWO64;
    assert y == y / TWO64 * TWO64 + y % TWO64;
  }

  /** The index of a moved address, when one of the two is a place in its window. */
  lemma IndexMoved(mem: Memory, mem': Memory, d: U64, shift: int, addr: int, addr': int)
    requires Apart(mem, mem', d, shift) && Wrap(addr') == Wrap(addr + d)
    ensures 0 <= IndexOf(mem, addr) + shift <= |mem'.bytes| ==> IndexOf(mem', addr') == IndexOf(mem, addr) + shift
    ensures IndexOf(mem, addr) <= |mem.bytes| && IndexOf(mem', addr') <= |mem'.bytes| ==>
              IndexOf(mem', addr') == IndexOf(mem, addr) + shift
  {
    IndexWraps(mem, mem', d, shift, addr, addr');
    var x := IndexOf(mem, addr) + shift;
    assert 0 <= x < TWO64 ==> Wrap(x) == x;
    assert x < 0 < x + TWO64 ==> Wrap(x) == x + TWO64;
  }

  lemma IndexWraps(mem: Memory, mem': Memory, d: U64, shift: int, addr: int, addr': int)
    requires Apart(mem, mem', d, shift) && Wrap(addr') == Wrap(addr + d)
    ensures IndexOf(mem', addr') == Wrap(IndexOf(mem, addr) + shift)
  {
    hide Wrap;
    WrapDifference(addr', addr + d, mem'.origin + shift, mem.origin + d);
    assert Wrap(addr' - mem'.origin - shift) == Wrap(addr - mem.origin);
    WrapDifference(addr' - mem'.origin - shift, addr - mem.origin, -shift, -shift);
    WrapAdd(addr - mem.origin, shift);
  }

  lemma PeekMoved(mem: Memory, mem': Memory, d: U64, shift: int, addr: int, addr': int, n: nat, a: Area)
    requires Apart(mem, mem', d, shift) && Copied(mem, mem', shift, a) && Wrap(addr') == Wrap(addr + d)
    requires a.at <= IndexOf(mem, addr) && IndexOf(mem, addr) + n <= a.at + a.len
    ensures Peek(mem', addr', n) == Peek(mem, addr, n)
  {
    IndexMoved(mem, mem', d, shift, addr, addr');
    hide IndexOf;
    var i := IndexOf(mem, addr);
    var s, t := Load(mem.bytes, i, n), Load(mem'.bytes, i + shift, n);
    var x, y := Load(mem.bytes, a.at, a.len), Load(mem'.bytes, a.at + shift, a.len);
    forall k | 0 <= k < n ensures s[k] == t[k] {
      assert s[k] == mem.bytes[i + k] == x[i - a.at + k];
      assert t[k] == mem'.bytes[i + shift + k] == y[i - a.at + k];
    }
    assert s == t;
  }

  lemma SymAtMoved(m: Info, d: U64, i: nat, k: nat)
    requires HasSymbols(m)
    ensures Wrap(SymAt(Rebased(m, d), i) + k) == Wrap(SymAt(m, i) + k + d)
  {
    WrapAdd(m.dynsym + d, SYM_SIZE * i + k);
  }

  /** The three fields of symbol i, by their index. */
  lemma FieldIndices(m: Info, mem: Memory, areas: seq<Area>, i: nat)
    requires Closed(m, mem, areas) && HasSymbols(m) && i < m.dynsymCount
    ensures IndexOf(mem, SymAt(m, i)) == areas[0].at + SYM_SIZE * i
    ensures IndexOf(mem, SymAt(m, i) + 6) == areas[0].at + SYM_SIZE * i + 6
    ensures IndexOf(mem, SymAt(m, i) + 8) == areas[0].at + SYM_SIZE * i + 8
    ensures SYM_SIZE * i + SYM_SIZE <= areas[0].len
    ensures IndexOf(mem, SymName(m, mem, i)) == areas[1].at + PeekNumber(mem, SymAt(m, i), 4)
    ensures PeekNumber(mem, SymAt(m, i), 4) < areas[1].len
  {
    hide IndexOf, Peek, FromLE;
    IndexShift(mem, m.dynsym, SYM_SIZE * i);
    IndexShift(mem, m.dynsym, SYM_SIZE * i + 6);
    IndexShift(mem, m.dynsym, SYM_SIZE * i + 8);
    IndexShift(mem, m.dynstr, PeekNumber(mem, SymAt(m, i), 4));
  }

  lemma SymbolMoved(m: Info, mem: Memory, mem': Memory, d: U64, shift: int, areas: seq<Area>, i: nat)
    requires Moved(m, mem, mem', d, shift, areas) && HasSymbols(m) && i < m.dynsymCount
    ensures var m' := Rebased(m, d);
            && PeekNumber(mem', SymAt(m', i), 4) == PeekNumber(mem, SymAt(m, i), 4)
            && PeekNumber(mem', SymAt(m', i) + 6, 2) == PeekNumber(mem, SymAt(m, i) + 6, 2)
            && SymAddress(m', mem', i) == Wrap(SymAddress(m, mem, i) + d)
            && CString(mem', SymName(m', mem', i)) == CString(mem, SymName(m, mem, i))
  {
    hide Peek, FromLE, IndexOf, UpToNul, Rebased, SymAt, Sane, Copied, Apart, Wrap, Pow256;
    var m' := Rebased(m, d);
    FieldIndices(m, mem, areas, i);
    SymAtMoved(m, d, i, 0);
    SymAtMoved(m, d, i, 6);
    SymAtMoved(m, d, i, 8);
    PeekMoved(mem, mem', d, shift, SymAt(m, i), SymAt(m', i), 4, areas[0]);
    PeekMoved(mem, mem', d, shift, SymAt(m, i) + 6, SymAt(m', i) + 6, 2, areas[0]);
    PeekMoved(mem, mem', d, shift, SymAt(m, i) + 8, SymAt(m', i) + 8, 8, areas[0]);
    RebasedParts(m, d);
    var st := PeekNumber(mem, SymAt(m, i), 4);
    WrapAdd(m.dynstr + d, st);
    NameMoved(mem, mem', d, shift, SymName(m, mem, i), SymName(m', mem', i), areas[1]);
    AddressMoved(Peek64(mem, SymAt(m, i) + 8), m.delta, d);
  }

  /** A string of a table that ends with a NUL. */
  lemma NameMoved(mem: Memory, mem': Memory, d: U64, shift: int, addr: int, addr': int, a: Area)
    requires Apart(mem, mem', d, shift) && Copied(mem, mem', shift, a) && Wrap(addr') == Wrap(addr + d)
    requires a.len > 0 && mem.bytes[a.at + a.len - 1] == 0 && a.at <= IndexOf(mem, addr) < a.at + a.len
    ensures CString(mem', addr') == CString(mem, addr)
  {
    IndexMoved(mem, mem', d, shift, addr, addr');
    hide IndexOf, UpToNul;
    var i := IndexOf(mem, addr);
    var s, t := mem.bytes[i..], mem'.bytes[i + shift..];
    var n := a.at + a.len - 1 - i;
    forall k | 0 <= k <= n ensures s[k] == t[k] {
      assert Load(mem.bytes, a.at, a.len)[i - a.at + k] == Load(mem'.bytes, a.at + shift, a.len)[i - a.at + k];
    }
    UpToNulSame(s, t, n);
  }

  lemma AddressMoved(v: U64, delta: U64, d: U64)
    ensures Wrap(v + Wrap(delta + d)) == Wrap(Wrap(v + delta) + d)
  {
    WrapAdd(delta + d, v);
    WrapAdd(v + delta, d);
  }

  lemma RebasedParts(m: Info, d: U64)
    ensures var m' := Rebased(m, d);
            && m'.delta == Wrap(m.delta + d) && m'.dynsymCount == m.dynsymCount && |m'.segments| == |m.segments|
            && m'.dynamics == m.dynamics
            && (HasSymbols(m) ==> m'.dynsym == Wrap(m.dynsym + d) && m'.dynstr == Wrap(m.dynstr + d))
            && forall i :: 0 <= i < |m.segments| ==>
                 m'.segments[i] == m.segments[i].(vaddr := Wrap(m.segments[i].vaddr + d))
  {
  }

  /** Some symbol from i on exports the name. */
  predicate Defined(m: Info, mem: Memory, name: seq<byte>, i: nat)
    decreases m.dynsymCount - i
  {
    i < m.dynsymCount && (Exports(m, mem, i, name) || Defined(m, mem, name, i + 1))
  }

  lemma ExportsNamed(m: Info, mem: Memory, i: nat, name: seq<byte>)
    ensures Exports(m, mem, i, name) <==> Named(m, mem, i) && CString(mem, SymName(m, mem, i)) == name
  {
  }

  lemma {:induction false} LookupMoved(m: Info, mem: Memory, mem': Memory, d: U64, shift: int, areas: seq<Area>,
                                       name: seq<byte>, i: nat)
    requires Moved(m, mem, mem', d, shift, areas) && HasSymbols(m)
    ensures var v, v' := LookupFrom(m, mem, name, i), LookupFrom(Rebased(m, d), mem', name, i);
            if Defined(m, mem, name, i) then v != 0 && v' != 0 && v' == Wrap(v + d) else v == v' == 0
    decreases m.dynsymCount - i
  {
    hide Exports, SymAddress, Rebased, Apart, Copied, Closed, PeekNumber, CString, SymAt, SymName, Wrap;
    RebasedParts(m, d);
    if i < m.dynsymCount {
      SymbolMoved(m, mem, mem', d, shift, areas, i);
      ExportsNamed(m, mem, i, name);
      ExportsNamed(Rebased(m, d), mem', i, name);
      LookupMoved(m, mem, mem', d, shift, areas, name, i + 1);
    }
  }

  lemma {:induction false} WritableMoved(segments: seq<LoadedSegment>, segments': seq<LoadedSegment>, d: U64, addr: U64)
    requires |segments| == |segments'|
    requires forall i :: 0 <= i < |segments| ==> segments'[i] == segments[i].(vaddr := Wrap(segments[i].vaddr + d))
    requires forall i :: 0 <= i < |segments| ==> segments[i].vaddr + segments[i].memsz < TWO64
    requires forall i :: 0 <= i < |segments| ==> segments'[i].vaddr + segments'[i].memsz < TWO64
    ensures Writable(segments', Wrap(addr + d)) == Writable(segments, addr)
  {
    if segments != [] {
      assert segments'[0] == segments[0].(vaddr := Wrap(segments[0].vaddr + d));
      HoldsMoved(segments[0], segments'[0], d, addr);
      hide Holds;
      WritableMoved(segments[1..], segments'[1..], d, addr);
    }
  }

  lemma HoldsMoved(s: LoadedSegment, s': LoadedSegment, d: U64, addr: U64)
    requires s' == s.(vaddr := Wrap(s.vaddr + d)) && s.vaddr + s.memsz < TWO64 && s'.vaddr + s'.memsz < TWO64
    ensures Holds(s', Wrap(addr + d)) == Holds(s, addr)
  {
    assert s'.vaddr == s.vaddr + d || s'.vaddr == s.vaddr + d - TWO64;
    assert Wrap(addr + d) == addr + d || Wrap(addr + d) == addr + d - TWO64;
    NoMove(s.vaddr + s.memsz);
    NoMove(s'.vaddr + s'.memsz);
    hide Wrap;
  }

  /** The value moves with the image: RELATIVE, and symbols the module itself exports. */
  predicate Moves(m: Info, mem: Memory, r: Rela) {
    RelType(r.info) == 8 || Defined(m, mem, CString(mem, SymName(m, mem, RelSym(r.info))), 0)
  }

  lemma ClassMoved(m: Info, mem: Memory, mem': Memory, reg: Registry, d: U64, shift: int, areas: seq<Area>, r: Rela)
    requires Moved(m, mem, mem', d, shift, areas)
    ensures Classify(Rebased(m, d), mem', reg, r) == Classify(m, mem, reg, r)
  {
    hide SymbolOutcome, SymbolValue, Defined, Writable, CString, SymName, Rebased, RelType, RelSym, Wrap;
    hide Relocate, Apart, Copied, Closed, Named, SymAddress;
    var m' := Rebased(m, d);
    RebasedParts(m, d);
    TargetMoved(m, d, r.offset);
    WritableMoved(m.segments, m'.segments, d, Relocate(m, r.offset));
    SymbolValueMoved(m, mem, mem', reg, d, shift, areas, r, Abs64);
    SymbolValueMoved(m, mem, mem', reg, d, shift, areas, r, GlobDat);
    SymbolValueMoved(m, mem, mem', reg, d, shift, areas, r, JumpSlot);
  }

  lemma ValueMoved(m: Info, mem: Memory, mem': Memory, reg: Registry, d: U64, shift: int, areas: seq<Area>, r: Rela)
    requires Moved(m, mem, mem', d, shift, areas) && HasSlot(m, mem, reg, r)
    ensures Value(Rebased(m, d), mem', reg, r) == Wrap(Value(m, mem, reg, r) + if Moves(m, mem, r) then d else 0)
  {
    hide SymbolValue, Defined, Writable, CString, SymName, Rebased, RelType, RelSym, Wrap, Moved;
    RebasedParts(m, d);
    SymbolValueMoved(m, mem, mem', reg, d, shift, areas, r, Abs64);
    var s := SymbolValue(m, mem, reg, r);
    SumMoved(s, r.addend, d);
    SumMoved(m.delta, r.addend, d);
    NoMove(s);
    NoMove(Wrap(s + r.addend));
  }

  /** Whether the symbol of an entry resolves does not depend on the base; its value moves if the module defines it. */
  lemma SymbolValueMoved(m: Info, mem: Memory, mem': Memory, reg: Registry, d: U64, shift: int, areas: seq<Area>,
                         r: Rela, fine: Outcome)
    requires Moved(m, mem, mem', d, shift, areas)
    ensures var m' := Rebased(m, d);
            var own := Defined(m, mem, CString(mem, SymName(m, mem, RelSym(r.info))), 0);
            && SymbolOutcome(m', mem', reg, RelSym(r.info), fine) == SymbolOutcome(m, mem, reg, RelSym(r.info), fine)
            && (HasSymbols(m) && RelSym(r.info) < m.dynsymCount ==>
                  SymbolValue(m', mem', reg, r) ==
                  if own then Wrap(SymbolValue(m, mem, reg, r) + d) else SymbolValue(m, mem, reg, r))
  {
    hide LookupFrom, Defined, CString, SymName, Rebased, RelSym, Wrap, Apart, Copied, Closed, Sane;
    RebasedParts(m, d);
    var sym := RelSym(r.info);
    if HasSymbols(m) && sym < m.dynsymCount {
      SymbolMoved(m, mem, mem', d, shift, areas, sym);
      LookupMoved(m, mem, mem', d, shift, areas, CString(mem, SymName(m, mem, sym)), 0);
    }
  }

  lemma TargetMoved(m: Info, d: U64, offset: U64)
    ensures Relocate(Rebased(m, d), offset) == Wrap(Relocate(m, offset) + d)
  {
    AddressMoved(offset, m.delta, d);
  }

  /** A slot that both windows hold is `shift` places apart in them. */
  lemma SlotMoved(m: Info, mem: Memory, mem': Memory, d: U64, shift: int, r: Rela)
    requires Apart(mem, mem', d, shift)
    requires SlotOf(m, mem, r) <= |mem.bytes| && SlotOf(Rebased(m, d), mem', r) <= |mem'.bytes|
    ensures SlotOf(Rebased(m, d), mem', r) == SlotOf(m, mem, r) + shift
  {
    TargetMoved(m, d, r.offset);
    hide Relocate, IndexOf, Rebased;
    NoMove(Wrap(Relocate(m, r.offset) + d));
    IndexMoved(mem, mem', d, shift, Relocate(m, r.offset), Relocate(Rebased(m, d), r.offset));
  }

  lemma SumMoved(s: U64, a: U64, d: U64)
    ensures Wrap(Wrap(s + d) + a) == Wrap(Wrap(s + a) + d)
  {
    WrapAdd(s + d, a);
    WrapAdd(s + a, d);
  }

  lemma NoMove(v: U64)
    ensures Wrap(v) == v && Wrap(v + 0) == v
  {
  }

  /** One entry at two bases: the same outcome, the slots `shift` places apart, and values that differ by `d` exactly
      when the value moves with the image. */
  ghost predicate EntryMoved(m: Info, mem: Memory, mem': Memory, reg: Registry, d: U64, shift: int, r: Rela) {
    && HasSlot(Rebased(m, d), mem', reg, r) == HasSlot(m, mem, reg, r)
    && (HasSlot(m, mem, reg, r) ==>
          && SlotOf(Rebased(m, d), mem', r) == SlotOf(m, mem, r) + shift
          && Value(Rebased(m, d), mem', reg, r) == Wrap(Value(m, mem, reg, r) + if Moves(m, mem, r) then d else 0))
  }

  lemma EntryMoves(m: Info, mem: Memory, mem': Memory, reg: Registry, d: U64, shift: int, areas: seq<Area>, r: Rela,
                   after: Memory, after': Memory)
    requires Moved(m, mem, mem', d, shift, areas)
    requires after.origin == mem.origin && |after.bytes| == |mem.bytes|
    requires after'.origin == mem'.origin && |after'.bytes| == |mem'.bytes|
    requires HasSlot(m, mem, reg, r) ==> SlotFilled(m, mem, reg, r, after)
    requires HasSlot(Rebased(m, d), mem', reg, r) ==> SlotFilled(Rebased(m, d), mem', reg, r, after')
    ensures EntryMoved(m, mem, mem', reg, d, shift, r)
  {
    hide Classify, Value, Rebased, Apart, Copied, Closed, Sane, Peek, Relocate, LE, IndexOf;
    ClassMoved(m, mem, mem', reg, d, shift, areas, r);
    if HasSlot(m, mem, reg, r) {
      ValueMoved(m, mem, mem', reg, d, shift, areas, r);
      IndexSame(mem, after, Relocate(m, r.offset));
      IndexSame(mem', after', Relocate(Rebased(m, d), r.offset));
      SlotMoved(m, mem, mem', d, shift, r);
    }
  }

  /** Loading at two bases: bytes that were the same before relocation and belong to no slot are the same after it, and
      the slots of entries that move with the image differ by the difference of the bases, all others not at all. */
  lemma TwoBases(m: Info, mem: Memory, mem': Memory, reg: Registry, d: U64, shift: int, areas: seq<Area>,
                 relas: seq<Rela>, after: Memory, after': Memory)
    requires Moved(m, mem, mem', d, shift, areas)
    requires Relocated(m, mem, reg, relas, after) && Relocated(Rebased(m, d), mem', reg, relas, after')
    ensures forall k :: 0 <= k < |mem.bytes| && 0 <= k + shift < |mem'.bytes| && !Touched(m, mem, reg, relas, k) ==>
              mem'.bytes[k + shift] == mem.bytes[k] ==> after'.bytes[k + shift] == after.bytes[k]
    ensures forall i :: 0 <= i < |relas| && HasSlot(m, mem, reg, relas[i]) ==>
              Peek64(after', Relocate(Rebased(m, d), relas[i].offset)) ==
              Wrap(Peek64(after, Relocate(m, relas[i].offset)) + if Moves(m, mem, relas[i]) then d else 0)
  {
    hide HasSlot, Value, Moves, SlotOf, Rebased, Peek, LE, FromLE, Relocate, Moved, SlotFilled;
    var m' := Rebased(m, d);
    forall i | 0 <= i < |relas| ensures EntryMoved(m, mem, mem', reg, d, shift, relas[i]) {
      EntryMoves(m, mem, mem', reg, d, shift, areas, relas[i], after, after');
    }
    forall i | 0 <= i < |relas| && HasSlot(m, mem, reg, relas[i])
      ensures Peek64(after', Relocate(m', relas[i].offset)) ==
              Wrap(Peek64(after, Relocate(m, relas[i].offset)) + if Moves(m, mem, relas[i]) then d else 0)
    {
      var r := relas[i];
      assert EntryMoved(m, mem, mem', reg, d, shift, r);
      SlotNumber(m, mem, reg, r, after);
      SlotNumber(m', mem', reg, r, after');
    }
    forall k | 0 <= k < |mem.bytes| && 0 <= k + shift < |mem'.bytes| && !Touched(m, mem, reg, relas, k)
               && mem'.bytes[k + shift] == mem.bytes[k]
      ensures after'.bytes[k + shift] == after.bytes[k]
    {
      UntouchedMoved(m, mem, mem', reg, d, shift, relas, k);
    }
  }

  lemma UntouchedMoved(m: Info, mem: Memory, mem': Memory, reg: Registry, d: U64, shift: int, relas: seq<Rela>, k: nat)
    requires forall i :: 0 <= i < |relas| ==> EntryMoved(m, mem, mem', reg, d, shift, relas[i])
    requires 0 <= k + shift && !Touched(m, mem, reg, relas, k)
    ensures !Touched(Rebased(m, d), mem', reg, relas, k + shift)
  {
    hide HasSlot, Value, Moves, SlotOf, Rebased;
    var m' := Rebased(m, d);
    forall i | 0 <= i < |relas| && HasSlot(m', mem', reg, relas[i]) ensures !InSlot(m', mem', relas[i], k + shift) {
      assert EntryMoved(m, mem, mem', reg, d, shift, relas[i]);
      assert !InSlot(m, mem, relas[i], k);
    }
  }

  lemma SlotNumber(m: Info, mem: Memory, reg: Registry, r: Rela, after: Memory)
    requires SlotFilled(m, mem, reg, r, after)
    ensures Peek64(after, Relocate(m, r.offset)) == Value(m, mem, reg, r)
  {
    hide Value, Peek, LE, FromLE, Relocate;
    Pow256Values();
    LERoundTrip(Value(m, mem, reg, r), 8);
  }
}
