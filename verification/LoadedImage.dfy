/** Placement and relocation together: every byte of the image a load leaves, and the same image at another base. */
module LoadedImage {
  import opened Bytes
  import opened GuestMemory
  import opened Options
  import opened Relocation
  import opened RelocationProofs
  import opened ElfLoader
  import AddressSpace

  // ---- what the loader has when it starts to relocate ----

  /** The segments can be placed, each in a free range of the arena. */
  ghost predicate Placement(plan: Plan, before: Memory, regions: seq<AddressSpace.Region>, loads: seq<Segment>) {
    && ArenaWindow(before) && WellSized(loads)
    && AddressSpace.RegionsOk(regions) && CanPlace(plan, regions, loads)
  }

  /** And no sum about a segment's place wraps, so that it lies where its address in the file says. */
  ghost predicate SanePlacement(plan: Plan, before: Memory, regions: seq<AddressSpace.Region>, loads: seq<Segment>) {
    Placement(plan, before, regions, loads) && AllSane(plan, loads)
  }

  /** The address is one of the bytes of the segment in memory. */
  predicate Covers(plan: Plan, s: Segment, addr: U64) { At(plan, s) <= addr < Wrap(At(plan, s) + s.memsz) }

  /** It is the first one that covers the address. */
  ghost predicate FirstCover(plan: Plan, loads: seq<Segment>, i: nat, addr: U64) {
    i < |loads| && Covers(plan, loads[i], addr) && forall j :: 0 <= j < i ==> !Covers(plan, loads[j], addr)
  }

  /** What relocation takes for writable: addresses whose first segment has the W flag of the file. */
  lemma WritableIff(plan: Plan, loads: seq<Segment>, addr: U64)
    ensures Writable(Descriptors(plan, loads), addr) <==>
            exists i: nat :: FirstCover(plan, loads, i, addr) && loads[i].flags / 2 % 2 == 1
  {
    hide Writable, FirstHolder, FirstCover;
    var ds := Descriptors(plan, loads);
    forall i: nat ensures FirstHolder(ds, i, addr) <==> FirstCover(plan, loads, i, addr) {
      SameFirst(plan, loads, i, addr);
    }
    if i: nat :| FirstHolder(ds, i, addr) {
      HolderDecides(ds, i, addr);
      OnlyFirst(plan, loads, i, addr);
    } else {
      HolderDecides(ds, |ds|, addr);
    }
  }

  lemma SameFirst(plan: Plan, loads: seq<Segment>, i: nat, addr: U64)
    ensures FirstHolder(Descriptors(plan, loads), i, addr) <==> FirstCover(plan, loads, i, addr)
  {
    hide At;
    var ds := Descriptors(plan, loads);
    forall j | 0 <= j < |loads|
      ensures Covers(plan, loads[j], addr) <==> ds[j].vaddr <= addr < Wrap(ds[j].vaddr + ds[j].memsz) {
    }
    hide Covers;
  }

  lemma OnlyFirst(plan: Plan, loads: seq<Segment>, i: nat, addr: U64)
    requires FirstCover(plan, loads, i, addr)
    ensures i < |loads| && forall k: nat :: FirstCover(plan, loads, k, addr) ==> k == i
  {
    forall k: nat | FirstCover(plan, loads, k, addr) ensures k == i {
      if k < i {
      } else if i < k {
      }
    }
  }

  /** Where the tables of a module are. */
  function TableAreas(m: Info, mem: Memory, strLen: nat): (areas: seq<Area>)
    ensures |areas| == 4
  {
    var t := FindTables(m.dynamics);
    [if HasSymbols(m) then Area(IndexOf(mem, m.dynsym), SYM_SIZE * m.dynsymCount) else Area(0, 0),
     if HasSymbols(m) then Area(IndexOf(mem, m.dynstr), strLen) else Area(0, 0),
     RelaArea(m, mem, t.rela, t.relaSize), RelaArea(m, mem, t.jmprel, t.pltrelsz)]
  }

  function RelaArea(m: Info, mem: Memory, at: Option<U64>, size: U64): Area {
    if at.Some? && size != 0 then Area(IndexOf(mem, Relocate(m, at.value)), RELA_SIZE * (size / RELA_SIZE))
    else Area(0, 0)
  }

  /** The `len` bytes at the preferred address v belong to a segment that has file bytes. */
  ghost predicate Backed(loads: seq<Segment>, v: U64, len: nat) {
    exists i :: 0 <= i < |loads| && loads[i].filesz != 0 && InSegment(loads[i], v, len)
  }

  predicate InSegment(s: Segment, v: U64, len: nat) {
    s.vaddr <= v && v + len <= s.vaddr + s.memsz
  }

  ghost predicate RelasBacked(loads: seq<Segment>, at: Option<U64>, size: U64) {
    at.Some? && size != 0 ==> Backed(loads, at.value, RELA_SIZE * (size / RELA_SIZE))
  }

  /** The symbols the loader looks at. */
  function Examined(dynamics: seq<Dyn>, count: nat): nat {
    if LastEntry(dynamics, DT_SYMTABSZ, DT_SCE_SYMTABSZ).None? then count + 1 else count
  }

  /** All tables the dynamic entries describe come from the file, and without a size entry so does the symbol after the
      counted ones, which ends the count. */
  ghost predicate TablesBacked(loads: seq<Segment>, dynamics: seq<Dyn>, count: nat, strLen: nat) {
    var symtab, strtab := LastEntry(dynamics, DT_SYMTAB, DT_SCE_SYMTAB), LastEntry(dynamics, DT_STRTAB, DT_SCE_STRTAB);
    var t := FindTables(dynamics);
    && (symtab.Some? && strtab.Some? ==>
          Backed(loads, symtab.value, SYM_SIZE * Examined(dynamics, count)) && Backed(loads, strtab.value, strLen))
    && RelasBacked(loads, t.rela, t.relaSize) && RelasBacked(loads, t.jmprel, t.pltrelsz)
  }

  // ---- one base: every byte of the image ----

  /** What the image holds at index k after a load: in a slot the slot's value, elsewhere the byte of the placed image,
      which is a file byte, a zero of a segment's tail, or what was there before. */
  lemma LoadedByte(plan: Plan, before: Memory, regions: seq<AddressSpace.Region>, loads: seq<Segment>,
                   dynamics: seq<Dyn>, reg: Registry, areas: seq<Area>, k: nat)
    requires Placement(plan, before, regions, loads) && k < AddressSpace.GUEST_SIZE
    requires var mem := Filled(plan, before, loads); var m := Loaded(plan, loads, dynamics, mem);
             && Closed(m, mem, areas) && TablesInside(m, mem, areas)
             && Separate(m, mem, reg, AllEntries(m, mem), areas)
    requires Links(plan, loads, dynamics, reg, before)
    ensures var mem := Filled(plan, before, loads); var m := Loaded(plan, loads, dynamics, mem);
            var relas, after := AllEntries(m, mem), All(m, reg, mem).mem;
            var addr := AddressSpace.GUEST_BASE + k;
            && ArenaWindow(after) && AllFine(m, mem, reg, relas)
            && (forall i :: 0 <= i < |relas| && HasSlot(m, mem, reg, relas[i]) && InSlot(m, mem, relas[i], k) ==>
                  ByteAt(after, addr) == LE(Value(m, mem, reg, relas[i]), 8)[k - SlotOf(m, mem, relas[i])])
            && (!Touched(m, mem, reg, relas, k) ==>
                  && (forall i :: 0 <= i < |loads| && !Outside(plan, loads[i], addr) ==>
                        InFile(plan, loads[i]) && ByteAt(after, addr) == BytePlaced(plan, before, loads[i], addr))
                  && ((forall i :: 0 <= i < |loads| ==> Outside(plan, loads[i], addr)) ==>
                        ByteAt(after, addr) == ByteAt(before, addr)))
  {
    hide Closed, TablesInside, Separate, All, AllEntries, Loaded, Filled, HasSlot, SlotOf, Value, LE, AllFine, CanPlace;
    hide Outside, BytePlaced, InFile, AddressSpace.RegionsOk, AllSane, Touched;
    var mem := Filled(plan, before, loads);
    var m := Loaded(plan, loads, dynamics, mem);
    var relas, after := AllEntries(m, mem), All(m, reg, mem).mem;
    AllFineIff(m, mem, reg, areas);
    AllRelocates(m, mem, reg, areas);
    FilledByte(plan, before, regions, loads, AddressSpace.GUEST_BASE + k);
    forall i | 0 <= i < |relas| && HasSlot(m, mem, reg, relas[i]) && InSlot(m, mem, relas[i], k)
      ensures after.bytes[k] == LE(Value(m, mem, reg, relas[i]), 8)[k - SlotOf(m, mem, relas[i])]
    {
      assert SlotFilled(m, mem, reg, relas[i], after);
      SlotByte(m, mem, reg, relas[i], after, k);
    }
  }

  // ---- two bases: the placed images ----

  /** The index in the window of the preferred address v. */
  function Place(plan: Plan, v: U64): int {
    plan.actualBase + (v - plan.preferredBase) - AddressSpace.GUEST_BASE
  }

  /** A range of a segment lies in the window, and relocating its address leads there. */
  lemma PlaceIs(plan: Plan, before: Memory, regions: seq<AddressSpace.Region>, loads: seq<Segment>, i: nat, v: U64,
                len: nat, m: Info, mem: Memory)
    requires SanePlacement(plan, before, regions, loads) && i < |loads| && InSegment(loads[i], v, len)
    requires m.delta == Delta(plan) && ArenaWindow(mem)
    ensures 0 <= Place(plan, v) && Place(plan, v) + len <= AddressSpace.GUEST_SIZE
    ensures Relocate(m, v) == AddressSpace.GUEST_BASE + Place(plan, v)
    ensures IndexOf(mem, Relocate(m, v)) == Place(plan, v)
    ensures At(plan, loads[i]) == AddressSpace.GUEST_BASE + Place(plan, loads[i].vaddr)
  {
    hide PageCeil, At, CanPlace, Wrap, AddressSpace.RegionsOk;
    var s := loads[i];
    assert SaneSegment(plan, s);
    AtIs(plan, s);
    SegmentInArena(plan, regions, loads, i);
    ShiftedAddress(plan, s, v);
    IndexIs(mem, Relocate(m, v), 0);
  }

  lemma ShiftedAddress(plan: Plan, s: Segment, v: U64)
    requires SaneSegment(plan, s) && s.vaddr <= v <= s.vaddr + s.memsz
    ensures Wrap(v + Delta(plan)) == plan.actualBase + (v - plan.preferredBase)
  {
    var x := plan.actualBase + (v - plan.preferredBase);
    var d := plan.actualBase - plan.preferredBase;
    assert Wrap(d) == d || Wrap(d) == d + TWO64;
    assert v + Wrap(d) == x || v + Wrap(d) == x + TWO64;
  }

  /** Two loads of one file: the bytes of a file-backed range are the same in both placed images. */
  lemma BackedSame(plan: Plan, plan': Plan, before: Memory, before': Memory, regions: seq<AddressSpace.Region>,
                   regions': seq<AddressSpace.Region>, loads: seq<Segment>, v: U64, len: nat)
    requires SanePlacement(plan, before, regions, loads) && SanePlacement(plan', before', regions', loads)
    requires plan' == plan.(actualBase := plan'.actualBase) && Backed(loads, v, len)
    ensures 0 <= Place(plan, v) && Place(plan, v) + len <= AddressSpace.GUEST_SIZE
    ensures 0 <= Place(plan', v) && Place(plan', v) + len <= AddressSpace.GUEST_SIZE
    ensures Bytes.Load(Filled(plan, before, loads).bytes, Place(plan, v), len) ==
            Bytes.Load(Filled(plan', before', loads).bytes, Place(plan', v), len)
  {
    hide At, Filled, SaneSegment, CanPlace, AddressSpace.RegionsOk, Wrap, FileByte;
    var i :| 0 <= i < |loads| && loads[i].filesz != 0 && InSegment(loads[i], v, len);
    ArenaKept(plan, before, loads);
    ArenaKept(plan', before', loads);
    var m, m' := Info(Delta(plan), [], [], 0, 0, 0), Info(Delta(plan'), [], [], 0, 0, 0);
    var mem, mem' := Filled(plan, before, loads), Filled(plan', before', loads);
    PlaceIs(plan, before, regions, loads, i, v, len, m, mem);
    PlaceIs(plan', before', regions', loads, i, v, len, m', mem');
    var bs, bs' := Bytes.Load(mem.bytes, Place(plan, v), len), Bytes.Load(mem'.bytes, Place(plan', v), len);
    forall k | 0 <= k < len ensures bs[k] == bs'[k] {
      BackedByte(plan, before, regions, loads, i, v, len, k);
      BackedByte(plan', before', regions', loads, i, v, len, k);
    }
    assert bs == bs';
  }

  lemma ArenaKept(plan: Plan, before: Memory, loads: seq<Segment>)
    ensures ArenaWindow(before) ==> ArenaWindow(Filled(plan, before, loads))
  {
    hide Filled;
  }

  /** Such a byte in terms of the file alone. */
  function FileByte(file: seq<byte>, s: Segment, v: nat): byte
    requires s.vaddr <= v && (v - s.vaddr < s.filesz ==> s.offset + (v - s.vaddr) < |file|)
  {
    if v - s.vaddr < s.filesz then file[s.offset + (v - s.vaddr)] else 0
  }

  lemma BackedByte(plan: Plan, before: Memory, regions: seq<AddressSpace.Region>, loads: seq<Segment>, i: nat, v: U64,
                   len: nat, k: nat)
    requires SanePlacement(plan, before, regions, loads) && i < |loads| && loads[i].filesz != 0
    requires InSegment(loads[i], v, len) && k < len
    ensures 0 <= Place(plan, v) && Place(plan, v) + len <= AddressSpace.GUEST_SIZE
    ensures |Filled(plan, before, loads).bytes| == AddressSpace.GUEST_SIZE
    ensures var s := loads[i];
            && (v + k - s.vaddr < s.filesz ==> s.offset + (v + k - s.vaddr) < |plan.file|)
            && Filled(plan, before, loads).bytes[Place(plan, v) + k] == FileByte(plan.file, s, v + k)
  {
    hide At, Filled, SaneSegment, CanPlace, AddressSpace.RegionsOk, Wrap;
    var m, mem := Info(Delta(plan), [], [], 0, 0, 0), Filled(plan, before, loads);
    PlaceIs(plan, before, regions, loads, i, v, len, m, mem);
    var addr := AddressSpace.GUEST_BASE + Place(plan, v) + k;
    FilledByte(plan, before, regions, loads, addr);
    assert !Outside(plan, loads[i], addr);
  }

  // ---- two bases: the modules ----

  /** Two loads of one file, `shift` places apart in the arena. */
  ghost predicate TwoLoads(plan: Plan, plan': Plan, before: Memory, before': Memory, regions: seq<AddressSpace.Region>,
                           regions': seq<AddressSpace.Region>, loads: seq<Segment>) {
    && SanePlacement(plan, before, regions, loads) && SanePlacement(plan', before', regions', loads) && loads != []
    && plan' == plan.(actualBase := plan'.actualBase)
  }

  function Shift(plan: Plan, plan': Plan): int { plan'.actualBase - plan.actualBase }

  lemma ShiftIsSmall(plan: Plan, before: Memory, regions: seq<AddressSpace.Region>, loads: seq<Segment>)
    requires SanePlacement(plan, before, regions, loads) && loads != []
    ensures AddressSpace.GUEST_BASE <= plan.actualBase <= AddressSpace.LIMIT
  {
    hide PageCeil, At, CanPlace, AddressSpace.RegionsOk;
    assert SaneSegment(plan, loads[0]);
    AtIs(plan, loads[0]);
    SegmentInArena(plan, regions, loads, 0);
  }

  lemma LoadsApart(plan: Plan, plan': Plan, before: Memory, before': Memory, regions: seq<AddressSpace.Region>,
                   regions': seq<AddressSpace.Region>, loads: seq<Segment>)
    requires TwoLoads(plan, plan', before, before', regions, regions', loads)
    ensures var shift := Shift(plan, plan');
            Apart(Filled(plan, before, loads), Filled(plan', before', loads), Wrap(shift), shift)
  {
    hide Filled, AllSane, CanPlace, AddressSpace.RegionsOk;
    ShiftIsSmall(plan, before, regions, loads);
    ShiftIsSmall(plan', before', regions', loads);
    WrapAdd(Shift(plan, plan'), AddressSpace.GUEST_BASE);
  }

  /** A file-backed table: its place at one base, and the same bytes at the other. */
  lemma TableCopied(plan: Plan, plan': Plan, before: Memory, before': Memory, regions: seq<AddressSpace.Region>,
                    regions': seq<AddressSpace.Region>, loads: seq<Segment>, v: U64, len: nat, m: Info, m': Info)
    requires TwoLoads(plan, plan', before, before', regions, regions', loads) && Backed(loads, v, len)
    requires m.delta == Delta(plan) && m'.delta == Delta(plan')
    ensures var mem, mem' := Filled(plan, before, loads), Filled(plan', before', loads);
            var at := IndexOf(mem, Relocate(m, v));
            && Copied(mem, mem', Shift(plan, plan'), Area(at, len))
            && IndexOf(mem', Relocate(m', v)) == at + Shift(plan, plan')
            && Relocate(m, v) == AddressSpace.GUEST_BASE + at
            && Relocate(m', v) == Relocate(m, v) + Shift(plan, plan') > 0
            && at + len <= |mem.bytes| < TWO64 && at + Shift(plan, plan') + len <= |mem'.bytes| < TWO64
  {
    hide Filled, SaneSegment, CanPlace, AddressSpace.RegionsOk, Wrap, Relocate, IndexOf;
    var i :| 0 <= i < |loads| && loads[i].filesz != 0 && InSegment(loads[i], v, len);
    ArenaKept(plan, before, loads);
    ArenaKept(plan', before', loads);
    PlaceIs(plan, before, regions, loads, i, v, len, m, Filled(plan, before, loads));
    PlaceIs(plan', before', regions', loads, i, v, len, m', Filled(plan', before', loads));
    BackedSame(plan, plan', before, before', regions, regions', loads, v, len);
  }

  /** The count without a size entry does not depend on the base. */
  lemma {:induction false} CountMoved(mem: Memory, mem': Memory, d: U64, shift: int, sym: U64, str: U64, sym': U64,
                                      str': U64, n: nat, a: Area)
    requires Apart(mem, mem', d, shift) && Copied(mem, mem', shift, a) && Wrap(sym') == Wrap(sym + d)
    requires sym' == sym + shift && str' == str + shift && a.at == IndexOf(mem, sym) && a.at + a.len < TWO64
    requires SYM_SIZE * (CountFrom(mem, sym, str, n) + 1) <= a.len
    ensures CountFrom(mem', sym', str', n) == CountFrom(mem, sym, str, n)
    decreases MANY_SYMBOLS + 1 - n
  {
    hide NullSymbol, IndexOf, Wrap;
    if n <= MANY_SYMBOLS && sym + SYM_SIZE * (n + 1) <= str {
      NullSymbolMoved(mem, mem', d, shift, sym, sym', n, a);
      if !NullSymbol(mem, sym + SYM_SIZE * n) {
        CountMoved(mem, mem', d, shift, sym, str, sym', str', n + 1, a);
      }
    }
  }

  lemma NullSymbolMoved(mem: Memory, mem': Memory, d: U64, shift: int, sym: U64, sym': U64, n: nat, a: Area)
    requires Apart(mem, mem', d, shift) && Copied(mem, mem', shift, a) && Wrap(sym') == Wrap(sym + d)
    requires a.at == IndexOf(mem, sym) && a.at + a.len < TWO64 && SYM_SIZE * (n + 1) <= a.len
    ensures NullSymbol(mem', sym' + SYM_SIZE * n) == NullSymbol(mem, sym + SYM_SIZE * n)
  {
    hide Peek, IndexOf, FromLE, Wrap, Apart, Copied;
    var at := SYM_SIZE * n;
    FieldMoved(mem, mem', d, shift, sym, sym', at, 4, a);
    FieldMoved(mem, mem', d, shift, sym, sym', at + 4, 1, a);
    FieldMoved(mem, mem', d, shift, sym, sym', at + 6, 2, a);
    FieldMoved(mem, mem', d, shift, sym, sym', at + 8, 8, a);
  }

  /** A field `k` bytes into a table. */
  lemma FieldMoved(mem: Memory, mem': Memory, d: U64, shift: int, base: U64, base': U64, k: nat, n: nat, a: Area)
    requires Apart(mem, mem', d, shift) && Copied(mem, mem', shift, a) && Wrap(base') == Wrap(base + d)
    requires a.at == IndexOf(mem, base) && a.at + a.len < TWO64 && k + n <= a.len
    ensures Peek(mem', base' + k, n) == Peek(mem, base + k, n)
  {
    hide Peek, IndexOf, Wrap, Apart, Copied;
    IndexShift(mem, base, k);
    WrapAdd(base', k);
    WrapAdd(base + d, k);
    PeekMoved(mem, mem', d, shift, base + k, base' + k, n, a);
  }

  lemma {:induction false} EntriesMoved(mem: Memory, mem': Memory, d: U64, shift: int, base: U64, base': U64, n: nat,
                                        a: Area)
    requires Apart(mem, mem', d, shift) && Copied(mem, mem', shift, a) && Wrap(base') == Wrap(base + d)
    requires a.at == IndexOf(mem, base) && a.at + a.len < TWO64 && RELA_SIZE * n <= a.len
    ensures Entries(mem', base', n) == Entries(mem, base, n)
  {
    hide Peek, IndexOf, Wrap, Apart, Copied, FromLE;
    if n > 0 {
      EntriesMoved(mem, mem', d, shift, base, base', n - 1, a);
      var at := RELA_SIZE * (n - 1);
      FieldMoved(mem, mem', d, shift, base, base', at, 8, a);
      FieldMoved(mem, mem', d, shift, base, base', at + 8, 8, a);
      FieldMoved(mem, mem', d, shift, base, base', at + 16, 8, a);
    }
  }

  /** What relocation sees of the placed image. */
  function Linked(plan: Plan, before: Memory, loads: seq<Segment>, dynamics: seq<Dyn>): Info {
    Loaded(plan, loads, dynamics, Filled(plan, before, loads))
  }

  lemma DeltaMoved(plan: Plan, plan': Plan, v: U64)
    requires plan' == plan.(actualBase := plan'.actualBase)
    ensures Delta(plan') == Wrap(Delta(plan) + Wrap(Shift(plan, plan')))
    ensures Wrap(v + Delta(plan')) == Wrap(Wrap(v + Delta(plan)) + Wrap(Shift(plan, plan')))
  {
    hide Wrap;
    var d := Wrap(Shift(plan, plan'));
    var x := plan.actualBase - plan.preferredBase;
    WrapAdd(x, d);
    WrapAdd(Shift(plan, plan'), x);
    AddressMoved(v, Delta(plan), d);
  }

  /** The module loaded at the other base is the module moved by the difference of the bases. */
  lemma ModuleMoved(plan: Plan, plan': Plan, before: Memory, before': Memory, regions: seq<AddressSpace.Region>,
                    regions': seq<AddressSpace.Region>, loads: seq<Segment>, dynamics: seq<Dyn>, strLen: nat)
    requires TwoLoads(plan, plan', before, before', regions, regions', loads)
    requires TablesBacked(loads, dynamics, Linked(plan, before, loads, dynamics).dynsymCount, strLen)
    ensures Linked(plan', before', loads, dynamics) ==
            Rebased(Linked(plan, before, loads, dynamics), Wrap(Shift(plan, plan')))
    ensures HasSymbols(Linked(plan', before', loads, dynamics)) == HasSymbols(Linked(plan, before, loads, dynamics))
  {
    hide Filled, SanePlacement, LastEntry, FindTables, CountFrom, Wrap, Backed, Apart, Copied;
    var d := Wrap(Shift(plan, plan'));
    var mem, mem' := Filled(plan, before, loads), Filled(plan', before', loads);
    var m, m' := Linked(plan, before, loads, dynamics), Linked(plan', before', loads, dynamics);
    DeltaMoved(plan, plan', 0);
    LoadsApart(plan, plan', before, before', regions, regions', loads);
    var symtab, strtab := LastEntry(dynamics, DT_SYMTAB, DT_SCE_SYMTAB), LastEntry(dynamics, DT_STRTAB, DT_SCE_STRTAB);
    if symtab.Some? && strtab.Some? {
      DeltaMoved(plan, plan', symtab.value);
      DeltaMoved(plan, plan', strtab.value);
      var n := SYM_SIZE * Examined(dynamics, m.dynsymCount);
      TableCopied(plan, plan', before, before', regions, regions', loads, symtab.value, n, m, m');
      TableCopied(plan, plan', before, before', regions, regions', loads, strtab.value, strLen, m, m');
      if LastEntry(dynamics, DT_SYMTABSZ, DT_SCE_SYMTABSZ).None? {
        NoMove(m'.dynsym);
        CountMoved(mem, mem', d, Shift(plan, plan'), m.dynsym, m.dynstr, m'.dynsym, m'.dynstr, 0,
                   Area(IndexOf(mem, m.dynsym), n));
      }
    }
    SegmentsMoved(plan, plan', loads, m);
  }

  lemma SegmentsMoved(plan: Plan, plan': Plan, loads: seq<Segment>, m: Info)
    requires m.segments == Descriptors(plan, loads) && plan' == plan.(actualBase := plan'.actualBase)
    ensures Rebased(m, Wrap(Shift(plan, plan'))).segments == Descriptors(plan', loads)
  {
    hide Wrap, Delta;
    forall i | 0 <= i < |loads| ensures At(plan', loads[i]) == Wrap(At(plan, loads[i]) + Wrap(Shift(plan, plan'))) {
      DeltaMoved(plan, plan', loads[i].vaddr);
    }
  }

  // ---- two bases: the tables ----

  /** The same area in the other window, or no area at either base. */
  predicate AreaMoved(a: Area, a': Area, shift: int) {
    (a == a' == Area(0, 0)) || (a'.at == a.at + shift && a'.len == a.len)
  }

  ghost predicate AreasMoved(areas: seq<Area>, areas': seq<Area>, shift: int) {
    |areas| == |areas'| && forall i :: 0 <= i < |areas| ==> AreaMoved(areas[i], areas'[i], shift)
  }

  /** One table of relocations. */
  lemma RelasMoved(plan: Plan, plan': Plan, before: Memory, before': Memory, regions: seq<AddressSpace.Region>,
                   regions': seq<AddressSpace.Region>, loads: seq<Segment>, at: Option<U64>, size: U64, m: Info,
                   m': Info)
    requires TwoLoads(plan, plan', before, before', regions, regions', loads) && RelasBacked(loads, at, size)
    requires m.delta == Delta(plan) && m'.delta == Delta(plan')
    ensures var mem, mem' := Filled(plan, before, loads), Filled(plan', before', loads);
            var n := RELA_SIZE * (size / RELA_SIZE);
            && TableAt(m', mem', at, size) == TableAt(m, mem, at, size)
            && AreaMoved(RelaArea(m, mem, at, size), RelaArea(m', mem', at, size), Shift(plan, plan'))
            && (at.Some? && size != 0 ==>
                  && InsideArea(mem, Relocate(m, at.value), n, RelaArea(m, mem, at, size))
                  && InsideArea(mem', Relocate(m', at.value), n, RelaArea(m', mem', at, size)))
  {
    hide Filled, TwoLoads, Backed, Entries, Relocate, IndexOf, Apart, Copied, Wrap;
    var mem, mem' := Filled(plan, before, loads), Filled(plan', before', loads);
    if at.Some? && size != 0 {
      var n := RELA_SIZE * (size / RELA_SIZE);
      TableCopied(plan, plan', before, before', regions, regions', loads, at.value, n, m, m');
      LoadsApart(plan, plan', before, before', regions, regions', loads);
      var base, base' := Relocate(m, at.value), Relocate(m', at.value);
      WrapAdd(base, Shift(plan, plan'));
      NoMove(base);
      WrapSumCommutes(base, Shift(plan, plan'));
      EntriesMoved(mem, mem', Wrap(Shift(plan, plan')), Shift(plan, plan'), base, base', size / RELA_SIZE,
                   RelaArea(m, mem, at, size));
    }
  }

  lemma WrapSumCommutes(a: int, b: int)
    ensures Wrap(a + Wrap(b)) == Wrap(a + b)
  {
    hide Wrap;
    WrapAdd(b, a);
  }

  /** All tables: where they are at both bases, and that they hold the same entries. */
  lemma TablesMoved(plan: Plan, plan': Plan, before: Memory, before': Memory, regions: seq<AddressSpace.Region>,
                    regions': seq<AddressSpace.Region>, loads: seq<Segment>, dynamics: seq<Dyn>, strLen: nat)
    requires TwoLoads(plan, plan', before, before', regions, regions', loads)
    requires TablesBacked(loads, dynamics, Linked(plan, before, loads, dynamics).dynsymCount, strLen)
    ensures var mem, mem' := Filled(plan, before, loads), Filled(plan', before', loads);
            var m, m' := Linked(plan, before, loads, dynamics), Linked(plan', before', loads, dynamics);
            var areas, areas' := TableAreas(m, mem, strLen), TableAreas(m', mem', strLen);
            && AllEntries(m', mem') == AllEntries(m, mem)
            && AreasMoved(areas, areas', Shift(plan, plan'))
            && TablesInside(m, mem, areas) && TablesInside(m', mem', areas')
            && (HasSymbols(m) ==>
                  Copied(mem, mem', Shift(plan, plan'), areas[0]) && Copied(mem, mem', Shift(plan, plan'), areas[1]))
  {
    hide Filled, TwoLoads, Backed, LastEntry, FindTables, CountFrom, RelaArea, TableAt, InsideArea, Rebased, Copied;
    hide Wrap, IndexOf;
    var mem, mem' := Filled(plan, before, loads), Filled(plan', before', loads);
    var m, m' := Linked(plan, before, loads, dynamics), Linked(plan', before', loads, dynamics);
    var t := FindTables(dynamics);
    LinkedParts(plan, before, loads, dynamics);
    LinkedParts(plan', before', loads, dynamics);
    ModuleMoved(plan, plan', before, before', regions, regions', loads, dynamics, strLen);
    RebasedParts(m, Wrap(Shift(plan, plan')));
    RelasMoved(plan, plan', before, before', regions, regions', loads, t.rela, t.relaSize, m, m');
    RelasMoved(plan, plan', before, before', regions, regions', loads, t.jmprel, t.pltrelsz, m, m');
    var symtab, strtab := LastEntry(dynamics, DT_SYMTAB, DT_SCE_SYMTAB), LastEntry(dynamics, DT_STRTAB, DT_SCE_STRTAB);
    if HasSymbols(m) {
      var n := SYM_SIZE * m.dynsymCount;
      var examined := SYM_SIZE * Examined(dynamics, m.dynsymCount);
      TableCopied(plan, plan', before, before', regions, regions', loads, symtab.value, examined, m, m');
      TableCopied(plan, plan', before, before', regions, regions', loads, strtab.value, strLen, m, m');
      CopiedPrefix(mem, mem', Shift(plan, plan'), IndexOf(mem, m.dynsym), n, examined);
    }
  }

  lemma LinkedParts(plan: Plan, before: Memory, loads: seq<Segment>, dynamics: seq<Dyn>)
    ensures var m := Linked(plan, before, loads, dynamics);
            var symtab := LastEntry(dynamics, DT_SYMTAB, DT_SCE_SYMTAB);
            var strtab := LastEntry(dynamics, DT_STRTAB, DT_SCE_STRTAB);
            && m.dynamics == dynamics && m.delta == Delta(plan)
            && (HasSymbols(m) ==>
                  && symtab.Some? && strtab.Some?
                  && m.dynsym == Relocate(m, symtab.value) && m.dynstr == Relocate(m, strtab.value))
  {
    hide Filled, LastEntry, CountFrom, Wrap, Delta, Descriptors;
  }

  lemma CopiedPrefix(mem: Memory, mem': Memory, shift: int, at: nat, n: nat, len: nat)
    requires Copied(mem, mem', shift, Area(at, len)) && n <= len
    ensures Copied(mem, mem', shift, Area(at, n))
  {
    var s, s' := Bytes.Load(mem.bytes, at, n), Bytes.Load(mem'.bytes, at + shift, n);
    forall k | 0 <= k < n ensures s[k] == s'[k] {
      assert Bytes.Load(mem.bytes, at, len)[k] == Bytes.Load(mem'.bytes, at + shift, len)[k];
    }
    assert s == s';
  }

  /** The conditions on symbols and strings hold at the other base too. */
  lemma ClosedMoved(m: Info, mem: Memory, mem': Memory, d: U64, shift: int, areas: seq<Area>, areas': seq<Area>)
    requires Moved(m, mem, mem', d, shift, areas) && AreasMoved(areas, areas', shift) && |mem'.bytes| < TWO64
    requires HasSymbols(m) ==>
               && areas'[0].at == IndexOf(mem', Rebased(m, d).dynsym)
               && areas'[1].at == IndexOf(mem', Rebased(m, d).dynstr)
               && areas'[0].at == areas[0].at + shift && areas'[1].at == areas[1].at + shift
    ensures Closed(Rebased(m, d), mem', areas')
  {
    hide IndexOf, Wrap, PeekNumber, SymAt, Apart, Sane;
    if HasSymbols(m) {
      var m' := Rebased(m, d);
      RebasedParts(m, d);
      assert AreaMoved(areas[0], areas'[0], shift) && AreaMoved(areas[1], areas'[1], shift);
      var n := areas[1].len;
      assert Bytes.Load(mem.bytes, areas[1].at, n)[n - 1] == Bytes.Load(mem'.bytes, areas[1].at + shift, n)[n - 1];
      forall i | 0 <= i < m'.dynsymCount ensures PeekNumber(mem', SymAt(m', i), 4) < areas'[1].len {
        SymbolMoved(m, mem, mem', d, shift, areas, i);
      }
    }
  }

  // ---- two bases: the relocated images ----

  ghost predicate InSomeSegment(loads: seq<Segment>, v: U64, len: nat) {
    exists i :: 0 <= i < |loads| && InSegment(loads[i], v, len)
  }

  /** Each of the eight bytes of every slot belongs to the segment its address is in. */
  ghost predicate SlotsInSegments(m: Info, mem: Memory, reg: Registry, loads: seq<Segment>, relas: seq<Rela>) {
    forall i :: 0 <= i < |relas| && HasSlot(m, mem, reg, relas[i]) ==> InSomeSegment(loads, relas[i].offset, 8)
  }

  /** The entry fills a slot at both bases or at neither; the slots are `shift` places apart and in both windows. */
  ghost predicate SlotShifted(m: Info, m': Info, mem: Memory, mem': Memory, reg: Registry, shift: int, r: Rela) {
    && HasSlot(m', mem', reg, r) == HasSlot(m, mem, reg, r)
    && (HasSlot(m, mem, reg, r) ==>
          SlotOf(m', mem', r) == SlotOf(m, mem, r) + shift && Inside(mem', Relocate(m', r.offset), 8))
  }

  /** What the theorem asks of a placed image: well-formed tables, and slots that overlap neither them nor one
      another. */
  ghost predicate Relocatable(m: Info, mem: Memory, reg: Registry, loads: seq<Segment>, strLen: nat) {
    && Closed(m, mem, TableAreas(m, mem, strLen))
    && Separate(m, mem, reg, AllEntries(m, mem), TableAreas(m, mem, strLen))
    && SlotsInSegments(m, mem, reg, loads, AllEntries(m, mem))
  }

  lemma SlotShifts(plan: Plan, plan': Plan, before: Memory, before': Memory, regions: seq<AddressSpace.Region>,
                   regions': seq<AddressSpace.Region>, loads: seq<Segment>, m: Info, m': Info, reg: Registry, r: Rela)
    requires TwoLoads(plan, plan', before, before', regions, regions', loads)
    requires m.delta == Delta(plan) && m'.delta == Delta(plan')
    requires var mem, mem' := Filled(plan, before, loads), Filled(plan', before', loads);
             Classify(m', mem', reg, r) == Classify(m, mem, reg, r)
             && (HasSlot(m, mem, reg, r) ==> InSomeSegment(loads, r.offset, 8))
    ensures SlotShifted(m, m', Filled(plan, before, loads), Filled(plan', before', loads), reg, Shift(plan, plan'), r)
  {
    hide Filled, Classify, SanePlacement, Relocate, Wrap;
    var mem, mem' := Filled(plan, before, loads), Filled(plan', before', loads);
    if HasSlot(m, mem, reg, r) {
      var i :| 0 <= i < |loads| && InSegment(loads[i], r.offset, 8);
      LoadsAreWindows(plan, before, regions, loads);
      LoadsAreWindows(plan', before', regions', loads);
      PlaceIs(plan, before, regions, loads, i, r.offset, 8, m, mem);
      PlaceIs(plan', before', regions', loads, i, r.offset, 8, m', mem');
    }
  }

  lemma LoadsAreWindows(plan: Plan, before: Memory, regions: seq<AddressSpace.Region>, loads: seq<Segment>)
    requires SanePlacement(plan, before, regions, loads)
    ensures ArenaWindow(Filled(plan, before, loads))
  {
    hide Filled, AllSane, CanPlace, WellSized, AddressSpace.RegionsOk;
    ArenaKept(plan, before, loads);
  }

  /** Slots that are apart at one base are apart at the other. */
  lemma SeparateMoved(m: Info, m': Info, mem: Memory, mem': Memory, reg: Registry, shift: int, relas: seq<Rela>,
                      areas: seq<Area>, areas': seq<Area>)
    requires Separate(m, mem, reg, relas, areas) && AreasMoved(areas, areas', shift)
    requires forall i :: 0 <= i < |relas| ==> SlotShifted(m, m', mem, mem', reg, shift, relas[i])
    ensures Separate(m', mem', reg, relas, areas')
  {
    hide HasSlot, SlotOf, Relocate, Inside;
    forall i, a | 0 <= i < |relas| && HasSlot(m', mem', reg, relas[i]) && 0 <= a < |areas'|
      ensures SlotApart(m', mem', relas[i], areas'[a])
    {
      assert SlotShifted(m, m', mem, mem', reg, shift, relas[i]) && AreaMoved(areas[a], areas'[a], shift);
      assert SlotApart(m, mem, relas[i], areas[a]);
    }
    forall i, j | 0 <= i < j < |relas| && HasSlot(m', mem', reg, relas[i]) && HasSlot(m', mem', reg, relas[j])
      ensures SlotsApart(m', mem', relas[i], relas[j])
    {
      assert SlotShifted(m, m', mem, mem', reg, shift, relas[i]) && SlotShifted(m, m', mem, mem', reg, shift, relas[j]);
      assert SlotsApart(m, mem, relas[i], relas[j]);
    }
    assert forall i :: 0 <= i < |relas| ==> SlotShifted(m, m', mem, mem', reg, shift, relas[i]);
  }

  /** Everything the theorems about one base ask for holds at the other base as well. */
  lemma RelocatableMoved(plan: Plan, plan': Plan, before: Memory, before': Memory, regions: seq<AddressSpace.Region>,
                         regions': seq<AddressSpace.Region>, loads: seq<Segment>, dynamics: seq<Dyn>, reg: Registry,
                         strLen: nat)
    requires TwoLoads(plan, plan', before, before', regions, regions', loads)
    requires TablesBacked(loads, dynamics, Linked(plan, before, loads, dynamics).dynsymCount, strLen)
    requires Relocatable(Linked(plan, before, loads, dynamics), Filled(plan, before, loads), reg, loads, strLen)
    requires Sane(Linked(plan, before, loads, dynamics), Filled(plan, before, loads))
    requires Sane(Linked(plan', before', loads, dynamics), Filled(plan', before', loads))
    ensures var mem, mem' := Filled(plan, before, loads), Filled(plan', before', loads);
            var m, m' := Linked(plan, before, loads, dynamics), Linked(plan', before', loads, dynamics);
            var areas, areas' := TableAreas(m, mem, strLen), TableAreas(m', mem', strLen);
            && m' == Rebased(m, Wrap(Shift(plan, plan'))) && AllEntries(m', mem') == AllEntries(m, mem)
            && Moved(m, mem, mem', Wrap(Shift(plan, plan')), Shift(plan, plan'), areas)
            && Closed(m, mem, areas) && Separate(m, mem, reg, AllEntries(m, mem), areas)
            && Closed(m', mem', areas') && Separate(m', mem', reg, AllEntries(m', mem'), areas')
            && TablesInside(m, mem, areas) && TablesInside(m', mem', areas')
            && (AllFine(m', mem', reg, AllEntries(m', mem')) <==> AllFine(m, mem, reg, AllEntries(m, mem)))
            && ExpectedEntrySize(m') == ExpectedEntrySize(m)
  {
    hide Filled, TwoLoads, TablesBacked, Linked, Closed, Separate, Sane, AllEntries, TablesInside, Rebased, Classify;
    hide AreasMoved, Copied, Apart, Wrap, FindTables, Relocate;
    var mem, mem' := Filled(plan, before, loads), Filled(plan', before', loads);
    var m, m' := Linked(plan, before, loads, dynamics), Linked(plan', before', loads, dynamics);
    var d, shift := Wrap(Shift(plan, plan')), Shift(plan, plan');
    var areas, areas' := TableAreas(m, mem, strLen), TableAreas(m', mem', strLen);
    var relas := AllEntries(m, mem);
    ModuleMoved(plan, plan', before, before', regions, regions', loads, dynamics, strLen);
    TablesMoved(plan, plan', before, before', regions, regions', loads, dynamics, strLen);
    LoadsApart(plan, plan', before, before', regions, regions', loads);
    LinkedParts(plan, before, loads, dynamics);
    LinkedParts(plan', before', loads, dynamics);
    TableAreasMoved(plan, plan', before, before', regions, regions', loads, dynamics, strLen);
    ClosedMoved(m, mem, mem', d, shift, areas, areas');
    forall i | 0 <= i < |relas|
      ensures Classify(m', mem', reg, relas[i]) == Classify(m, mem, reg, relas[i])
      ensures SlotShifted(m, m', mem, mem', reg, shift, relas[i])
    {
      ClassMoved(m, mem, mem', reg, d, shift, areas, relas[i]);
      SlotShifts(plan, plan', before, before', regions, regions', loads, m, m', reg, relas[i]);
    }
    SeparateMoved(m, m', mem, mem', reg, shift, relas, areas, areas');
  }

  lemma TableAreasMoved(plan: Plan, plan': Plan, before: Memory, before': Memory, regions: seq<AddressSpace.Region>,
                        regions': seq<AddressSpace.Region>, loads: seq<Segment>, dynamics: seq<Dyn>, strLen: nat)
    requires TwoLoads(plan, plan', before, before', regions, regions', loads)
    requires TablesBacked(loads, dynamics, Linked(plan, before, loads, dynamics).dynsymCount, strLen)
    ensures var mem, mem' := Filled(plan, before, loads), Filled(plan', before', loads);
            var m, m' := Linked(plan, before, loads, dynamics), Linked(plan', before', loads, dynamics);
            var areas, areas' := TableAreas(m, mem, strLen), TableAreas(m', mem', strLen);
            |mem'.bytes| < TWO64
            && (HasSymbols(m) ==>
                  && areas'[0].at == IndexOf(mem', m'.dynsym) && areas'[1].at == IndexOf(mem', m'.dynstr)
                  && areas'[0].at == areas[0].at + Shift(plan, plan')
                  && areas'[1].at == areas[1].at + Shift(plan, plan'))
  {
    hide Filled, Backed, LastEntry, FindTables, CountFrom, RelaArea, Rebased, Copied, SanePlacement, Relocate, Wrap;
    hide IndexOf;
    var m, m' := Linked(plan, before, loads, dynamics), Linked(plan', before', loads, dynamics);
    LinkedParts(plan, before, loads, dynamics);
    LinkedParts(plan', before', loads, dynamics);
    LoadsAreWindows(plan', before', regions', loads);
    ModuleMoved(plan, plan', before, before', regions, regions', loads, dynamics, strLen);
    var symtab, strtab := LastEntry(dynamics, DT_SYMTAB, DT_SCE_SYMTAB), LastEntry(dynamics, DT_STRTAB, DT_SCE_STRTAB);
    if HasSymbols(m) {
      TableCopied(plan, plan', before, before', regions, regions', loads, symtab.value,
                  SYM_SIZE * Examined(dynamics, m.dynsymCount), m, m');
      TableCopied(plan, plan', before, before', regions, regions', loads, strtab.value, strLen, m, m');
    }
  }

  /** A load that succeeds at one base succeeds at every other one at which its segments can be placed, and the two
      images differ only in slots: by the difference of the bases in those of RELATIVE entries and of symbols the module
      defines itself, not at all in the others and in every other byte that comes from the file. */
  lemma SameAtAnotherBase(plan: Plan, plan': Plan, before: Memory, before': Memory, regions: seq<AddressSpace.Region>,
                          regions': seq<AddressSpace.Region>, loads: seq<Segment>, dynamics: seq<Dyn>, reg: Registry,
                          strLen: nat, v: U64)
    requires TwoLoads(plan, plan', before, before', regions, regions', loads)
    requires TablesBacked(loads, dynamics, Linked(plan, before, loads, dynamics).dynsymCount, strLen)
    requires Relocatable(Linked(plan, before, loads, dynamics), Filled(plan, before, loads), reg, loads, strLen)
    requires Sane(Linked(plan, before, loads, dynamics), Filled(plan, before, loads))
    requires Sane(Linked(plan', before', loads, dynamics), Filled(plan', before', loads))
    ensures Links(plan', loads, dynamics, reg, before') == Links(plan, loads, dynamics, reg, before)
    ensures var mem, mem' := Filled(plan, before, loads), Filled(plan', before', loads);
            var m, m' := Linked(plan, before, loads, dynamics), Linked(plan', before', loads, dynamics);
            var relas := AllEntries(m, mem);
            var after, after' := All(m, reg, mem).mem, All(m', reg, mem').mem;
            Links(plan, loads, dynamics, reg, before) ==>
              && (forall i :: 0 <= i < |relas| && HasSlot(m, mem, reg, relas[i]) ==>
                    Peek64(after', Relocate(m', relas[i].offset)) ==
                    Wrap(Peek64(after, Relocate(m, relas[i].offset))
                         + if Moves(m, mem, relas[i]) then Wrap(Shift(plan, plan')) else 0))
              && (Backed(loads, v, 1) ==>
                    && 0 <= Place(plan, v) < |after.bytes| && 0 <= Place(plan', v) < |after'.bytes|
                    && (!Touched(m, mem, reg, relas, Place(plan, v)) ==>
                          after'.bytes[Place(plan', v)] == after.bytes[Place(plan, v)]))
  {
    hide Filled, TablesBacked, Loaded, Closed, Separate, Sane, AllEntries, TablesInside, Rebased, HasSlot, Moves;
    hide Apart, Wrap, FindTables, Relocate, Relocatable, AllFine, ExpectedEntrySize, All, Moved, Touched, Peek64;
    hide Backed;
    hide SanePlacement, TableAreas;
    var mem, mem' := Filled(plan, before, loads), Filled(plan', before', loads);
    var m, m' := Linked(plan, before, loads, dynamics), Linked(plan', before', loads, dynamics);
    var d, shift := Wrap(Shift(plan, plan')), Shift(plan, plan');
    var relas := AllEntries(m, mem);
    RelocatableMoved(plan, plan', before, before', regions, regions', loads, dynamics, reg, strLen);
    var areas, areas' := TableAreas(m, mem, strLen), TableAreas(m', mem', strLen);
    AllFineIff(m, mem, reg, areas);
    AllFineIff(m', mem', reg, areas');
    if Links(plan, loads, dynamics, reg, before) {
      AllRelocates(m, mem, reg, areas);
      AllRelocates(m', mem', reg, areas');
      var after, after' := All(m, reg, mem).mem, All(m', reg, mem').mem;
      TwoBases(m, mem, mem', reg, d, shift, areas, relas, after, after');
      if Backed(loads, v, 1) {
        BackedSame(plan, plan', before, before', regions, regions', loads, v, 1);
        LoadsAreWindows(plan, before, regions, loads);
        LoadsAreWindows(plan', before', regions', loads);
        SameByte(mem, mem', Place(plan, v), Place(plan', v));
      }
    }
  }

  lemma SameByte(mem: Memory, mem': Memory, at: nat, at': nat)
    requires at + 1 <= |mem.bytes| && at' + 1 <= |mem'.bytes|
    requires Bytes.Load(mem.bytes, at, 1) == Bytes.Load(mem'.bytes, at', 1)
    ensures mem.bytes[at] == mem'.bytes[at']
  {
    assert Bytes.Load(mem.bytes, at, 1)[0] == Bytes.Load(mem'.bytes, at', 1)[0];
  }
}
