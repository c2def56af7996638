/** What relocation leaves, in the terms of section 4.4.1 of the System V AMD64 psABI and of the bytes of the tables:
    the word in each slot, the symbol values, and what the counters count. */
module RelocationMeaning {
  import opened Bytes
  import opened GuestMemory
  import opened Options
  import opened Relocation
  import opened RelocationProofs

  // ---- names and symbols, by their bytes ----

  /** The NUL-terminated string at the address is `name`; the end of the window ends it too. */
  predicate NameAt(mem: Memory, addr: int, name: seq<byte>) {
    var at := (addr - mem.origin) % TWO64;
    if at > |mem.bytes| then name == []
    else
      && at + |name| <= |mem.bytes| && 0 !in name && mem.bytes[at..at + |name|] == name
      && (at + |name| == |mem.bytes| || mem.bytes[at + |name|] == 0)
  }

  lemma {:induction false} UpToNulIs(s: seq<byte>, name: seq<byte>)
    ensures UpToNul(s) == name <==>
            |name| <= |s| && 0 !in name && s[..|name|] == name && (|name| == |s| || s[|name|] == 0)
  {
    if s == [] || s[0] == 0 {
      if name != [] && |name| <= |s| && s[..|name|] == name {
        assert name[0] == s[0];
      }
    } else if name != [] {
      UpToNulIs(s[1..], name[1..]);
      assert UpToNul(s) == [s[0]] + UpToNul(s[1..]);
      if UpToNul(s) == name {
        assert name == [name[0]] + name[1..] && UpToNul(s[1..]) == name[1..];
        assert s[..|name|] == [s[0]] + s[1..][..|name| - 1];
      }
      if |name| <= |s| && s[..|name|] == name && 0 !in name {
        assert name[0] == s[0] && name == [s[0]] + name[1..];
        assert s[1..][..|name| - 1] == name[1..];
      }
    }
  }

  lemma CStringIs(mem: Memory, addr: int, name: seq<byte>)
    ensures CString(mem, addr) == name <==> NameAt(mem, addr, name)
  {
    hide UpToNul;
    var at := (addr - mem.origin) % TWO64;
    if at <= |mem.bytes| {
      var s := mem.bytes[at..];
      UpToNulIs(s, name);
      if |name| <= |s| {
        assert s[..|name|] == mem.bytes[at..at + |name|];
      }
    }
  }

  /** Symbol i of the table is defined, has a name, and the name is `name`: st_shndx at 6, st_name at 0. */
  predicate DefinesAt(m: Info, mem: Memory, i: nat, name: seq<byte>) {
    && PeekNumber(mem, m.dynsym + 24 * i + 6, 2) != 0
    && PeekNumber(mem, m.dynsym + 24 * i, 4) != 0
    && NameAt(mem, m.dynstr + PeekNumber(mem, m.dynsym + 24 * i, 4), name)
  }

  /** st_value at 8, moved by the load. */
  function ValueAt(m: Info, mem: Memory, i: nat): nat {
    (PeekNumber(mem, m.dynsym + 24 * i + 8, 8) + m.delta) % TWO64
  }

  /** The first symbol of the module that defines the name. */
  ghost predicate FirstDefinition(m: Info, mem: Memory, name: seq<byte>, i: nat) {
    && m.dynsym != 0 && m.dynstr != 0 && i < m.dynsymCount && DefinesAt(m, mem, i, name)
    && forall j: nat :: j < i ==> !DefinesAt(m, mem, j, name)
  }

  /** S of the psABI: the module's first definition of the name, or what the registry answers where there is none or it
      lies at address 0. */
  ghost predicate SymbolIs(m: Info, mem: Memory, reg: Registry, name: seq<byte>, s: nat) {
    || (exists i: nat :: FirstDefinition(m, mem, name, i) && ValueAt(m, mem, i) != 0 && s == ValueAt(m, mem, i))
    || ((forall i: nat :: FirstDefinition(m, mem, name, i) ==> ValueAt(m, mem, i) == 0) && s == reg(name))
  }

  lemma ExportsIs(m: Info, mem: Memory, i: nat, name: seq<byte>)
    ensures Exports(m, mem, i, name) <==> DefinesAt(m, mem, i, name)
    ensures SymAddress(m, mem, i) == ValueAt(m, mem, i)
  {
    hide PeekNumber, CString, NameAt;
    CStringIs(mem, SymName(m, mem, i), name);
  }

  lemma {:induction false} LookupIs(m: Info, mem: Memory, name: seq<byte>, i: nat)
    requires forall j: nat :: j < i ==> !DefinesAt(m, mem, j, name)
    ensures var v := LookupFrom(m, mem, name, i);
            if exists k: nat :: i <= k < m.dynsymCount && FirstAmong(m, mem, name, k)
            then exists k: nat :: i <= k < m.dynsymCount && FirstAmong(m, mem, name, k) && v == ValueAt(m, mem, k)
            else v == 0
    decreases m.dynsymCount - i
  {
    hide DefinesAt, ValueAt, Exports, SymAddress;
    if i < m.dynsymCount {
      ExportsIs(m, mem, i, name);
      if Exports(m, mem, i, name) {
        assert FirstAmong(m, mem, name, i);
      } else {
        LookupIs(m, mem, name, i + 1);
      }
    }
  }

  ghost predicate FirstAmong(m: Info, mem: Memory, name: seq<byte>, k: nat) {
    DefinesAt(m, mem, k, name) && forall j: nat :: j < k ==> !DefinesAt(m, mem, j, name)
  }

  /** The resolver finds S. */
  lemma ResolveIs(m: Info, mem: Memory, reg: Registry, name: seq<byte>)
    ensures SymbolIs(m, mem, reg, name, Resolve(m, mem, reg, name))
  {
    hide DefinesAt, ValueAt, LookupFrom;
    if HasSymbols(m) {
      LookupIs(m, mem, name, 0);
      forall i: nat ensures FirstDefinition(m, mem, name, i) <==> i < m.dynsymCount && FirstAmong(m, mem, name, i) {
      }
      hide FirstDefinition;
      forall i: nat, k: nat | FirstAmong(m, mem, name, i) && FirstAmong(m, mem, name, k) ensures i == k {
        FirstUnique(m, mem, name, i, k);
      }
    }
  }

  lemma FirstUnique(m: Info, mem: Memory, name: seq<byte>, i: nat, k: nat)
    requires FirstAmong(m, mem, name, i) && FirstAmong(m, mem, name, k)
    ensures i == k
  {
    hide DefinesAt;
  }

  // ---- the word in each slot ----

  /** Entry k of a table: r_offset, r_info and r_addend, eight bytes each. */
  predicate EntryRead(mem: Memory, addr: int, k: nat, r: Rela) {
    && r.offset == PeekNumber(mem, addr + 24 * k, 8)
    && r.info == PeekNumber(mem, addr + 24 * k + 8, 8)
    && r.addend == PeekNumber(mem, addr + 24 * k + 16, 8)
  }

  lemma {:induction false} EntriesRead(mem: Memory, addr: int, n: nat, k: nat)
    requires k < n
    ensures EntryRead(mem, addr, k, Entries(mem, addr, n)[k])
  {
    hide PeekNumber;
    if k < n - 1 {
      EntriesRead(mem, addr, n - 1, k);
    }
  }

  /** The string the symbol of an entry is called, the symbol index being the high half of r_info. */
  predicate SymbolName(m: Info, mem: Memory, r: Rela, name: seq<byte>) {
    NameAt(mem, m.dynstr + PeekNumber(mem, m.dynsym + 24 * (r.info / TWO32), 4), name)
  }

  /** The word an applied entry calls for: B + A for R_X86_64_RELATIVE (8), S + A for R_X86_64_64 (1), S for
      R_X86_64_GLOB_DAT (6) and R_X86_64_JUMP_SLOT (7), all modulo 2^64. */
  ghost predicate Calls(m: Info, mem: Memory, reg: Registry, r: Rela, word: nat) {
    var typ := r.info % TWO32;
    || (typ == 8 && word == (m.delta + r.addend) % TWO64)
    || (typ in {1, 6, 7} && exists name, s: nat ::
          && SymbolName(m, mem, r, name) && SymbolIs(m, mem, reg, name, s)
          && word == if typ == 1 then (s + r.addend) % TWO64 else s)
  }

  lemma ValueCalled(m: Info, mem: Memory, reg: Registry, r: Rela)
    requires HasSlot(m, mem, reg, r)
    ensures Calls(m, mem, reg, r, Value(m, mem, reg, r))
  {
    hide Resolve, PeekNumber, CString, NameAt, SymbolIs, Writable;
    if RelType(r.info) in {1, 6, 7} {
      var name := CString(mem, SymName(m, mem, RelSym(r.info)));
      CStringIs(mem, SymName(m, mem, RelSym(r.info)), name);
      ResolveIs(m, mem, reg, name);
      assert SymbolName(m, mem, r, name);
    }
  }

  /** applyAll leaves in every slot the word its entry calls for as of the initial image; the slot is the eight bytes at
      r_offset plus the delta. */
  lemma SlotWords(m: Info, mem: Memory, reg: Registry, areas: seq<Area>, i: nat)
    requires Closed(m, mem, areas) && TablesInside(m, mem, areas) && ExpectedEntrySize(m)
    requires Separate(m, mem, reg, AllEntries(m, mem), areas)
    requires i < |AllEntries(m, mem)| && HasSlot(m, mem, reg, AllEntries(m, mem)[i])
    ensures var r := AllEntries(m, mem)[i];
            Calls(m, mem, reg, r, PeekNumber(All(m, reg, mem).mem, (r.offset + m.delta) % TWO64, 8))
  {
    hide Closed, TablesInside, Separate, AllEntries, All, HasSlot, Value, Calls, ExpectedEntrySize, Peek, FromLE;
    var r := AllEntries(m, mem)[i];
    AllRelocates(m, mem, reg, areas);
    SlotNumber(m, mem, reg, r, All(m, reg, mem).mem);
    ValueCalled(m, mem, reg, r);
  }

  /** Exactly which entries get a slot: a target the module may write, and either no symbol needed or a symbol in the
      table whose S is not 0. */
  lemma HasSlotIff(m: Info, mem: Memory, reg: Registry, r: Rela)
    ensures HasSlot(m, mem, reg, r) <==>
            && Writable(m.segments, (r.offset + m.delta) % TWO64)
            && (r.info % TWO32 == 8
                || (r.info % TWO32 in {1, 6, 7} && m.dynsym != 0 && m.dynstr != 0 && r.info / TWO32 < m.dynsymCount
                    && exists name, s: nat :: SymbolName(m, mem, r, name) && SymbolIs(m, mem, reg, name, s) && s != 0))
  {
    hide Resolve, PeekNumber, CString, NameAt, SymbolIs, Writable;
    var name := CString(mem, SymName(m, mem, RelSym(r.info)));
    forall other ensures SymbolName(m, mem, r, other) <==> other == name {
      CStringIs(mem, SymName(m, mem, RelSym(r.info)), other);
    }
    ResolveIs(m, mem, reg, name);
    forall s: nat | SymbolIs(m, mem, reg, name, s) ensures s == Resolve(m, mem, reg, name) {
      SymbolUnique(m, mem, reg, name, s, Resolve(m, mem, reg, name));
    }
  }

  /** A name has one S. */
  lemma SymbolUnique(m: Info, mem: Memory, reg: Registry, name: seq<byte>, s: nat, t: nat)
    requires SymbolIs(m, mem, reg, name, s) && SymbolIs(m, mem, reg, name, t)
    ensures s == t
  {
    hide DefinesAt, ValueAt;
    forall i: nat, j: nat | FirstDefinition(m, mem, name, i) && FirstDefinition(m, mem, name, j) ensures i == j {
    }
  }

  // ---- the dynamic table, by tag ----

  /** The last entry with one of the tags has the value. */
  ghost predicate LastTagged(dyns: seq<Dyn>, tags: set<int>, v: U64) {
    exists i :: (0 <= i < |dyns| && dyns[i].tag in tags && dyns[i].val == v
                 && forall j :: i < j < |dyns| ==> dyns[j].tag !in tags)
  }

  ghost predicate NoneTagged(dyns: seq<Dyn>, tags: set<int>) {
    forall i :: 0 <= i < |dyns| ==> dyns[i].tag !in tags
  }

  lemma {:induction false} LastEntryIs(dyns: seq<Dyn>, a: int, b: int)
    ensures match LastEntry(dyns, a, b)
            case None => NoneTagged(dyns, {a, b})
            case Some(v) => LastTagged(dyns, {a, b}, v)
  {
    if dyns != [] {
      var init, d := dyns[..|dyns| - 1], dyns[|dyns| - 1];
      LastEntryIs(init, a, b);
      assert forall i :: 0 <= i < |init| ==> init[i] == dyns[i];
      if d.tag == a || d.tag == b {
        assert dyns[|dyns| - 1].tag in {a, b};
      } else if LastEntry(init, a, b).Some? {
        var i :| 0 <= i < |init| && init[i].tag in {a, b} && init[i].val == LastEntry(init, a, b).value
          && forall j :: i < j < |init| ==> init[j].tag !in {a, b};
        assert dyns[i].tag in {a, b};
      }
    }
  }

  /** The value of the last entry with one of the tags, or `otherwise`. */
  ghost predicate Describes(dyns: seq<Dyn>, tags: set<int>, v: U64, otherwise: U64) {
    LastTagged(dyns, tags, v) || (NoneTagged(dyns, tags) && v == otherwise)
  }

  /** Where the relocation tables are, by the numbers of the tags: DT_RELA 7, DT_RELASZ 8, DT_RELAENT 9, DT_JMPREL 23,
      DT_PLTRELSZ 2 and the SCE twins of the first three. */
  lemma TablesByTag(dyns: seq<Dyn>)
    ensures var t := FindTables(dyns);
            && (if t.rela.Some? then LastTagged(dyns, {7, 0x61000019}, t.rela.value)
                else NoneTagged(dyns, {7, 0x61000019}))
            && Describes(dyns, {8, 0x6100001B}, t.relaSize, 0)
            && Describes(dyns, {9, 0x6100001D}, t.relaEnt, 24)
            && (if t.jmprel.Some? then LastTagged(dyns, {23}, t.jmprel.value) else NoneTagged(dyns, {23}))
            && Describes(dyns, {2}, t.pltrelsz, 0)
  {
    hide LastEntry, LastTagged, NoneTagged;
    LastEntryIs(dyns, 7, 0x61000019);
    LastEntryIs(dyns, 8, 0x6100001B);
    LastEntryIs(dyns, 9, 0x6100001D);
    LastEntryIs(dyns, 23, 23);
    LastEntryIs(dyns, 2, 2);
    assert {23, 23} == {23} && {2, 2} == {2};
  }

  /** The entries applyAll looks at: those of the first table, then those of the second, each read as three words. */
  lemma EntriesByTable(m: Info, mem: Memory, k: nat)
    requires k < |AllEntries(m, mem)|
    ensures var t := FindTables(m.dynamics);
            var n := if t.rela.Some? && (t.rela.value + m.delta) % TWO64 != 0 then t.relaSize / 24 else 0;
            if k < n
            then t.rela.Some? && EntryRead(mem, (t.rela.value + m.delta) % TWO64, k, AllEntries(m, mem)[k])
            else t.jmprel.Some? && EntryRead(mem, (t.jmprel.value + m.delta) % TWO64, k - n, AllEntries(m, mem)[k])
  {
    hide Entries, EntryRead, FindTables;
    var t := FindTables(m.dynamics);
    var first := RelaEntries(m, mem);
    if k < |first| {
      EntriesRead(mem, Relocate(m, t.rela.value), t.relaSize / RELA_SIZE, k);
    } else {
      EntriesRead(mem, Relocate(m, t.jmprel.value), t.pltrelsz / RELA_SIZE, k - |first|);
    }
  }

  // ---- the symbol table ----

  /** A symbol of zeros: st_name, st_info, st_shndx and st_value. */
  predicate ZeroSymbol(mem: Memory, at: int) {
    && PeekNumber(mem, at, 4) == 0 && PeekNumber(mem, at + 4, 1) == 0
    && PeekNumber(mem, at + 6, 2) == 0 && PeekNumber(mem, at + 8, 8) == 0
  }

  /** The count goes on past index i: it is at most 2^20, the table has not met the string table, and symbol i is not
      all zeros. */
  predicate Countable(mem: Memory, dynsym: U64, dynstr: U64, i: nat) {
    i <= 0x10_0000 && dynsym + 24 * i + 24 <= dynstr && !ZeroSymbol(mem, dynsym + 24 * i)
  }

  /** The count without a size entry: the first index from n on past which it does not go. */
  lemma {:induction false} CountIs(mem: Memory, dynsym: U64, dynstr: U64, n: nat)
    ensures !Countable(mem, dynsym, dynstr, CountFrom(mem, dynsym, dynstr, n))
    ensures forall i: nat :: n <= i < CountFrom(mem, dynsym, dynstr, n) ==> Countable(mem, dynsym, dynstr, i)
    decreases MANY_SYMBOLS + 1 - n
  {
    hide CountFrom, Countable;
    CountStep(mem, dynsym, dynstr, n);
    if Countable(mem, dynsym, dynstr, n) {
      CountIs(mem, dynsym, dynstr, n + 1);
      forall i: nat | n <= i < CountFrom(mem, dynsym, dynstr, n) ensures Countable(mem, dynsym, dynstr, i) {
        assert i == n || Countable(mem, dynsym, dynstr, i);
      }
    }
  }

  lemma CountStep(mem: Memory, dynsym: U64, dynstr: U64, n: nat)
    ensures CountFrom(mem, dynsym, dynstr, n) ==
            if Countable(mem, dynsym, dynstr, n) then CountFrom(mem, dynsym, dynstr, n + 1) else n
    ensures Countable(mem, dynsym, dynstr, n) ==> n <= MANY_SYMBOLS
  {
    hide PeekNumber;
    assert NullSymbol(mem, dynsym + SYM_SIZE * n) <==> ZeroSymbol(mem, dynsym + 24 * n);
    hide NullSymbol, ZeroSymbol;
  }

  /** The symbol and string table after populating, by the numbers of the tags: DT_SYMTAB 6, DT_STRTAB 5, DT_SYMTABSZ 11
      and their SCE twins. */
  lemma SymbolsByTag(m: Info, mem: Memory)
    ensures var m' := WithSymbols(m, mem); var d := m.dynamics;
            && m' == m.(dynsym := m'.dynsym, dynstr := m'.dynstr, dynsymCount := m'.dynsymCount)
            && (NoneTagged(d, {6, 0x6100000D}) || NoneTagged(d, {5, 0x6100000F}) ==>
                  m'.dynsym == 0 && m'.dynstr == 0 && m'.dynsymCount == 0)
            && (forall sym: U64, str: U64 ::
                  LastTagged(d, {6, 0x6100000D}, sym) && LastTagged(d, {5, 0x6100000F}, str) ==>
                  && m'.dynsym == (sym + m.delta) % TWO64 && m'.dynstr == (str + m.delta) % TWO64
                  && (NoneTagged(d, {11, 0x61000011}) ==>
                        m'.dynsymCount == CountFrom(mem, m'.dynsym, m'.dynstr, 0))
                  && (forall size: U64 :: LastTagged(d, {11, 0x61000011}, size) ==> m'.dynsymCount == size / 24))
  {
    hide LastEntry, LastTagged, NoneTagged, CountFrom;
    LastEntryIs(m.dynamics, 6, 0x6100000D);
    LastEntryIs(m.dynamics, 5, 0x6100000F);
    LastEntryIs(m.dynamics, 11, 0x61000011);
    TagOnce(m.dynamics, {6, 0x6100000D});
    TagOnce(m.dynamics, {5, 0x6100000F});
    TagOnce(m.dynamics, {11, 0x61000011});
  }

  /** There is one last entry or none. */
  lemma TagOnce(d: seq<Dyn>, tags: set<int>)
    ensures forall v: U64, w: U64 :: LastTagged(d, tags, v) && LastTagged(d, tags, w) ==> v == w
    ensures forall v: U64 :: LastTagged(d, tags, v) ==> !NoneTagged(d, tags)
  {
    forall v: U64, w: U64 | LastTagged(d, tags, v) && LastTagged(d, tags, w) ensures v == w {
      var i :| 0 <= i < |d| && d[i].tag in tags && d[i].val == v && forall j :: i < j < |d| ==> d[j].tag !in tags;
      var k :| 0 <= k < |d| && d[k].tag in tags && d[k].val == w && forall j :: k < j < |d| ==> d[j].tag !in tags;
      assert i == k;
    }
  }

  // ---- the counters, by relocation type ----

  /** The entry at position n of the table, as read in its turn. */
  function EntryInTurn(m: Info, reg: Registry, p: Progress, addr: int, n: nat): Rela {
    ReadRela(Range(m, reg, p, addr, n).mem, addr + 24 * n)
  }

  /** Entry n failed. */
  predicate FailsInTurn(m: Info, reg: Registry, p: Progress, addr: int, n: nat) {
    Range(m, reg, p, addr, n + 1).stats.failed > Range(m, reg, p, addr, n).stats.failed
  }

  /** How many of the first n entries have one of the types and did, or did not, fail. */
  function CountOf(m: Info, reg: Registry, p: Progress, addr: int, n: nat, types: set<nat>, failed: bool): nat {
    if n == 0 then 0
    else
      CountOf(m, reg, p, addr, n - 1, types, failed)
      + if EntryInTurn(m, reg, p, addr, n - 1).info % TWO32 in types && FailsInTurn(m, reg, p, addr, n - 1) == failed
        then 1 else 0
  }

  lemma StepByType(m: Info, reg: Registry, p: Progress, r: Rela)
    ensures var s, t, typ := p.stats, Step(m, reg, p, r).stats, r.info % TWO32;
            var fails := t.failed > s.failed;
            && t.relative == s.relative + (if typ == 8 && !fails then 1 else 0)
            && t.abs64 == s.abs64 + (if typ == 1 && !fails then 1 else 0)
            && t.globDat == s.globDat + (if typ == 6 && !fails then 1 else 0)
            && t.jumpSlot == s.jumpSlot + (if typ == 7 && !fails then 1 else 0)
            && (typ in {0, 1, 6, 7, 8} ==> t.skipped == s.skipped)
            && (typ !in {0, 1, 6, 7, 8} ==>
                  fails && t.skipped == s.skipped + if Writable(m.segments, Relocate(m, r.offset)) then 1 else 0)
  {
    hide Apply, Resolve, Writable, Relocate, CString, SymName;
  }

  /** Each counter counts the applied entries of its own relocation type. */
  lemma {:induction false} StatsByType(m: Info, reg: Registry, p: Progress, addr: int, n: nat)
    ensures var s, t := p.stats, Range(m, reg, p, addr, n).stats;
            && t.relative == s.relative + CountOf(m, reg, p, addr, n, {8}, false)
            && t.abs64 == s.abs64 + CountOf(m, reg, p, addr, n, {1}, false)
            && t.globDat == s.globDat + CountOf(m, reg, p, addr, n, {6}, false)
            && t.jumpSlot == s.jumpSlot + CountOf(m, reg, p, addr, n, {7}, false)
  {
    hide ReadRela, Step;
    if n > 0 {
      StatsByType(m, reg, p, addr, n - 1);
      StepByType(m, reg, Range(m, reg, p, addr, n - 1), EntryInTurn(m, reg, p, addr, n - 1));
    }
  }
}
