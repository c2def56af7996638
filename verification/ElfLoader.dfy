/** The image layout and the placement of PT_LOAD segments in guest memory. */
module ElfLoader {
  import opened Arith
  import opened Bits
  import opened Bytes
  import opened Options
  import opened GuestMemory
  import AddressSpace
  import Relocation

  const PAGE: nat := 0x1000
  const MAX_ALIGN: nat := 0x20_0000
  const PT_LOAD: nat := 1

  datatype Segment = Segment(typ: nat, flags: nat, offset: U64, vaddr: U64, filesz: U64, memsz: U64, align: U64)

  datatype Layout = Layout(preferredBase: U64, imageAlign: U64, imageSize: U64)

  /** v & ~(PAGE - 1). */
  function PageFloor(v: U64): U64 { BitAnd(v, BitNot(PAGE - 1), 64) }

  function PageCeil(v: U64): U64 { AlignUp(v, PAGE) }

  lemma PageIsPowerOfTwo()
    ensures Pow2(12) == PAGE && IsPowerOfTwo(PAGE)
  {
    assert Pow2(4) == 16 && Pow2(8) == 256 && Pow2(12) == 4096;
  }

  lemma PageFloorIs(v: U64)
    ensures PageFloor(v) == v - v % PAGE && PageFloor(v) % PAGE == 0
  {
    PageIsPowerOfTwo();
    Pow2Of64();
    hide BitAnd, Pow2;
    MaskClearsLowBits(v, 12, 64);
    MulMod(v / PAGE, PAGE);
  }

  lemma PageCeilIs(v: U64)
    requires v <= TWO64 - PAGE
    ensures PageCeil(v) % PAGE == 0 && v <= PageCeil(v) < v + PAGE && PageCeil(PageCeil(v)) == PageCeil(v)
  {
    PageIsPowerOfTwo();
    hide AlignUp, IsPowerOfTwo;
    CeilBounds(v);
    CeilBounds(AlignUp(v, PAGE));
  }

  lemma CeilBounds(v: U64)
    requires v <= TWO64 - PAGE
    ensures AlignUp(v, PAGE) % PAGE == 0 && v <= AlignUp(v, PAGE) < v + PAGE
    ensures v % PAGE == 0 ==> AlignUp(v, PAGE) == v
    ensures AlignUp(v, PAGE) <= TWO64 - PAGE
  {
    PageIsPowerOfTwo();
    hide AlignUp, IsPowerOfTwo;
    AlignUpClosedForm(v, PAGE);
    RoundedUpIsLeast(v, PAGE);
    assert TWO64 % PAGE == 0;
  }

  // ---- layout ----

  /** The segments the loader looks at. */
  function Loads(phdrs: seq<Segment>): seq<Segment> {
    if phdrs == [] then []
    else
      var s := phdrs[|phdrs| - 1];
      Loads(phdrs[..|phdrs| - 1]) + if s.typ == PT_LOAD then [s] else []
  }

  lemma LoadsPush(phdrs: seq<Segment>, i: nat)
    requires i < |phdrs|
    ensures Loads(phdrs[..i + 1]) == Loads(phdrs[..i]) + if phdrs[i].typ == PT_LOAD then [phdrs[i]] else []
  {
    assert phdrs[..i + 1][..i] == phdrs[..i];
  }

  function LowestPage(loads: seq<Segment>): U64 {
    if loads == [] then TWO64 - 1
    else Min(LowestPage(loads[..|loads| - 1]), PageFloor(loads[|loads| - 1].vaddr))
  }

  function LargestAlign(loads: seq<Segment>): U64 {
    if loads == [] then PAGE
    else
      var a := loads[|loads| - 1].align;
      Max(LargestAlign(loads[..|loads| - 1]), if a != 0 then a else PAGE)
  }

  /** Where a segment ends, from the preferred base on; 64-bit arithmetic. */
  function EndOf(s: Segment, base: U64): U64 { Wrap(s.vaddr - base + PageCeil(s.memsz)) }

  function LargestEnd(loads: seq<Segment>, base: U64): U64 {
    if loads == [] then 0
    else Max(LargestEnd(loads[..|loads| - 1], base), EndOf(loads[|loads| - 1], base))
  }

  function Min(a: U64, b: U64): U64 { if b < a then b else a }

  function Max(a: U64, b: U64): U64 { if a < b then b else a }

  method ComputeLayout(phdrs: seq<Segment>) returns (r: Option<Layout>)
    ensures r.None? <==> Loads(phdrs) == []
    ensures r.Some? ==>
              var base := LowestPage(Loads(phdrs));
              r.value == Layout(base, Min(LargestAlign(Loads(phdrs)), MAX_ALIGN),
                                PageCeil(LargestEnd(Loads(phdrs), base)))
  {
    hide PageFloor, PageCeil, Loads;
    var preferredBase, imageAlign: U64 := TWO64 - 1, PAGE;
    Whole(phdrs);
    for i := 0 to |phdrs|
      invariant preferredBase == LowestPage(Loads(phdrs[..i])) && imageAlign == LargestAlign(Loads(phdrs[..i]))
    {
      LoadsPush(phdrs, i);
      var s := phdrs[i];
      if s.typ != PT_LOAD {
        assert Loads(phdrs[..i + 1]) == Loads(phdrs[..i]);
        continue;
      }
      ghost var more := Loads(phdrs[..i + 1]);
      assert more[..|more| - 1] == Loads(phdrs[..i]);
      preferredBase := Min(preferredBase, PageFloor(s.vaddr));
      imageAlign := Max(imageAlign, if s.align != 0 then s.align else PAGE);
    }
    LowestPageIs(Loads(phdrs));
    if preferredBase == TWO64 - 1 {
      return None;
    }
    imageAlign := Min(imageAlign, MAX_ALIGN);
    var imageSize: U64 := 0;
    for i := 0 to |phdrs|
      invariant imageSize == LargestEnd(Loads(phdrs[..i]), preferredBase)
    {
      LoadsPush(phdrs, i);
      var s := phdrs[i];
      if s.typ != PT_LOAD {
        assert Loads(phdrs[..i + 1]) == Loads(phdrs[..i]);
        continue;
      }
      ghost var more := Loads(phdrs[..i + 1]);
      assert more[..|more| - 1] == Loads(phdrs[..i]);
      imageSize := Max(imageSize, EndOf(s, preferredBase));
    }
    imageSize := PageCeil(imageSize);
    r := Some(Layout(preferredBase, imageAlign, imageSize));
  }

  lemma Whole(phdrs: seq<Segment>)
    ensures phdrs[..|phdrs|] == phdrs && phdrs[..0] == [] && Loads([]) == []
  {
  }

  /** The preferred base is the page of the lowest segment. */
  lemma {:induction false} LowestPageIs(loads: seq<Segment>)
    ensures loads == [] <==> LowestPage(loads) == TWO64 - 1
    ensures forall i :: 0 <= i < |loads| ==> LowestPage(loads) <= loads[i].vaddr
    ensures loads != [] ==>
              LowestPage(loads) % PAGE == 0
              && exists i :: 0 <= i < |loads| && loads[i].vaddr - loads[i].vaddr % PAGE == LowestPage(loads)
  {
    hide PageFloor;
    if loads != [] {
      var init, s := loads[..|loads| - 1], loads[|loads| - 1];
      LowestPageIs(init);
      PageFloorIs(s.vaddr);
      if LowestPage(loads) == PageFloor(s.vaddr) {
        assert loads[|loads| - 1] == s;
      } else {
        var i :| 0 <= i < |init| && init[i].vaddr - init[i].vaddr % PAGE == LowestPage(init);
        assert loads[i] == init[i];
      }
    }
  }

  /** n rounded up to whole pages, without wrap-around. */
  function Padded(n: nat): (p: nat)
    ensures n <= p < n + PAGE && p % PAGE == 0
  {
    PageIsPowerOfTwo();
    RoundedUpIsLeast(n, PAGE);
    n + (PAGE - 1) - (n + (PAGE - 1)) % PAGE
  }

  lemma PageCeilIsPadded(v: U64)
    ensures PageCeil(v) % PAGE == 0 && PageCeil(v) <= TWO64 - PAGE
    ensures v <= TWO64 - PAGE ==> PageCeil(v) == Padded(v)
  {
    PageIsPowerOfTwo();
    hide AlignUp, IsPowerOfTwo;
    AlignUpClosedForm(v, PAGE);
    if v <= TWO64 - PAGE {
      CeilBounds(v);
    }
  }

  /** Where a segment with its page padding ends, without wrap-around. */
  function PaddedEnd(s: Segment, base: U64): nat
    requires base <= s.vaddr
  {
    s.vaddr - base + Padded(s.memsz)
  }

  ghost predicate AllAbove(loads: seq<Segment>, base: U64) {
    forall i :: 0 <= i < |loads| ==> base <= loads[i].vaddr
  }

  /** Every padded end is at most `limit`. */
  ghost predicate EndsWithin(loads: seq<Segment>, base: U64, limit: nat)
    requires AllAbove(loads, base)
  {
    forall i :: 0 <= i < |loads| ==> PaddedEnd(loads[i], base) <= limit
  }

  /** The image size holds every segment with its page padding exactly when all of them end below the last page of the
      64-bit range; it is a whole number of pages, and then the smallest one with that property. */
  lemma ImageSizeCoversIff(loads: seq<Segment>, base: U64)
    requires AllAbove(loads, base)
    ensures var size := PageCeil(LargestEnd(loads, base));
            && size % PAGE == 0
            && (EndsWithin(loads, base, size) <==> EndsWithin(loads, base, TWO64 - PAGE))
            && (EndsWithin(loads, base, size) && loads != [] ==>
                  exists i :: 0 <= i < |loads| && size - PAGE < PaddedEnd(loads[i], base))
  {
    hide PageCeil, PaddedEnd;
    PageCeilIsPadded(LargestEnd(loads, base));
    if EndsWithin(loads, base, TWO64 - PAGE) {
      LargestEndIs(loads, base);
    }
  }

  lemma {:induction false} LargestEndIs(loads: seq<Segment>, base: U64)
    requires AllAbove(loads, base) && EndsWithin(loads, base, TWO64 - PAGE)
    ensures LargestEnd(loads, base) <= TWO64 - PAGE && EndsWithin(loads, base, LargestEnd(loads, base))
    ensures loads != [] ==> exists i :: 0 <= i < |loads| && LargestEnd(loads, base) == PaddedEnd(loads[i], base)
  {
    hide PageCeil, Padded;
    if loads != [] {
      var init, s := loads[..|loads| - 1], loads[|loads| - 1];
      assert forall i :: 0 <= i < |init| ==> init[i] == loads[i];
      LargestEndIs(init, base);
      assert PaddedEnd(s, base) <= TWO64 - PAGE;
      PageCeilIsPadded(s.memsz);
      SmallMod(PaddedEnd(s, base), TWO64);
      assert EndOf(s, base) == PaddedEnd(s, base);
      if LargestEnd(loads, base) == EndOf(s, base) {
        assert loads[|loads| - 1] == s;
      } else {
        var i :| 0 <= i < |init| && LargestEnd(init, base) == PaddedEnd(init[i], base);
        assert loads[i] == init[i];
      }
    }
  }

  /** The input: one segment of 2^64 - 1 bytes at 0x1000 makes an image of size 0. */
  lemma HugeSegmentGivesEmptyImage(s: Segment)
    requires s.vaddr == 0x1000 && s.memsz == TWO64 - 1
    ensures LowestPage([s]) == 0x1000 && PageCeil(LargestEnd([s], 0x1000)) == 0
    ensures !EndsWithin([s], 0x1000, TWO64 - PAGE)
  {
    PageIsPowerOfTwo();
    PageFloorIs(s.vaddr);
    hide AlignUp, IsPowerOfTwo, PageFloor, Padded;
    AlignUpClosedForm(TWO64 - 1, PAGE);
    AlignUpClosedForm(0, PAGE);
    assert [s][..0] == [];
    assert PaddedEnd([s][0], 0x1000) >= TWO64 - 1;
  }

  /** The alignment before the cap: the largest of the segments' alignments, 0 meaning a page, and of the page. */
  lemma {:induction false} LargestAlignIs(loads: seq<Segment>)
    ensures PAGE <= LargestAlign(loads)
    ensures forall i :: 0 <= i < |loads| ==> loads[i].align <= LargestAlign(loads)
    ensures LargestAlign(loads) == PAGE || exists i :: 0 <= i < |loads| && loads[i].align == LargestAlign(loads)
  {
    if loads != [] {
      var init, s := loads[..|loads| - 1], loads[|loads| - 1];
      LargestAlignIs(init);
      assert forall i :: 0 <= i < |init| ==> init[i] == loads[i];
      if LargestAlign(loads) == LargestAlign(init) && LargestAlign(init) != PAGE {
        var i :| 0 <= i < |init| && init[i].align == LargestAlign(init);
        assert loads[i].align == LargestAlign(loads);
      }
    }
  }

  // ---- placement ----

  /** Where the image goes and what is in the file. */
  datatype Plan = Plan(file: seq<byte>, preferredBase: U64, actualBase: U64, name: string)

  function Delta(plan: Plan): U64 { Wrap(plan.actualBase - plan.preferredBase) }

  function At(plan: Plan, s: Segment): U64 { Wrap(s.vaddr + Delta(plan)) }

  /** Read 1, Write 2, Execute 4, from the file's R 4, W 2, X 1. */
  function FromFlags(flags: nat): (prot: nat)
    ensures prot < 8 && (prot % 2 == 1 <==> flags / 4 % 2 == 1)
    ensures (prot / 2 % 2 == 1 <==> flags / 2 % 2 == 1) && (prot / 4 == 1 <==> flags % 2 == 1)
  {
    (if flags / 4 % 2 == 1 then 1 else 0) + (if flags / 2 % 2 == 1 then 2 else 0) + (if flags % 2 == 1 then 4 else 0)
  }

  function RegionOf(plan: Plan, s: Segment): AddressSpace.Region {
    AddressSpace.Region(At(plan, s), PageCeil(s.memsz), FromFlags(s.flags), "seg:" + plan.name)
  }

  function Descriptor(plan: Plan, s: Segment): Relocation.LoadedSegment {
    Relocation.LoadedSegment(At(plan, s), s.filesz, s.memsz, s.flags)
  }

  predicate InFile(plan: Plan, s: Segment) { s.filesz == 0 || s.offset + s.filesz <= |plan.file| }

  /** The source's test of the file range, with its 64-bit sum. */
  predicate PassesFileCheck(plan: Plan, s: Segment) {
    s.filesz == 0 || (s.offset < |plan.file| && Wrap(s.offset + s.filesz) <= |plan.file|)
  }

  /** The test lets a range through that is not in the file exactly when its offset is and its end wraps to a place in
      the file or the very start. */
  lemma FileCheckPassesWronglyIff(plan: Plan, s: Segment)
    requires |plan.file| < TWO64
    ensures PassesFileCheck(plan, s) && !InFile(plan, s) <==>
            s.filesz != 0 && s.offset < |plan.file| && TWO64 <= s.offset + s.filesz <= TWO64 + |plan.file|
  {
    var sum := s.offset + s.filesz;
    assert sum < TWO64 ==> Wrap(sum) == sum;
    assert TWO64 <= sum ==> Wrap(sum) == sum - TWO64;
  }

  /** memcpy and memset stay inside the arena. */
  predicate Lands(plan: Plan, s: Segment) {
    s.filesz == 0
    || (AddressSpace.GUEST_BASE <= At(plan, s) && At(plan, s) + Max(s.filesz, s.memsz) <= AddressSpace.LIMIT)
  }

  /** No vector is longer. */
  const MAX_FILE: nat := 0x8000_0000_0000_0000

  /** What can be copied was in the file: a range whose end wraps does not fit in the arena. */
  lemma CopiedFromFileIff(plan: Plan, s: Segment)
    requires |plan.file| < MAX_FILE && Lands(plan, s)
    ensures PassesFileCheck(plan, s) <==> InFile(plan, s)
  {
    FileCheckPassesWronglyIff(plan, s);
    assert InFile(plan, s) && s.filesz != 0 ==> Wrap(s.offset + s.filesz) == s.offset + s.filesz;
  }

  /** The file's bytes, then zeros; nothing at all is written for a segment without file bytes. */
  function Content(plan: Plan, s: Segment): (bs: seq<byte>)
    requires InFile(plan, s)
    ensures |bs| == if s.filesz == 0 then 0 else Max(s.filesz, s.memsz)
  {
    if s.filesz == 0 then []
    else plan.file[s.offset..s.offset + s.filesz] + Zeros(if s.filesz < s.memsz then s.memsz - s.filesz else 0)
  }

  /** The segment is at or above the preferred base and no 64-bit sum about its place wraps. */
  predicate SaneSegment(plan: Plan, s: Segment) {
    && plan.preferredBase <= s.vaddr
    && AddressSpace.GUEST_BASE <= plan.actualBase
    && plan.actualBase + (s.vaddr - plan.preferredBase) + s.memsz + PAGE + AddressSpace.LIMIT < TWO64
  }

  ghost predicate AllSane(plan: Plan, loads: seq<Segment>) {
    forall i :: 0 <= i < |loads| ==> SaneSegment(plan, loads[i])
  }

  function RegionsAfter(plan: Plan, regions: seq<AddressSpace.Region>, loads: seq<Segment>): seq<AddressSpace.Region> {
    if loads == [] then regions
    else RegionsAfter(plan, regions, loads[..|loads| - 1]) + [RegionOf(plan, loads[|loads| - 1])]
  }

  /** The next hint after the segments were mapped. */
  function HintAfter(plan: Plan, hint: nat, loads: seq<Segment>): nat {
    if loads == [] then hint
    else
      var before, s := HintAfter(plan, hint, loads[..|loads| - 1]), loads[|loads| - 1];
      if At(plan, s) == before then before + PageCeil(s.memsz) else before
  }

  /** How placing a segment ends: its own address was not to be had; the file check failed; the copy runs past the
      arena; the loader goes on although the segment got no range of its own; or as it should. */
  datatype Placed = Ok | Mismatch | OutOfFile | Fault | Stray

  ghost function PlacingOne(plan: Plan, regions: seq<AddressSpace.Region>, hint: nat, s: Segment): Placed {
    if !AddressSpace.Granted(regions, hint, PageCeil(s.memsz), At(plan, s)) then Mismatch
    else if !PassesFileCheck(plan, s) then OutOfFile
    else if !Lands(plan, s) then Fault
    else if !AddressSpace.Fits(regions, At(plan, s), PageCeil(s.memsz)) then Stray
    else Ok
  }

  /** How placing all of them ends: the first that is not Ok decides. */
  ghost function Placing(plan: Plan, regions: seq<AddressSpace.Region>, hint: nat, loads: seq<Segment>): Placed {
    if loads == [] then Ok
    else
      var init := loads[..|loads| - 1];
      match Placing(plan, regions, hint, init)
      case Ok => PlacingOne(plan, RegionsAfter(plan, regions, init), HintAfter(plan, hint, init), loads[|loads| - 1])
      case bad => bad
  }

  /** Each segment in turn finds its own range free, and its bytes are in the file. */
  ghost predicate CanPlace(plan: Plan, regions: seq<AddressSpace.Region>, loads: seq<Segment>) {
    loads == [] ||
    (var init, s := loads[..|loads| - 1], loads[|loads| - 1];
     && CanPlace(plan, regions, init)
     && AddressSpace.Fits(RegionsAfter(plan, regions, init), At(plan, s), PageCeil(s.memsz))
     && InFile(plan, s) && Lands(plan, s))
  }

  lemma PlacingOneOkIff(plan: Plan, regions: seq<AddressSpace.Region>, hint: nat, s: Segment)
    requires |plan.file| < MAX_FILE
    ensures PlacingOne(plan, regions, hint, s).Ok? <==>
            AddressSpace.Fits(regions, At(plan, s), PageCeil(s.memsz)) && InFile(plan, s) && Lands(plan, s)
  {
    hide PageCeil, At, AddressSpace.Fits, AddressSpace.Granted, PassesFileCheck, InFile, Lands;
    if Lands(plan, s) {
      CopiedFromFileIff(plan, s);
    }
    if AddressSpace.Fits(regions, At(plan, s), PageCeil(s.memsz)) {
      AddressSpace.FitsIsGranted(regions, hint, PageCeil(s.memsz), At(plan, s));
    }
  }

  /** A segment goes astray exactly when it has no bytes in the file, map answers with its address, and that address is
      0 or the segment's end leaves 64 bits. */
  lemma StrayIff(plan: Plan, regions: seq<AddressSpace.Region>, hint: nat, s: Segment)
    ensures PlacingOne(plan, regions, hint, s).Stray? <==>
            && s.filesz == 0 && AddressSpace.Granted(regions, hint, PageCeil(s.memsz), At(plan, s))
            && (At(plan, s) == 0 || At(plan, s) + PageCeil(s.memsz) >= TWO64)
  {
    hide PageCeil, At;
    var at, size := At(plan, s), PageCeil(s.memsz);
    if AddressSpace.Granted(regions, hint, size, at) && at != 0 && at + size < TWO64 {
      AddressSpace.ClearFits(regions, at, size);
    }
    if s.filesz != 0 && Lands(plan, s) {
      LandsInside(plan, s);
    }
  }

  lemma LandsInside(plan: Plan, s: Segment)
    requires s.filesz != 0 && Lands(plan, s)
    ensures 0 < At(plan, s) && At(plan, s) + PageCeil(s.memsz) < TWO64
  {
    hide At, PageCeil;
    PageCeilIs(s.memsz);
  }

  /** Placing succeeds exactly when each segment can be placed, whatever the next hint is. */
  lemma {:induction false} PlacingOkIff(plan: Plan, regions: seq<AddressSpace.Region>, hint: nat, loads: seq<Segment>)
    requires |plan.file| < MAX_FILE
    ensures Placing(plan, regions, hint, loads).Ok? <==> CanPlace(plan, regions, loads)
  {
    hide PlacingOne, AddressSpace.Fits, InFile, Lands, RegionsAfter, HintAfter, PageCeil, At;
    if loads != [] {
      var init := loads[..|loads| - 1];
      PlacingOkIff(plan, regions, hint, init);
      PlacingOneOkIff(plan, RegionsAfter(plan, regions, init), HintAfter(plan, hint, init), loads[|loads| - 1]);
    }
  }

  function Fill(plan: Plan, mem: Memory, s: Segment): (r: Memory)
    ensures r.origin == mem.origin && |r.bytes| == |mem.bytes|
  {
    if InFile(plan, s) && Inside(mem, At(plan, s), |Content(plan, s)|)
    then mem.(bytes := Store(mem.bytes, IndexOf(mem, At(plan, s)), Content(plan, s))) else mem
  }

  /** The memory after all the segments are copied. */
  function Filled(plan: Plan, mem: Memory, loads: seq<Segment>): (r: Memory)
    ensures r.origin == mem.origin && |r.bytes| == |mem.bytes|
  {
    if loads == [] then mem else Fill(plan, Filled(plan, mem, loads[..|loads| - 1]), loads[|loads| - 1])
  }

  predicate ArenaWindow(mem: Memory) {
    mem.origin == AddressSpace.GUEST_BASE && |mem.bytes| == AddressSpace.GUEST_SIZE
  }

  // ---- lemmas for the loop ----

  lemma {:induction false} LoadsPrefix(phdrs: seq<Segment>, i: nat)
    requires i <= |phdrs|
    ensures Loads(phdrs[..i]) <= Loads(phdrs)
    decreases |phdrs| - i
  {
    if i == |phdrs| {
      assert phdrs[..i] == phdrs;
    } else {
      LoadsPrefix(phdrs, i + 1);
      LoadsPush(phdrs, i);
    }
  }

  lemma SaneLoad(plan: Plan, phdrs: seq<Segment>, i: nat)
    requires i < |phdrs| && phdrs[i].typ == PT_LOAD && AllSane(plan, Loads(phdrs))
    ensures SaneSegment(plan, phdrs[i])
  {
    hide SaneSegment, Loads;
    LoadsPrefix(phdrs, i + 1);
    LoadsPush(phdrs, i);
    var k := |Loads(phdrs[..i])|;
    assert Loads(phdrs)[k] == phdrs[i];
  }

  lemma {:induction false} PlacingFront(plan: Plan, regions: seq<AddressSpace.Region>, hint: nat, front: seq<Segment>,
                                        loads: seq<Segment>)
    requires front <= loads && !Placing(plan, regions, hint, front).Ok?
    ensures Placing(plan, regions, hint, loads) == Placing(plan, regions, hint, front)
    decreases |loads|
  {
    hide PlacingOne, RegionsAfter, HintAfter;
    if front != loads {
      PlacingFront(plan, regions, hint, front, loads[..|loads| - 1]);
    }
  }

  /** A segment that cannot be placed stops the whole image. */
  lemma PlacingStops(plan: Plan, regions: seq<AddressSpace.Region>, hint: nat, phdrs: seq<Segment>, i: nat)
    requires i <= |phdrs| && !Placing(plan, regions, hint, Loads(phdrs[..i])).Ok?
    ensures Placing(plan, regions, hint, Loads(phdrs)) == Placing(plan, regions, hint, Loads(phdrs[..i]))
  {
    hide Placing, Loads;
    LoadsPrefix(phdrs, i);
    PlacingFront(plan, regions, hint, Loads(phdrs[..i]), Loads(phdrs));
  }

  lemma AtIs(plan: Plan, s: Segment)
    requires SaneSegment(plan, s)
    ensures At(plan, s) == plan.actualBase + (s.vaddr - plan.preferredBase) && At(plan, s) > 0
    ensures PageCeil(PageCeil(s.memsz)) == PageCeil(s.memsz) && s.memsz <= PageCeil(s.memsz) < s.memsz + PAGE
    ensures At(plan, s) + PageCeil(s.memsz) + AddressSpace.LIMIT < TWO64
  {
    hide PageCeil;
    PageCeilIs(s.memsz);
    var x := plan.actualBase + (s.vaddr - plan.preferredBase);
    var d := plan.actualBase - plan.preferredBase;
    assert Wrap(d) == d || Wrap(d) == d + TWO64;
    assert s.vaddr + Wrap(d) == x || s.vaddr + Wrap(d) == x + TWO64;
  }

  lemma CeilTwice(v: U64)
    ensures AlignUp(PageCeil(v), AddressSpace.PAGE) == PageCeil(v)
  {
    hide PageCeil, AlignUp;
    PageCeilIsPadded(v);
    assert AlignUp(PageCeil(v), PAGE) == PageCeil(v) by { CeilBounds(PageCeil(v)); }
  }

  // ---- the code ----

  /** map at exactly the segment's address. The region list stays sound unless a sum wrapped, and then only a segment
      that is placed has a region that fits. */
  method Reserve(plan: Plan, s: Segment, space: AddressSpace.Space) returns (mapped: nat)
    requires space.Valid() && space.base != 0
    modifies space
    ensures space.base == old(space.base) && (SaneSegment(plan, s) ==> space.Valid())
    ensures mapped == At(plan, s) <==>
              AddressSpace.Granted(old(space.regions), old(space.nextHint), PageCeil(s.memsz), At(plan, s))
    ensures AddressSpace.Fits(old(space.regions), At(plan, s), PageCeil(s.memsz)) ==>
              && space.Valid() && space.regions == old(space.regions) + [RegionOf(plan, s)]
              && space.nextHint == if At(plan, s) == old(space.nextHint) then At(plan, s) + PageCeil(s.memsz)
                                   else old(space.nextHint)
  {
    hide PageCeil, FromFlags, At, AlignUp, AddressSpace.IsLeastFit;
    var segActual, segMem := At(plan, s), PageCeil(s.memsz);
    CeilTwice(s.memsz);
    SaneSearch(plan, s, space.regions, space.nextHint);
    mapped := space.Map(segActual, segMem, FromFlags(s.flags), "seg:" + plan.name);
  }

  lemma SaneSearch(plan: Plan, s: Segment, regions: seq<AddressSpace.Region>, hint: nat)
    requires AddressSpace.RegionsOk(regions) && hint <= AddressSpace.LIMIT
    ensures SaneSegment(plan, s) ==>
              At(plan, s) + PageCeil(s.memsz) < TWO64 && AddressSpace.Top(hint, regions) + PageCeil(s.memsz) < TWO64
  {
    hide PageCeil, At;
    AddressSpace.TopInArena(hint, regions);
    if SaneSegment(plan, s) {
      AtIs(plan, s);
    }
  }

  /** memcpy of the file bytes and memset of the rest. */
  method CopySegment(plan: Plan, s: Segment, guest: Guest)
    requires ArenaWindow(guest.Mem()) && InFile(plan, s) && Lands(plan, s)
    requires AddressSpace.GUEST_BASE <= At(plan, s) <= AddressSpace.LIMIT
    modifies guest.bytes
    ensures guest.Mem() == Fill(plan, old(guest.Mem()), s)
  {
    hide At, Store, Content, Zeros, Fill, IndexOf;
    var segActual := At(plan, s);
    ghost var before := guest.bytes[..];
    FillIs(plan, guest.Mem(), s);
    if s.filesz != 0 {
      var head := plan.file[s.offset..s.offset + s.filesz];
      IndexIs(guest.Mem(), segActual, s.filesz);
      guest.WriteBytes(segActual, head);
      ContentIs(plan, s);
      if s.memsz > s.filesz {
        var tail := Zeros(s.memsz - s.filesz);
        IndexIs(guest.Mem(), segActual + s.filesz, s.memsz - s.filesz);
        guest.WriteBytes(segActual + s.filesz, tail);
        StoreStore(before, segActual - AddressSpace.GUEST_BASE, head, tail);
      }
    }
  }

  lemma IndexIs(mem: Memory, addr: nat, n: nat)
    requires ArenaWindow(mem) && AddressSpace.GUEST_BASE <= addr && addr + n <= AddressSpace.LIMIT
    ensures IndexOf(mem, addr) == addr - AddressSpace.GUEST_BASE
    ensures forall k: nat :: k <= n ==> Inside(mem, addr, k)
  {
    SmallMod(addr - AddressSpace.GUEST_BASE, TWO64);
  }

  lemma ContentIs(plan: Plan, s: Segment)
    requires InFile(plan, s) && 0 < s.filesz
    ensures s.filesz < s.memsz ==>
              Content(plan, s) == plan.file[s.offset..s.offset + s.filesz] + Zeros(s.memsz - s.filesz)
    ensures s.filesz >= s.memsz ==> Content(plan, s) == plan.file[s.offset..s.offset + s.filesz]
  {
  }

  lemma FillIs(plan: Plan, mem: Memory, s: Segment)
    requires ArenaWindow(mem) && InFile(plan, s) && Lands(plan, s)
    requires AddressSpace.GUEST_BASE <= At(plan, s) <= AddressSpace.LIMIT
    ensures var at := At(plan, s) - AddressSpace.GUEST_BASE;
            at + |Content(plan, s)| <= |mem.bytes|
            && Fill(plan, mem, s) == mem.(bytes := Store(mem.bytes, at, Content(plan, s)))
            && (s.filesz == 0 ==> Fill(plan, mem, s) == mem)
  {
    hide At;
    IndexIs(mem, At(plan, s), |Content(plan, s)|);
    assert s.filesz == 0 ==> Store(mem.bytes, At(plan, s) - AddressSpace.GUEST_BASE, []) == mem.bytes;
  }

  /** Step 5 of the loader: reserve each segment's own range and copy the segment there. */
  method MapSegments(plan: Plan, phdrs: seq<Segment>, space: AddressSpace.Space, guest: Guest, m: Relocation.Module)
    returns (r: Placed)
    requires space.Valid() && space.base != 0 && ArenaWindow(guest.Mem()) && |plan.file| < MAX_FILE
    modifies space, guest.bytes, m`segments
    ensures space.base == old(space.base) && (r.Ok? || AllSane(plan, Loads(phdrs)) ==> space.Valid())
    ensures r == Placing(plan, old(space.regions), old(space.nextHint), Loads(phdrs))
    ensures r.Ok? <==> CanPlace(plan, old(space.regions), Loads(phdrs))
    ensures r.Ok? ==>
              && space.regions == RegionsAfter(plan, old(space.regions), Loads(phdrs))
              && guest.Mem() == Filled(plan, old(guest.Mem()), Loads(phdrs))
              && m.segments == old(m.segments) + Descriptors(plan, Loads(phdrs))
  {
    hide Loads, Fill, PageCeil, At, SaneSegment, PlacingOne, CanPlace, Placing, RegionsAfter, HintAfter, Filled;
    hide Descriptors, RegionOf;
    PlacingNone(plan, space.regions, space.nextHint, guest.Mem());
    Whole(phdrs);
    ghost var regions, hint := space.regions, space.nextHint;
    PlacingOkIff(plan, regions, hint, Loads(phdrs));
    for i := 0 to |phdrs|
      invariant space.Valid() && space.base == old(space.base) && ArenaWindow(guest.Mem())
      invariant Placing(plan, regions, hint, Loads(phdrs[..i])).Ok?
      invariant space.regions == RegionsAfter(plan, regions, Loads(phdrs[..i]))
      invariant space.nextHint == HintAfter(plan, hint, Loads(phdrs[..i]))
      invariant guest.Mem() == Filled(plan, old(guest.Mem()), Loads(phdrs[..i]))
      invariant m.segments == old(m.segments) + Descriptors(plan, Loads(phdrs[..i]))
    {
      LoadsPush(phdrs, i);
      var s := phdrs[i];
      if s.typ != PT_LOAD {
        assert Loads(phdrs[..i + 1]) == Loads(phdrs[..i]);
        continue;
      }
      ghost var done, more := Loads(phdrs[..i]), Loads(phdrs[..i + 1]);
      assert more == done + [s];
      PlacingPush(plan, regions, hint, done, s);
      FilledPush(plan, old(guest.Mem()), done, s);
      r := PlaceOne(plan, s, space, guest, m);
      if !r.Ok? {
        PlacingStops(plan, regions, hint, phdrs, i + 1);
        if AllSane(plan, Loads(phdrs)) {
          SaneLoad(plan, phdrs, i);
        }
        return;
      }
      DescriptorsPush(plan, done, s);
    }
    r := Ok;
  }

  lemma PlacingNone(plan: Plan, regions: seq<AddressSpace.Region>, hint: nat, mem: Memory)
    ensures Placing(plan, regions, hint, []).Ok? && RegionsAfter(plan, regions, []) == regions
    ensures HintAfter(plan, hint, []) == hint && Filled(plan, mem, []) == mem && Descriptors(plan, []) == []
  {
  }

  lemma PlacingPush(plan: Plan, regions: seq<AddressSpace.Region>, hint: nat, done: seq<Segment>, s: Segment)
    requires Placing(plan, regions, hint, done).Ok?
    ensures var rs, h := RegionsAfter(plan, regions, done), HintAfter(plan, hint, done);
            && Placing(plan, regions, hint, done + [s]) == PlacingOne(plan, rs, h, s)
            && RegionsAfter(plan, regions, done + [s]) == rs + [RegionOf(plan, s)]
            && HintAfter(plan, hint, done + [s]) == if At(plan, s) == h then h + PageCeil(s.memsz) else h
  {
    hide PlacingOne, At, PageCeil, RegionOf;
    assert (done + [s])[..|done|] == done;
  }

  lemma FilledPush(plan: Plan, mem: Memory, done: seq<Segment>, s: Segment)
    ensures Filled(plan, mem, done + [s]) == Fill(plan, Filled(plan, mem, done), s)
  {
    hide Fill;
    assert (done + [s])[..|done|] == done;
  }

  lemma DescriptorsPush(plan: Plan, done: seq<Segment>, s: Segment)
    ensures Descriptors(plan, done + [s]) == Descriptors(plan, done) + [Descriptor(plan, s)]
  {
  }

  method PlaceOne(plan: Plan, s: Segment, space: AddressSpace.Space, guest: Guest, m: Relocation.Module)
    returns (r: Placed)
    requires space.Valid() && space.base != 0 && ArenaWindow(guest.Mem()) && |plan.file| < MAX_FILE
    modifies space, guest.bytes, m`segments
    ensures space.base == old(space.base) && (r.Ok? || SaneSegment(plan, s) ==> space.Valid())
    ensures r == PlacingOne(plan, old(space.regions), old(space.nextHint), s)
    ensures r.Ok? ==>
              && space.regions == old(space.regions) + [RegionOf(plan, s)]
              && space.nextHint == (if At(plan, s) == old(space.nextHint) then At(plan, s) + PageCeil(s.memsz)
                                    else old(space.nextHint))
              && guest.Mem() == Fill(plan, old(guest.Mem()), s)
              && m.segments == old(m.segments) + [Descriptor(plan, s)]
  {
    hide Fill, PageCeil, FromFlags, SaneSegment, At, AddressSpace.Fits;
    var before, hint := space.regions, space.nextHint;
    PlacingOneOkIff(plan, before, hint, s);
    var mapped := Reserve(plan, s, space);
    if mapped != At(plan, s) {
      return Mismatch;
    }
    if s.filesz != 0 {
      if s.offset >= |plan.file| || Wrap(s.offset + s.filesz) > |plan.file| {
        return OutOfFile;
      }
    }
    if !Lands(plan, s) {
      return Fault;
    }
    if !AddressSpace.Fits(before, At(plan, s), PageCeil(s.memsz)) {
      return Stray;
    }
    FitsInArena(before, plan, s);
    CopySegment(plan, s, guest);
    m.AppendSegment(Descriptor(plan, s));
    r := Ok;
  }

  lemma FitsInArena(before: seq<AddressSpace.Region>, plan: Plan, s: Segment)
    requires AddressSpace.Fits(before, At(plan, s), PageCeil(s.memsz))
    ensures AddressSpace.GUEST_BASE <= At(plan, s) <= AddressSpace.LIMIT
  {
  }

  function Descriptors(plan: Plan, loads: seq<Segment>): seq<Relocation.LoadedSegment> {
    seq(|loads|, i requires 0 <= i < |loads| => Descriptor(plan, loads[i]))
  }

  /** Steps 6 to 9: the dynamic table, the symbol table it describes, and the relocations. */
  method Link(m: Relocation.Module, dynamics: seq<Relocation.Dyn>, guest: Guest, registry: seq<byte> -> U64)
    returns (ok: bool)
    modifies m`dynamics, m`dynsym, m`dynstr, m`dynsymCount, guest.bytes
    ensures m.Data() == Relocation.WithSymbols(old(m.Data()).(dynamics := dynamics), old(guest.Mem()))
    ensures ok == Relocation.All(m.Data(), registry, old(guest.Mem())).ok
    ensures guest.Mem() == Relocation.All(m.Data(), registry, old(guest.Mem())).mem
  {
    hide Relocation.All, Relocation.WithSymbols;
    m.SetDynamics(dynamics);
    m.PopulateSymbolTable(guest.Mem());
    var rp := new Relocation.Processor(m, guest, registry);
    var stats;
    ok, stats := rp.ApplyAll();
  }

  /** The module and its symbol table once the segments are in place. */
  function Loaded(plan: Plan, loads: seq<Segment>, dynamics: seq<Relocation.Dyn>, placed: Memory): Relocation.Info {
    Relocation.WithSymbols(Relocation.Info(Delta(plan), Descriptors(plan, loads), dynamics, 0, 0, 0), placed)
  }

  /** All relocations of the placed image succeed. */
  predicate Links(plan: Plan, loads: seq<Segment>, dynamics: seq<Relocation.Dyn>, registry: seq<byte> -> U64,
                  mem: Memory) {
    var placed := Filled(plan, mem, loads);
    Relocation.All(Loaded(plan, loads, dynamics, placed), registry, placed).ok
  }

  /** What the loader hopes for: the range it got for the image size lies in the arena, and the image size covers every
      segment. */
  ghost predicate Offered(loads: seq<Segment>, actualBase: U64) {
    var base := LowestPage(loads);
    && AddressSpace.GUEST_BASE <= actualBase && actualBase + PageCeil(LargestEnd(loads, base)) <= AddressSpace.LIMIT
    && AllAbove(loads, base) && EndsWithin(loads, base, TWO64 - PAGE)
  }

  lemma OfferedIsSane(plan: Plan, loads: seq<Segment>)
    requires Offered(loads, plan.actualBase) && plan.preferredBase == LowestPage(loads)
    ensures AllSane(plan, loads)
  {
    hide LowestPage, LargestEnd, PageCeil;
    ImageSizeCoversIff(loads, plan.preferredBase);
    forall i | 0 <= i < |loads| ensures SaneSegment(plan, loads[i]) {
      assert PaddedEnd(loads[i], plan.preferredBase) <= PageCeil(LargestEnd(loads, plan.preferredBase));
    }
  }

  /** How a load ends: with a module, with null, or with a segment for which it faults or goes on regardless. */
  datatype Loading = Done(m: Relocation.Module) | Refused | Astray(how: Placed)

  /** The whole of load(), from the parsed program headers on. `actualBase` is the range the address space offers, 0
      for none; `dynamics` are the entries of PT_DYNAMIC; `registry` answers for the modules loaded so far. It
      succeeds exactly when every segment can be placed and every relocation applied, and then leaves the relocated
      image. */
  method Load(file: seq<byte>, phdrs: seq<Segment>, entry: U64, dynamics: seq<Relocation.Dyn>, name: string,
              actualBase: U64, space: AddressSpace.Space, guest: Guest, registry: seq<byte> -> U64)
    returns (r: Loading, start: U64)
    requires space.Valid() && space.base != 0 && ArenaWindow(guest.Mem()) && |file| < MAX_FILE
    modifies space, guest.bytes
    ensures space.base == old(space.base)
    ensures r.Done? || Offered(Loads(phdrs), actualBase) ==> space.Valid()
    ensures var plan := Plan(file, LowestPage(Loads(phdrs)), actualBase, name);
            r.Done? <==>
            && Loads(phdrs) != [] && actualBase != 0 && CanPlace(plan, old(space.regions), Loads(phdrs))
            && Links(plan, Loads(phdrs), dynamics, registry, old(guest.Mem()))
    ensures var how := Placing(Plan(file, LowestPage(Loads(phdrs)), actualBase, name), old(space.regions),
                               old(space.nextHint), Loads(phdrs));
            && (r.Astray? <==> actualBase != 0 && (how.Fault? || how.Stray?))
            && (r.Astray? ==> r.how == how)
    ensures r.Done? ==>
              var plan := Plan(file, LowestPage(Loads(phdrs)), actualBase, name);
              var placed := Filled(plan, old(guest.Mem()), Loads(phdrs));
              var data := Loaded(plan, Loads(phdrs), dynamics, placed);
              && space.regions == RegionsAfter(plan, old(space.regions), Loads(phdrs))
              && fresh(r.m) && r.m.Data() == data
              && guest.Mem() == Relocation.All(data, registry, placed).mem
              && start == Wrap(entry + Delta(plan))
  {
    hide Loads, AllSane, CanPlace, Filled, RegionsAfter, LowestPage, LargestEnd, LargestAlign, Descriptors, PageCeil;
    hide Relocation.All, Relocation.WithSymbols, Wrap, ArenaWindow, Offered, PlacingOne;
    r, start := Refused, 0;
    assert ArenaWindow(guest.Mem());
    var layout := ComputeLayout(phdrs);
    if layout.None? {
      return;
    }
    if actualBase == 0 {
      return;
    }
    var plan := Plan(file, layout.value.preferredBase, actualBase, name);
    if Offered(Loads(phdrs), actualBase) {
      OfferedIsSane(plan, Loads(phdrs));
    }
    var m := new Relocation.Module(layout.value.preferredBase, actualBase);
    var placed := MapSegments(plan, phdrs, space, guest, m);
    if placed.Fault? || placed.Stray? {
      r := Astray(placed);
      return;
    }
    if !placed.Ok? {
      return;
    }
    assert [] + Descriptors(plan, Loads(phdrs)) == Descriptors(plan, Loads(phdrs));
    var ok := Link(m, dynamics, guest, registry);
    if !ok {
      return;
    }
    r, start := Done(m), Wrap(entry + Delta(plan));
  }

  // ---- the loaded image ----

  lemma {:induction false} RegionsStayOk(plan: Plan, regions: seq<AddressSpace.Region>, loads: seq<Segment>)
    requires AddressSpace.RegionsOk(regions) && CanPlace(plan, regions, loads)
    ensures AddressSpace.RegionsOk(RegionsAfter(plan, regions, loads))
    ensures |RegionsAfter(plan, regions, loads)| == |regions| + |loads|
    ensures forall i :: 0 <= i < |loads| ==>
              RegionsAfter(plan, regions, loads)[|regions| + i] == RegionOf(plan, loads[i])
  {
    hide AddressSpace.Fits, AddressSpace.RegionsOk, RegionOf;
    if loads != [] {
      var init, s := loads[..|loads| - 1], loads[|loads| - 1];
      RegionsStayOk(plan, regions, init);
      RegionIs(plan, s);
      AddressSpace.AppendOk(RegionsAfter(plan, regions, init), RegionOf(plan, s));
    }
  }

  lemma RegionIs(plan: Plan, s: Segment)
    ensures RegionOf(plan, s).base == At(plan, s) && RegionOf(plan, s).size == PageCeil(s.memsz)
  {
  }

  /** What is recorded of a segment: in the address space its place, its size in whole pages, its access rights and a
      name; in the module its place, its sizes and the flags of the file. */
  lemma PlacedRegion(plan: Plan, regions: seq<AddressSpace.Region>, loads: seq<Segment>, i: nat)
    requires AddressSpace.RegionsOk(regions) && CanPlace(plan, regions, loads) && i < |loads|
    ensures |RegionsAfter(plan, regions, loads)| == |regions| + |loads|
    ensures var r, s := RegionsAfter(plan, regions, loads)[|regions| + i], loads[i];
            && r.base == (s.vaddr - plan.preferredBase + plan.actualBase) % TWO64
            && r.size % 4096 == 0 && (s.memsz <= TWO64 - 4096 ==> s.memsz <= r.size < s.memsz + 4096)
            && r.name == "seg:" + plan.name
            && (r.prot % 2 == 1 <==> s.flags / 4 % 2 == 1) && (r.prot / 2 % 2 == 1 <==> s.flags / 2 % 2 == 1)
            && (r.prot / 4 == 1 <==> s.flags % 2 == 1)
            && Descriptors(plan, loads)[i] == Relocation.LoadedSegment(r.base, s.filesz, s.memsz, s.flags)
  {
    hide At, PageCeil, CanPlace, RegionsAfter, FromFlags, AddressSpace.RegionsOk;
    RegionsStayOk(plan, regions, loads);
    PageCeilIsPadded(loads[i].memsz);
    AtModulo(plan, loads[i]);
  }

  lemma AtModulo(plan: Plan, s: Segment)
    ensures At(plan, s) == (s.vaddr - plan.preferredBase + plan.actualBase) % TWO64
  {
  }

  /** A placed image: its segments, page padding included, are inside the arena and pairwise disjoint. */
  lemma SegmentsDisjoint(plan: Plan, regions: seq<AddressSpace.Region>, loads: seq<Segment>, i: nat, j: nat)
    requires AddressSpace.RegionsOk(regions) && CanPlace(plan, regions, loads) && i < j < |loads|
    ensures At(plan, loads[i]) + PageCeil(loads[i].memsz) <= At(plan, loads[j])
            || At(plan, loads[j]) + PageCeil(loads[j].memsz) <= At(plan, loads[i])
  {
    hide At, PageCeil, CanPlace, RegionsAfter;
    RegionsStayOk(plan, regions, loads);
    var all, n := RegionsAfter(plan, regions, loads), |regions|;
    assert all[n + i] == RegionOf(plan, loads[i]) && all[n + j] == RegionOf(plan, loads[j]);
    assert AddressSpace.Apart(all[n + i], all[n + j]);
  }

  lemma SegmentInArena(plan: Plan, regions: seq<AddressSpace.Region>, loads: seq<Segment>, i: nat)
    requires AddressSpace.RegionsOk(regions) && CanPlace(plan, regions, loads) && i < |loads|
    ensures AddressSpace.GUEST_BASE <= At(plan, loads[i])
    ensures At(plan, loads[i]) + PageCeil(loads[i].memsz) <= AddressSpace.LIMIT
  {
    hide At, PageCeil, CanPlace, RegionsAfter;
    RegionsStayOk(plan, regions, loads);
    var all, n := RegionsAfter(plan, regions, loads), |regions|;
    assert all[n + i] == RegionOf(plan, loads[i]);
  }

  /** Two segments claim a common address, by the sizes their descriptors give. */
  predicate Overlap(plan: Plan, s: Segment, t: Segment) {
    At(plan, s) < At(plan, t) + t.memsz && At(plan, t) < At(plan, s) + s.memsz
  }

  /** Placed segments overlap exactly when the size of one of them was rounded up to 0 and the other does not end below
      it. */
  lemma PlacedOverlapIff(plan: Plan, regions: seq<AddressSpace.Region>, loads: seq<Segment>, i: nat, j: nat)
    requires AddressSpace.RegionsOk(regions) && CanPlace(plan, regions, loads) && i < j < |loads|
    ensures var s, t := loads[i], loads[j];
            Overlap(plan, s, t) <==>
            || (!Paged(s) && At(plan, s) < At(plan, t) + t.memsz)
            || (!Paged(t) && At(plan, t) < At(plan, s) + s.memsz)
  {
    hide At, PageCeil, CanPlace, AddressSpace.RegionsOk;
    SegmentInArena(plan, regions, loads, i);
    SegmentInArena(plan, regions, loads, j);
    SegmentsDisjoint(plan, regions, loads, i, j);
    if Paged(loads[i]) && Paged(loads[j]) {
      SizeBound(loads[i]);
      SizeBound(loads[j]);
    }
  }

  /** An address outside what a segment occupies. */
  predicate Outside(plan: Plan, s: Segment, addr: nat) {
    addr < At(plan, s) || At(plan, s) + s.memsz <= addr
  }

  function ByteAt(mem: Memory, addr: nat): byte
    requires ArenaWindow(mem) && AddressSpace.GUEST_BASE <= addr < AddressSpace.LIMIT
  {
    mem.bytes[addr - AddressSpace.GUEST_BASE]
  }

  /** What a segment means for an address: file bytes, then zeros, if it has file bytes; otherwise what was there. */
  function BytePlaced(plan: Plan, mem: Memory, s: Segment, addr: nat): byte
    requires ArenaWindow(mem) && AddressSpace.GUEST_BASE <= addr < AddressSpace.LIMIT && InFile(plan, s)
  {
    var k := addr - At(plan, s);
    if Outside(plan, s, addr) || s.filesz == 0 then ByteAt(mem, addr)
    else if k < s.filesz then plan.file[s.offset + k] else 0
  }

  /** What one segment leaves at an address. */
  lemma FillByte(plan: Plan, mem: Memory, s: Segment, addr: nat)
    requires ArenaWindow(mem) && InFile(plan, s) && s.filesz <= s.memsz
    requires AddressSpace.GUEST_BASE <= At(plan, s) && At(plan, s) + s.memsz <= AddressSpace.LIMIT
    requires AddressSpace.GUEST_BASE <= addr < AddressSpace.LIMIT
    ensures ByteAt(Fill(plan, mem, s), addr) == BytePlaced(plan, mem, s, addr)
  {
    hide At, Store, Fill;
    FillIs(plan, mem, s);
  }

  /** The size of the segment can be rounded up to pages in 64 bits. */
  predicate Paged(s: Segment) { s.memsz <= TWO64 - PAGE }

  /** Every size is one of those, and no segment has more bytes in the file than in memory, as the format demands. */
  ghost predicate WellSized(loads: seq<Segment>) {
    forall i :: 0 <= i < |loads| ==> loads[i].filesz <= loads[i].memsz && Paged(loads[i])
  }

  /** The loaded image, byte by byte: inside a segment that has file bytes, those and then zeros; everywhere else,
      segments without file bytes included, what was there before. */
  lemma {:induction false} FilledByte(plan: Plan, mem: Memory, regions: seq<AddressSpace.Region>, loads: seq<Segment>,
                                      addr: nat)
    requires ArenaWindow(mem) && AddressSpace.RegionsOk(regions) && CanPlace(plan, regions, loads)
    requires WellSized(loads) && AddressSpace.GUEST_BASE <= addr < AddressSpace.LIMIT
    ensures (forall i :: 0 <= i < |loads| ==> Outside(plan, loads[i], addr)) ==>
              ByteAt(Filled(plan, mem, loads), addr) == ByteAt(mem, addr)
    ensures forall i :: 0 <= i < |loads| && !Outside(plan, loads[i], addr) ==>
              InFile(plan, loads[i])
              && ByteAt(Filled(plan, mem, loads), addr) == BytePlaced(plan, mem, loads[i], addr)
  {
    hide At, PageCeil, Fill, ByteAt, CanPlace, InFile, AddressSpace.RegionsOk, Outside;
    if loads != [] {
      var init, s := loads[..|loads| - 1], loads[|loads| - 1];
      CanPlaceParts(plan, regions, loads);
      assert forall i :: 0 <= i < |init| ==> init[i] == loads[i];
      FilledByte(plan, mem, regions, init, addr);
      SegmentInArena(plan, regions, loads, |loads| - 1);
      SizeBound(s);
      FillByte(plan, Filled(plan, mem, init), s, addr);
      forall i | 0 <= i < |init| && !Outside(plan, loads[i], addr) ensures Outside(plan, s, addr) {
        SegmentsDisjoint(plan, regions, loads, i, |loads| - 1);
        SizeBound(loads[i]);
        OutsideOther(plan, loads[i], s, addr);
      }
    }
  }

  lemma CanPlaceParts(plan: Plan, regions: seq<AddressSpace.Region>, loads: seq<Segment>)
    requires CanPlace(plan, regions, loads) && loads != []
    ensures var init, s := loads[..|loads| - 1], loads[|loads| - 1];
            && CanPlace(plan, regions, init) && InFile(plan, s) && Lands(plan, s)
            && AddressSpace.Fits(RegionsAfter(plan, regions, init), At(plan, s), PageCeil(s.memsz))
  {
  }

  lemma SizeBound(s: Segment)
    requires Paged(s)
    ensures s.memsz <= PageCeil(s.memsz)
  {
    PageCeilIs(s.memsz);
  }

  lemma OutsideOther(plan: Plan, s: Segment, t: Segment, addr: nat)
    requires !Outside(plan, s, addr) && s.memsz <= PageCeil(s.memsz) && t.memsz <= PageCeil(t.memsz)
    requires At(plan, s) + PageCeil(s.memsz) <= At(plan, t) || At(plan, t) + PageCeil(t.memsz) <= At(plan, s)
    ensures Outside(plan, t, addr)
  {
    hide At, PageCeil;
  }

  /** One page at 0x1000 without file bytes. */
  const BARE_PAGE := Segment(PT_LOAD, 6, 0, 0x1000, 0, PAGE, PAGE)

  lemma OneSegment(plan: Plan, s: Segment)
    ensures CanPlace(plan, [], [s]) <==>
            AddressSpace.Fits([], At(plan, s), PageCeil(s.memsz)) && InFile(plan, s) && Lands(plan, s)
    ensures LowestPage([s]) == Min(TWO64 - 1, PageFloor(s.vaddr))
  {
    hide At, PageFloor, PageCeil, RegionOf, InFile, Lands, AddressSpace.Fits;
    assert [s][..0] == [] && LowestPage([]) == TWO64 - 1;
    assert CanPlace(plan, [], []) && RegionsAfter(plan, [], []) == [];
  }

  lemma BarePagePlaced(base: U64)
    requires AddressSpace.GUEST_BASE <= base && base + PAGE <= AddressSpace.LIMIT
    ensures var plan := Plan([], 0x1000, base, "");
            LowestPage([BARE_PAGE]) == 0x1000 && CanPlace(plan, [], [BARE_PAGE]) && At(plan, BARE_PAGE) == base
  {
    hide At, PageFloor, PageCeil, LowestPage, CanPlace, RegionOf;
    var plan := Plan([], 0x1000, base, "");
    PageFloorIs(0x1000);
    PageCeilIs(PAGE);
    AtIs(plan, BARE_PAGE);
    OneSegment(plan, BARE_PAGE);
  }

  /** The input: that page, placed anywhere in an empty arena, keeps whatever bytes were there. */
  lemma StaleBytesSurvive(mem: Memory, base: U64, k: nat)
    requires ArenaWindow(mem) && AddressSpace.GUEST_BASE <= base && base + PAGE <= AddressSpace.LIMIT && k < PAGE
    ensures var plan := Plan([], 0x1000, base, "");
            && LowestPage([BARE_PAGE]) == 0x1000 && CanPlace(plan, [], [BARE_PAGE]) && At(plan, BARE_PAGE) == base
            && ByteAt(Filled(plan, mem, [BARE_PAGE]), base + k) == ByteAt(mem, base + k)
  {
    hide At, PageCeil, CanPlace, LowestPage, Fill, ByteAt, ArenaWindow;
    BarePagePlaced(base);
    var plan := Plan([], 0x1000, base, "");
    assert [BARE_PAGE][..0] == [] && Filled(plan, mem, []) == mem;
    FillIs(plan, mem, BARE_PAGE);
  }
}
