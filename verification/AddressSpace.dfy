/** The guest address space: a region list with a first-fit search for free gaps. 64-bit sums wrap as in the source. */
module AddressSpace {
  import opened Bytes
  import opened Bits
  import opened Options

  const GUEST_BASE: nat := 0x1000_0000_0000
  const GUEST_SIZE: nat := 0x100_0000_0000
  const LIMIT: nat := GUEST_BASE + GUEST_SIZE
  const PAGE: nat := 0x1000

  datatype Region = Region(base: nat, size: nat, prot: nat, name: string)

  function End(r: Region): nat { r.base + r.size }

  /** A 64-bit sum. */
  function Sum(a: nat, b: nat): (s: nat)
    requires a < TWO64 && b < TWO64
    ensures s == (a + b) % TWO64
  {
    if a + b < TWO64 then a + b else a + b - TWO64
  }

  predicate Apart(r: Region, q: Region) {
    End(r) <= q.base || End(q) <= r.base
  }

  /** Pairwise disjoint and inside the arena. */
  ghost predicate RegionsOk(rs: seq<Region>) {
    && (forall i :: 0 <= i < |rs| ==> GUEST_BASE <= rs[i].base && End(rs[i]) <= LIMIT)
    && (forall i, j :: 0 <= i < j < |rs| ==> Apart(rs[i], rs[j]))
  }

  /** [a, a + size) is inside the arena and meets no region. */
  predicate Fits(rs: seq<Region>, a: nat, size: nat) {
    GUEST_BASE <= a && a + size <= LIMIT && forall i :: 0 <= i < |rs| ==> a + size <= rs[i].base || a >= End(rs[i])
  }

  /** The test of the code, with its 64-bit sum: what fits without wrap-around passes it. */
  ghost predicate Clear(rs: seq<Region>, a: nat, size: nat)
    requires a < TWO64 && size < TWO64
  {
    && a >= GUEST_BASE && Sum(a, size) <= LIMIT
    && forall i :: 0 <= i < |rs| ==> Sum(a, size) <= rs[i].base || a >= End(rs[i])
  }

  ghost predicate IsLeastFit(rs: seq<Region>, from: nat, size: nat, a: nat) {
    from <= a && Fits(rs, a, size) && forall b :: from <= b && Fits(rs, b, size) ==> a <= b
  }

  // ---- std::sort by base ----

  function Insert(r: Region, rs: seq<Region>): (s: seq<Region>)
    ensures multiset(s) == multiset(rs) + multiset{r}
  {
    if rs == [] then [r]
    else if r.base <= rs[0].base then [r] + rs
    else
      assert multiset(rs) == multiset{rs[0]} + multiset(rs[1..]) by { assert rs == [rs[0]] + rs[1..]; }
      [rs[0]] + Insert(r, rs[1..])
  }

  function SortByBase(rs: seq<Region>): (s: seq<Region>)
    ensures multiset(s) == multiset(rs)
  {
    if rs == [] then []
    else
      assert multiset(rs) == multiset{rs[0]} + multiset(rs[1..]) by { assert rs == [rs[0]] + rs[1..]; }
      Insert(rs[0], SortByBase(rs[1..]))
  }

  ghost predicate Ascending(rs: seq<Region>) {
    forall i, j :: 0 <= i < j < |rs| ==> rs[i].base <= rs[j].base
  }

  lemma {:induction false} InsertAscending(r: Region, rs: seq<Region>)
    requires Ascending(rs)
    ensures Ascending(Insert(r, rs))
  {
    if rs != [] && r.base > rs[0].base {
      InsertAscending(r, rs[1..]);
      var t := Insert(r, rs[1..]);
      forall i | 0 <= i < |t| ensures rs[0].base <= t[i].base {
        assert t[i] in multiset(t);
        assert t[i] == r || t[i] in rs[1..];
      }
    }
  }

  lemma {:induction false} SortAscending(rs: seq<Region>)
    ensures Ascending(SortByBase(rs))
  {
    if rs != [] {
      SortAscending(rs[1..]);
      InsertAscending(rs[0], SortByBase(rs[1..]));
    }
  }

  lemma SortSameElements(rs: seq<Region>, r: Region)
    ensures r in SortByBase(rs) <==> r in rs
  {
    assert r in multiset(SortByBase(rs)) <==> r in multiset(rs);
  }

  /** The highest address the scan can stand on: the hint or a region's end. */
  function Top(from: nat, rs: seq<Region>): (t: nat)
    ensures t >= from && forall r :: r in rs ==> End(r) <= t
  {
    if rs == [] then from
    else
      var t := Top(from, rs[1..]);
      assert forall r :: r in rs ==> r == rs[0] || r in rs[1..];
      if End(rs[0]) > t then End(rs[0]) else t
  }

  lemma {:induction false} TopIsLeast(from: nat, rs: seq<Region>, bound: nat)
    requires from <= bound && forall r :: r in rs ==> End(r) <= bound
    ensures Top(from, rs) <= bound
  {
    if rs != [] {
      TopIsLeast(from, rs[1..], bound);
    }
  }

  /** The first-fit scan over the sorted regions: the first position of `cur` that fits, 0 if there is none. */
  method Scan(rs: seq<Region>, from: nat, size: nat) returns (a: nat)
    requires RegionsOk(rs) && GUEST_BASE < from <= LIMIT && size < TWO64
    ensures Top(from, rs) + size < TWO64 ==> (a != 0 ==> IsLeastFit(rs, from, size, a))
    ensures Top(from, rs) + size < TWO64 ==> (a == 0 <==> forall b :: from <= b ==> !Fits(rs, b, size))
    ensures Top(from, rs) + size >= TWO64 ==> a != 0 && forall b :: !Fits(rs, b, size)
    ensures a != 0 ==> a < TWO64 && Clear(rs, a, size)
  {
    hide Fits, IsLeastFit, Clear, Top, SortByBase, Ascending, RegionsOk;
    var sorted := SortByBase(rs);
    SortAscending(rs);
    forall r ensures r in sorted <==> r in rs { SortSameElements(rs, r); }
    TopInArena(from, rs);
    ghost var fine := Top(from, rs) + size < TWO64;
    if !fine {
      HugeNeverFits(rs, size);
    }
    var cur := from;
    TopOfNone(from, sorted);
    for k := 0 to |sorted|
      invariant from <= cur <= Top(from, rs)
      invariant forall j :: 0 <= j < k ==> End(sorted[j]) <= cur
      invariant fine ==> forall b :: from <= b < cur ==> !Fits(rs, b, size)
      invariant cur == Top(from, sorted[..k])
    {
      var r := sorted[k];
      assert r in sorted;
      if Sum(cur, size) <= r.base {
        StopIsClear(rs, sorted, k, cur, size);
        if fine {
          ClearFits(rs, cur, size);
          FirstIsLeast(rs, from, size, cur);
        }
        return cur;
      }
      if fine {
        SkippedDoNotFit(rs, r, cur, size);
      }
      TopSnoc(from, sorted[..k], r);
      assert sorted[..k + 1] == sorted[..k] + [r];
      cur := if cur >= End(r) then cur else End(r);
    }
    assert sorted[..|sorted|] == sorted;
    TopSame(from, rs, sorted);
    if Sum(cur, size) <= LIMIT {
      LastIsClear(rs, sorted, cur, size);
      if fine {
        ClearFits(rs, cur, size);
        FirstIsLeast(rs, from, size, cur);
      }
      return cur;
    }
    if fine {
      PastEndDoesNotFit(rs, cur, size);
    }
    return 0;
  }

  lemma TopInArena(from: nat, rs: seq<Region>)
    requires RegionsOk(rs) && from <= LIMIT
    ensures Top(from, rs) <= LIMIT
  {
    TopIsLeast(from, rs, LIMIT);
  }

  lemma TopOfNone(from: nat, rs: seq<Region>)
    ensures Top(from, rs[..0]) == from
  {
  }

  lemma HugeNeverFits(rs: seq<Region>, size: nat)
    requires size + LIMIT >= TWO64
    ensures forall b :: !Fits(rs, b, size)
  {
  }

  lemma FirstIsLeast(rs: seq<Region>, from: nat, size: nat, a: nat)
    requires from <= a && Fits(rs, a, size) && forall b :: from <= b < a ==> !Fits(rs, b, size)
    ensures IsLeastFit(rs, from, size, a)
  {
  }

  lemma ClearFits(rs: seq<Region>, a: nat, size: nat)
    requires a < TWO64 && size < TWO64 && Clear(rs, a, size) && a + size < TWO64
    ensures Fits(rs, a, size)
  {
  }

  lemma PastEndDoesNotFit(rs: seq<Region>, cur: nat, size: nat)
    requires cur + size > LIMIT
    ensures forall b :: b >= cur ==> !Fits(rs, b, size)
  {
  }

  lemma {:induction false} TopSnoc(from: nat, rs: seq<Region>, r: Region)
    ensures Top(from, rs + [r]) == if End(r) > Top(from, rs) then End(r) else Top(from, rs)
  {
    if rs == [] {
      assert rs + [r] == [r];
    } else {
      TopSnoc(from, rs[1..], r);
      assert (rs + [r])[1..] == rs[1..] + [r];
    }
  }

  lemma TopSame(from: nat, rs: seq<Region>, sorted: seq<Region>)
    requires forall r :: r in sorted <==> r in rs
    ensures Top(from, sorted) == Top(from, rs)
  {
    TopIsLeast(from, rs, Top(from, sorted));
    TopIsLeast(from, sorted, Top(from, rs));
  }

  lemma StopIsClear(rs: seq<Region>, sorted: seq<Region>, k: nat, cur: nat, size: nat)
    requires RegionsOk(rs) && Ascending(sorted) && k < |sorted| && forall r :: r in sorted <==> r in rs
    requires forall j :: 0 <= j < k ==> End(sorted[j]) <= cur
    requires GUEST_BASE <= cur < TWO64 && size < TWO64 && Sum(cur, size) <= sorted[k].base
    ensures Clear(rs, cur, size)
  {
    assert sorted[k] in rs;
    forall i | 0 <= i < |rs| ensures Sum(cur, size) <= rs[i].base || cur >= End(rs[i]) {
      assert rs[i] in sorted;
      var j :| 0 <= j < |sorted| && sorted[j] == rs[i];
      assert j > k ==> sorted[k].base <= sorted[j].base;
    }
  }

  lemma LastIsClear(rs: seq<Region>, sorted: seq<Region>, cur: nat, size: nat)
    requires GUEST_BASE <= cur < TWO64 && size < TWO64 && Sum(cur, size) <= LIMIT && forall r :: r in rs ==> r in sorted
    requires forall j :: 0 <= j < |sorted| ==> End(sorted[j]) <= cur
    ensures Clear(rs, cur, size)
  {
    forall i | 0 <= i < |rs| ensures cur >= End(rs[i]) { assert rs[i] in sorted; }
  }

  lemma SkippedDoNotFit(rs: seq<Region>, r: Region, cur: nat, size: nat)
    requires r in rs && cur + size > r.base
    ensures forall b :: cur <= b < End(r) ==> !Fits(rs, b, size)
  {
    var i :| 0 <= i < |rs| && rs[i] == r;
    forall b | cur <= b < End(r) ensures !Fits(rs, b, size) {
      assert !(b + size <= rs[i].base || b >= End(rs[i]));
    }
  }

  /** The hint passes the test, or it is 0 and so is the answer because nothing fits. */
  ghost predicate Granted(rs: seq<Region>, from: nat, size: nat, hint: nat)
    requires size < TWO64 && hint < TWO64
  {
    if hint != 0 then Clear(rs, hint, size)
    else Top(from, rs) + size < TWO64 && forall b :: from <= b ==> !Fits(rs, b, size)
  }

  lemma FitsIsGranted(rs: seq<Region>, from: nat, size: nat, hint: nat)
    requires Fits(rs, hint, size)
    ensures Granted(rs, from, size, hint)
  {
  }

  class Space {
    var base: nat
    var nextHint: nat
    var regions: seq<Region>

    /** `base` is 0 until init. */
    ghost predicate Valid()
      reads this
    {
      if base == 0 then regions == []
      else base == GUEST_BASE && GUEST_BASE < nextHint <= LIMIT && RegionsOk(regions)
    }

    constructor ()
      ensures Valid() && base == 0 && regions == []
    {
      base, nextHint, regions := 0, 0, [];
    }

    /** `arenaReady` is whether the shared arena could be created. */
    method Init(arenaReady: bool) returns (ok: bool)
      requires Valid()
      modifies this
      ensures Valid() && regions == old(regions)
      ensures ok <==> old(base) != 0 || arenaReady
      ensures ok ==> base == GUEST_BASE
      ensures ok && old(base) == 0 ==> nextHint == GUEST_BASE + 0x10000
    {
      if base != 0 {
        return true;
      }
      if !arenaReady {
        return false;
      }
      base := GUEST_BASE;
      nextHint := base + 0x10000;
      return true;
    }

    /** The caller's hint passes the code's range check and clashes with no region. */
    ghost predicate HintTaken(size: nat, hint: nat)
      requires size < TWO64 && hint < TWO64
      reads this
    {
      hint != 0 && Clear(regions, hint, size)
    }

    method FindFreeGap(size: nat, hint: nat) returns (a: nat)
      requires Valid() && base != 0 && size < TWO64 && hint < TWO64
      ensures HintTaken(size, hint) ==> a == hint
      ensures HintTaken(size, hint) && hint + size < TWO64 ==> Fits(regions, a, size)
      ensures !HintTaken(size, hint) && Top(nextHint, regions) + size < TWO64 ==>
                && (a != 0 ==> IsLeastFit(regions, nextHint, size, a))
                && (a == 0 <==> forall b :: nextHint <= b ==> !Fits(regions, b, size))
      ensures !HintTaken(size, hint) && Top(nextHint, regions) + size >= TWO64 ==>
                a != 0 && forall b :: !Fits(regions, b, size)
      ensures a != 0 ==> a < TWO64 && Clear(regions, a, size)
    {
      if hint != 0 && hint >= base && Sum(hint, size) <= base + GUEST_SIZE {
        var clash := false;
        for i := 0 to |regions|
          invariant !clash <==> forall j :: 0 <= j < i ==> Sum(hint, size) <= regions[j].base || hint >= End(regions[j])
        {
          if !(Sum(hint, size) <= regions[i].base || hint >= End(regions[i])) {
            clash := true;
            break;
          }
        }
        if !clash {
          return hint;
        }
      }
      a := Scan(regions, nextHint, size);
    }

    /** No sum of the search leaves 64 bits. */
    ghost predicate NoWrap(size: nat, hint: nat)
      reads this
    {
      Top(nextHint, regions) + size < TWO64 && hint + size < TWO64
    }

    /** No sum of the search that decides the call leaves 64 bits. */
    ghost predicate SearchFits(size: nat, hint: nat)
      requires size < TWO64 && hint < TWO64
      reads this
    {
      if HintTaken(size, hint) then hint + size < TWO64 else Top(nextHint, regions) + size < TWO64
    }

    /** A call of map for this size and hint answers with the hint. */
    ghost predicate Grants(size: nat, hint: nat)
      requires size < TWO64 && hint < TWO64
      reads this
    {
      Granted(regions, nextHint, size, hint)
    }

    /** Records a region at whatever address the search finds. The list stays sound exactly when the sum that decides
        the search does not wrap; when it wraps a region is recorded that does not fit. The region holds the request
        exactly when the request can be rounded up to whole pages in 64 bits. */
    method Map(hint: nat, request: nat, prot: nat, name: string) returns (a: nat)
      requires Valid() && hint < TWO64 && request < TWO64
      modifies this
      ensures var size := AlignUp(request, PAGE);
              old(base) != 0 && old(NoWrap(size, hint)) ==>
                && Valid()
                && (a == 0 ==> regions == old(regions) && nextHint == old(nextHint)
                               && forall b :: nextHint <= b ==> !Fits(regions, b, size))
                && (a != 0 ==> regions == old(regions) + [Region(a, size, prot, name)] && Fits(old(regions), a, size)
                               && nextHint == if a == old(nextHint) then a + size else old(nextHint))
                && (a != 0 && !old(HintTaken(size, hint)) ==> IsLeastFit(old(regions), old(nextHint), size, a))
                && (old(HintTaken(size, hint)) ==> a == hint)
      ensures old(base) != 0 && a != 0 ==>
                var size := AlignUp(request, PAGE);
                && regions == old(regions) + [Region(a, size, prot, name)]
                && nextHint == (if a == old(nextHint) then Sum(a, size) else old(nextHint))
                && (Valid() <==> Fits(old(regions), a, size))
                && (size >= request <==> request <= TWO64 - PAGE)
      ensures old(base) != 0 ==> (Valid() <==> old(SearchFits(AlignUp(request, PAGE), hint)))
      ensures old(base) != 0 && a == 0 ==> Valid() && regions == old(regions) && nextHint == old(nextHint)
      ensures old(base) == 0 ==> a == 0 && Valid() && regions == old(regions) && nextHint == old(nextHint)
      ensures old(base) != 0 ==> (a == hint <==> old(Grants(AlignUp(request, PAGE), hint)))
      ensures base == old(base)
    {
      hide AlignUp;
      if base == 0 {
        return 0;
      }
      var size := AlignUp(request, PAGE);
      a := FindFreeGap(size, hint);
      if a == 0 {
        return 0;
      }
      AppendOkIff(regions, Region(a, size, prot, name));
      TopInArena(nextHint, regions);
      RequestHeldIff(request);
      regions := regions + [Region(a, size, prot, name)];
      if a == nextHint {
        nextHint := Sum(a, size);
      }
    }

    /** The input: a request for 2^64 - 4096 bytes is granted in every state and recorded over everything else. */
    method MapNearlyAll(prot: nat, name: string) returns (a: nat)
      requires Valid() && base != 0
      modifies this
      ensures a != 0 && !Valid()
      ensures regions == old(regions) + [Region(a, TWO64 - PAGE, prot, name)]
    {
      hide AlignUp;
      NearlyAllIsWhole();
      a := Map(0, TWO64 - PAGE, prot, name);
    }

    /** Drops the first region that starts at the address. */
    method Unmap(a: nat) returns (found: bool)
      requires Valid()
      modifies this`regions
      ensures Valid()
      ensures found <==> exists i :: 0 <= i < |old(regions)| && old(regions)[i].base == a
      ensures !found ==> regions == old(regions)
      ensures found ==> exists i :: (0 <= i < |old(regions)| && old(regions)[i].base == a
                                     && (forall j :: 0 <= j < i ==> old(regions)[j].base != a)
                                     && regions == old(regions)[..i] + old(regions)[i + 1..])
    {
      for i := 0 to |regions|
        invariant forall j :: 0 <= j < i ==> regions[j].base != a
        invariant regions == old(regions)
      {
        if regions[i].base == a {
          regions := regions[..i] + regions[i + 1..];
          return true;
        }
      }
      return false;
    }

    /** Sets the protection of the region that holds the address; `hostOk` is what the host's mprotect answers. */
    method Protect(a: nat, prot: nat, hostOk: bool) returns (ok: bool)
      requires Valid()
      modifies this`regions
      ensures Valid()
      ensures ok <==> hostOk && exists i :: (0 <= i < |old(regions)|
                                             && old(regions)[i].base <= a < old(regions)[i].base + old(regions)[i].size)
      ensures !ok ==> regions == old(regions)
      ensures ok ==> exists i :: (0 <= i < |old(regions)|
                                  && old(regions)[i].base <= a < old(regions)[i].base + old(regions)[i].size
                                  && regions == old(regions)[i := old(regions)[i].(prot := prot)])
    {
      for i := 0 to |regions|
        invariant forall j :: 0 <= j < i ==> !Holds(regions[j], a)
        invariant regions == old(regions)
      {
        if Holds(regions[i], a) {
          if !hostOk {
            return false;
          }
          regions := regions[i := regions[i].(prot := prot)];
          return true;
        }
      }
      return false;
    }

    method Find(a: nat) returns (r: Option<Region>)
      requires Valid()
      ensures r.None? ==> forall q :: q in regions ==> !(q.base <= a < q.base + q.size)
      ensures r.Some? ==> r.value in regions && r.value.base <= a < r.value.base + r.value.size
      ensures r.Some? ==> forall q :: q in regions && q.base <= a < q.base + q.size ==> q == r.value
    {
      for i := 0 to |regions|
        invariant forall j :: 0 <= j < i ==> !Holds(regions[j], a)
      {
        if Holds(regions[i], a) {
          forall j | 0 <= j < |regions| && Holds(regions[j], a) ensures j == i {
            HolderUnique(regions, i, j, a);
          }
          return Some(regions[i]);
        }
      }
      return None;
    }
  }

  predicate Holds(r: Region, a: nat) {
    r.base <= a < End(r)
  }

  /** find is unambiguous: no address lies in two regions. */
  lemma HolderUnique(rs: seq<Region>, i: nat, j: nat, a: nat)
    requires RegionsOk(rs) && i < |rs| && j < |rs|
    requires rs[i].base <= a < rs[i].base + rs[i].size && rs[j].base <= a < rs[j].base + rs[j].size
    ensures i == j
  {
  }

  /** What a gap is: inside the arena, and no byte of it in any region that has bytes. */
  lemma FitsIff(rs: seq<Region>, a: nat, size: nat)
    requires size > 0 && forall r :: r in rs ==> r.size > 0
    ensures Fits(rs, a, size) <==>
            && GUEST_BASE <= a && a + size <= GUEST_BASE + GUEST_SIZE
            && forall r, x :: r in rs && a <= x < a + size ==> !Holds(r, x)
  {
    if forall r, x :: r in rs && a <= x < a + size ==> !Holds(r, x) {
      forall i | 0 <= i < |rs| ensures a + size <= rs[i].base || a >= End(rs[i]) {
        var r := rs[i];
        assert r in rs && !Holds(r, a) && (a <= r.base < a + size ==> !Holds(r, r.base));
      }
    }
  }

  lemma AppendOk(rs: seq<Region>, r: Region)
    requires RegionsOk(rs) && Fits(rs, r.base, r.size)
    ensures RegionsOk(rs + [r])
  {
  }

  /** Appending a region keeps the list sound exactly when the region fits. */
  lemma AppendOkIff(rs: seq<Region>, r: Region)
    requires RegionsOk(rs)
    ensures RegionsOk(rs + [r]) <==> Fits(rs, r.base, r.size)
  {
    var all := rs + [r];
    assert all[|rs|] == r;
    if RegionsOk(all) {
      forall i | 0 <= i < |rs| ensures r.base + r.size <= rs[i].base || r.base >= End(rs[i]) {
        assert Apart(all[i], all[|rs|]);
      }
    }
  }

  lemma PageIsPowerOfTwo()
    ensures IsPowerOfTwo(PAGE)
  {
    assert Pow2(4) == 16 && Pow2(8) == 256 && Pow2(12) == PAGE;
  }

  /** The rounded size holds the request exactly when rounding does not wrap. */
  lemma RequestHeldIff(request: nat)
    requires request < TWO64
    ensures AlignUp(request, PAGE) >= request <==> request <= TWO64 - PAGE
  {
    PageIsPowerOfTwo();
    hide AlignUp, IsPowerOfTwo;
    AlignUpIsLeastMultipleIff(request, PAGE);
  }

  lemma NearlyAllIsWhole()
    ensures AlignUp(TWO64 - PAGE, PAGE) == TWO64 - PAGE
  {
    PageIsPowerOfTwo();
    hide AlignUp, IsPowerOfTwo;
    AlignUpClosedForm(TWO64 - PAGE, PAGE);
  }
}
