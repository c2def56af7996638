/** malloc, calloc, realloc and free of libSceLibcInternal, with the free-list pop that heapFree's stored links are
    for. 64-bit wrap-around is written out. */
module LibcHeap {
  import opened Arith
  import opened Bytes
  import opened Bits
  import opened HeapLayout

  /** The block size a request of more than 8192 bytes should get. */
  function RoundUp16(n: nat): nat {
    (n + 15) / 16 * 16
  }

  lemma AlignUp16(n: nat)
    requires n < TWO64
    ensures AlignUp(n, 16) == if n + 15 < TWO64 then RoundUp16(n) else 0
  {
    assert Pow2(4) == 16;
    AlignUpClosedForm(n, 16);
  }

  /** The block size of a request once rounded, without wrap-around. */
  function Rounded(request: nat): nat {
    if request <= 8192 then SIZE_CLASSES[ClassOf(request)] else RoundUp16(request)
  }

  /** The smallest class that holds the request. */
  function ClassOf(request: nat): (c: nat)
    ensures request <= 8192 ==> c < NUM_CLASSES && request <= SIZE_CLASSES[c]
    ensures request <= 8192 ==> forall i :: 0 <= i < c ==> SIZE_CLASSES[i] < request
    ensures request > 8192 ==> c == LARGE
  {
    if request <= 16 then 0 else if request <= 32 then 1 else if request <= 64 then 2 else if request <= 128 then 3
    else if request <= 256 then 4 else if request <= 512 then 5 else if request <= 1024 then 6
    else if request <= 2048 then 7 else if request <= 4096 then 8 else if request <= 8192 then 9 else LARGE
  }

  method PickClass(size: nat) returns (cls: nat, rounded: nat)
    requires size < TWO64
    ensures cls == ClassOf(size)
    ensures rounded == if cls < NUM_CLASSES then SIZE_CLASSES[cls] else AlignUp(size, 16)
  {
    for i := 0 to NUM_CLASSES
      invariant forall j :: 0 <= j < i ==> SIZE_CLASSES[j] < size
    {
      if size <= SIZE_CLASSES[i] {
        return i, SIZE_CLASSES[i];
      }
    }
    assert SIZE_CLASSES[9] < size;
    return LARGE, AlignUp(size, 16);
  }

  /** A large request for which next + 16 + rounded leaves 64 bits: the bounds check is then made on a wrapped sum. */
  predicate Overflows(next: nat, request: nat) {
    request > 8192 && next + HEADER + RoundUp16(request) >= TWO64
  }

  /** The wrapped sum passes the check: always, except when rounding the request already gave 0 and not even a header is
      left at the end of the region. */
  predicate Wraps(next: nat, end: nat, request: nat) {
    Overflows(next, request) && (RoundUp16(request) < TWO64 || next + HEADER <= end)
  }

  /** The heap after a request that wraps: a block whose size field is what is left of the rounded size in 48 bits, and
      a bump pointer that has wrapped as well. */
  function WrappedBlock(s: State, request: nat): State
    requires request < TWO64
  {
    var rounded := AlignUp(request, 16);
    s.(headers := s.headers[s.next := Header(rounded % TWO48, LARGE, false)],
       next := (s.next + (HEADER + rounded) % TWO64) % TWO64, live := (s.live + rounded) % TWO64)
  }

  /** Where such a request leaves the bump pointer: 16 bytes on, with an empty block, if rounding gave 0; otherwise not
      beyond where it was, so that later blocks overlap blocks already handed out. */
  lemma WrappedNext(s: State, request: nat)
    requires request < TWO64 && s.next <= TWO48 && Overflows(s.next, request)
    ensures var t := WrappedBlock(s, request);
            if RoundUp16(request) >= TWO64 then t.next == s.next + HEADER && t.headers[s.next].size == 0
            else t.next == s.next + HEADER + RoundUp16(request) - TWO64 <= s.next
  {
    hide AlignUp, RoundUp16, Overflows;
    AlignUp16(request);
    RoundUpIs(request);
    var rounded := RoundUp16(request);
    assert s.next + HEADER + rounded >= TWO64 by { OverflowIs(s.next, request); }
    if rounded < TWO64 {
      SumWraps(s.next, rounded);
    }
  }

  lemma RoundUpIs(n: nat)
    ensures n <= RoundUp16(n) < n + 16 && RoundUp16(n) % 16 == 0
    ensures n + 15 < TWO64 <==> RoundUp16(n) < TWO64
  {
    assert RoundUp16(n) == (n + 15) / 16 * 16;
    assert TWO64 == 0x1000_0000_0000_0000 * 16;
  }

  lemma OverflowIs(next: nat, request: nat)
    requires Overflows(next, request)
    ensures next + HEADER + RoundUp16(request) >= TWO64
  {
  }

  /** The bump path's two wrapped sums make one. */
  lemma SumWraps(next: nat, rounded: nat)
    requires next <= TWO48 && rounded < TWO64 && next + HEADER + rounded >= TWO64
    ensures (next + (HEADER + rounded) % TWO64) % TWO64 == next + HEADER + rounded - TWO64
  {
    var sum := HEADER + rounded;
    if sum < TWO64 {
      DivModUnique(sum, TWO64, 0, sum);
      DivModUnique(next + sum, TWO64, 1, next + sum - TWO64);
    } else {
      DivModUnique(sum, TWO64, 1, sum - TWO64);
      DivModUnique(next + sum - TWO64, TWO64, 0, next + sum - TWO64);
    }
  }

  /** The request that takes the bump pointer back to block h: what is missing from the used part's end to 2^64. */
  function RequestBackTo(s: State, h: nat): int { TWO64 - HEADER - (s.next - h) }

  /** Every block can be reached that way: the sum wraps and the bump pointer is at the block again. */
  lemma WrapReturnsTo(s: State, order: seq<nat>, lists: seq<seq<nat>>, h: nat)
    requires Ok(s, order, lists) && h in s.headers
    ensures 8192 < RequestBackTo(s, h) < TWO64 && Wraps(s.next, s.base + s.size, RequestBackTo(s, h))
    ensures WrappedBlock(s, RequestBackTo(s, h)).next == h
  {
    hide AlignUp;
    BlockInside(s, order, h);
    NextAligned(s, order);
    var request := RequestBackTo(s, h);
    assert request % 16 == 0 && RoundUp16(request) == request by {
      assert TWO64 % 16 == 0;
    }
    AlignUp16(request);
    WrappedNext(s, request);
  }

  lemma NextAligned(s: State, order: seq<nat>)
    requires Tiles(s, order) && s.base % 16 == 0
    ensures s.next % 16 == 0
  {
    StartsAtOrAboveBase(s, order, |order|);
  }

  /** A request for 2^64 - 1 bytes with a header's room left gets a block of no bytes at all. */
  lemma HugeRequestGetsEmptyBlock(s: State)
    requires s.next + HEADER <= s.base + s.size <= TWO48
    ensures Wraps(s.next, s.base + s.size, TWO64 - 1)
    ensures WrappedBlock(s, TWO64 - 1) ==
            s.(headers := s.headers[s.next := Header(0, LARGE, false)], next := s.next + HEADER, live := s.live % TWO64)
  {
    AlignUp16(TWO64 - 1);
    hide AlignUp;
  }

  /** No free block of the request's class, and no room for a new one. */
  ghost predicate Exhausted(s: State, request: nat) {
    && (ClassOf(request) == LARGE ||
        forall h :: h in s.headers && s.headers[h].isFree ==> s.headers[h].sizeClass != ClassOf(request))
    && s.next + HEADER + Rounded(request) > s.base + s.size
  }

  /** What malloc promises for a request: null, with nothing changed, exactly when the heap is exhausted, and otherwise
      a block that holds the request. */
  ghost predicate Served(s: State, t: State, p: nat, request: nat) {
    if p == 0 then Exhausted(s, AtLeast1(request)) && t == s
    else p >= HEADER && !Exhausted(s, AtLeast1(request)) && Allocates(s, t, p - HEADER, AtLeast1(request))
  }

  /** Blocks stay where they are: no header but the new block's changes, and no size. */
  ghost predicate HeadersKept(s: State, t: State, p: nat) {
    forall g :: g in s.headers ==>
      g in t.headers && t.headers[g].size == s.headers[g].size && (p != g + HEADER ==> t.headers[g] == s.headers[g])
  }

  /** The free lists as stacks: a block on top of its class's, a class without its top, and whether there is one. */
  function With(lists: seq<seq<nat>>, c: nat, h: nat): seq<seq<nat>> {
    if c < |lists| then lists[c := [h] + lists[c]] else lists
  }

  function Without(lists: seq<seq<nat>>, c: nat): seq<seq<nat>>
    requires HasFree(lists, c)
  {
    lists[c := lists[c][1..]]
  }

  predicate HasFree(lists: seq<seq<nat>>, c: nat) { c < |lists| && lists[c] != [] }

  function AtLeast1(request: nat): nat {
    if request == 0 then 1 else request
  }

  /** The bump path's size and bounds check agree with unbounded arithmetic unless the request overflows; when it
      overflows, the check passes exactly for the requests that wrap, and the block then does not hold the request. */
  lemma BumpArithmetic(next: nat, end: nat, request: nat)
    requires 0 < request < TWO64 && next <= end <= TWO48
    ensures var cls := ClassOf(request);
            var rounded := if cls < NUM_CLASSES then SIZE_CLASSES[cls] else AlignUp(request, 16);
            var total := (HEADER + rounded) % TWO64;
            if Overflows(next, request)
            then next + HEADER + request > end && ((next + total) % TWO64 <= end <==> Wraps(next, end, request))
            else rounded == Rounded(request) && total == HEADER + rounded && (next + total) % TWO64 == next + total
  {
    if request > 8192 {
      AlignUp16(request);
      hide AlignUp;
      assert RoundUp16(request) < request + 16 && RoundUp16(request) % 16 == 0;
    }
  }

  class Heap {
    const base: nat
    const size: nat
    var next: nat
    var live: nat
    var allocs: nat
    var frees: nat
    var headers: map<nat, Header>
    var heads: seq<nat>
    var mem: seq<byte>
    ghost var order: seq<nat>
    ghost var lists: seq<seq<nat>>

    ghost function St(): State
      reads this
    {
      State(base, size, next, live, headers, heads, mem)
    }

    ghost predicate Valid()
      reads this
    {
      Ok(St(), order, lists)
    }

    /** p is a pointer the heap handed out and has not taken back. */
    ghost predicate LivePtr(p: nat)
      reads this
    {
      p >= HEADER && Live(St(), p - HEADER)
    }

    constructor (base: nat, size: nat)
      requires base > 0 && base % 16 == 0 && base + size <= TWO48
      ensures Valid() && this.base == base && this.size == size && next == base && headers == map[]
    {
      this.base, this.size := base, size;
      next, live, allocs, frees := base, 0, 0, 0;
      headers := map[];
      heads := seq(NUM_CLASSES, _ => 0);
      mem := seq(size, _ => 0 as byte);
      order := [];
      lists := seq(NUM_CLASSES, _ => []);
    }

    /** The reuse path of heapAlloc: take the first free block of a class off its list. */
    method Reuse(cls: nat) returns (p: nat)
      requires cls < |heads| && heads[cls] in headers
      requires base <= heads[cls] && End(headers, heads[cls]) <= base + |mem| && headers[heads[cls]].size >= 8
      modifies this`heads, this`headers, this`live, this`allocs
      ensures St() == Popped(old(St()), cls) && p == old(heads[cls]) + HEADER && allocs == old(allocs) + 1
    {
      var h := heads[cls];
      heads := heads[cls := LoadU64(mem, h + HEADER - base)];
      headers := headers[h := headers[h].(isFree := false)];
      live := live + headers[h].size;
      allocs := allocs + 1;
      p := h + HEADER;
    }

    /** The bump path of heapAlloc, with its 64-bit sums and the 48-bit size field. */
    method Bump(cls: nat, rounded: nat) returns (p: nat)
      requires rounded < TWO64
      modifies this`next, this`headers, this`live, this`allocs
      ensures var total := (HEADER + rounded) % TWO64;
              if (old(next) + total) % TWO64 > base + size
              then p == 0 && St() == old(St()) && allocs == old(allocs)
              else
                && p == old(next) + HEADER && allocs == old(allocs) + 1
                && next == (old(next) + total) % TWO64 && live == (old(live) + rounded) % TWO64
                && headers == old(headers)[old(next) := Header(rounded % TWO48, cls, false)]
    {
      var total := (HEADER + rounded) % TWO64;
      if (next + total) % TWO64 > base + size {
        return 0;
      }
      p := next + HEADER;
      headers := headers[next := Header(rounded % TWO48, cls, false)];
      next := (next + total) % TWO64;
      allocs := allocs + 1;
      live := (live + rounded) % TWO64;
    }

    method AllocReuse(cls: nat, request: nat) returns (p: nat)
      requires Valid() && request <= 8192 && cls == ClassOf(request) && heads[cls] != 0
      modifies this
      ensures Valid() && mem == old(mem) && p >= HEADER && HeadersKept(old(St()), St(), p)
      ensures Allocates(old(St()), St(), p - HEADER, request) && !Exhausted(old(St()), request)
      ensures cls < |old(lists)| && old(lists)[cls] != [] && p == old(lists)[cls][0] + HEADER
      ensures lists == old(lists)[cls := old(lists)[cls][1..]] && next == old(next)
    {
      hide Ok, Allocates, Exhausted;
      ghost var l := lists;
      ReuseFacts(St(), order, lists, cls, request);
      p := Reuse(cls);
      lists := l[cls := l[cls][1..]];
    }

    method AllocBump(cls: nat, rounded: nat, request: nat) returns (p: nat)
      requires Valid() && 0 < request < TWO64 && cls == ClassOf(request)
      requires rounded == if cls < NUM_CLASSES then SIZE_CLASSES[cls] else AlignUp(request, 16)
      modifies this
      ensures mem == old(mem) && lists == old(lists) && (p == 0 || p == old(next) + HEADER)
      ensures !Wraps(old(next), base + size, request) ==>
                && Valid() && HeadersKept(old(St()), St(), p)
                && (p == 0 <==> old(next) + HEADER + Rounded(request) > base + size)
                && (p == 0 ==> St() == old(St()))
                && (p != 0 ==> p >= HEADER && Allocates(old(St()), St(), p - HEADER, request))
      ensures Wraps(old(next), base + size, request) ==>
                && p == old(next) + HEADER && p + request > base + size
                && St() == WrappedBlock(old(St()), request)
    {
      hide Ok, Allocates, AlignUp, Wraps, Overflows, WrappedBlock, ClassOf, Rounded;
      ghost var s, o, l := St(), order, lists;
      RegionFacts(s, o, l);
      NextIsFree(s, o, l);
      BumpArithmetic(next, base + size, request);
      WrapsOnlyLarge(s.next, base + size, request);
      p := Bump(cls, rounded);
      if Overflows(s.next, request) {
        WrappedExactly(s, request);
      } else if p != 0 {
        BumpFacts(s, o, l, request);
        order := o + [s.next];
        BumpedExactly(s, St(), cls, rounded);
      }
    }

    /** Serves every request, except that one for which the 64-bit sum wraps gets a block that does not hold it and
        leaves the bump pointer wrapped. The block is the one of its class freed last, or the next one of the region if
        none is free. */
    method HeapAlloc(req: nat) returns (p: nat)
      requires Valid() && req < TWO64
      modifies this
      ensures mem == old(mem)
      ensures Served(old(St()), St(), p, req) <==> !Wraps(old(next), base + size, req)
      ensures !Wraps(old(next), base + size, req) ==> Valid() && HeadersKept(old(St()), St(), p)
      ensures Wraps(old(next), base + size, req) ==> p == old(next) + HEADER && St() == WrappedBlock(old(St()), req)
      ensures if HasFree(old(lists), ClassOf(AtLeast1(req)))
              then p == old(lists)[ClassOf(AtLeast1(req))][0] + HEADER && next == old(next)
                   && lists == Without(old(lists), ClassOf(AtLeast1(req)))
              else lists == old(lists) && (p == 0 || p == old(next) + HEADER)
    {
      hide Ok, Allocates, Exhausted, HeadersKept, AlignUp;
      RegionFacts(St(), order, lists);
      var request := if req == 0 then 1 else req;
      var cls, rounded := PickClass(request);
      ghost var s := St();
      if cls < NUM_CLASSES && heads[cls] != 0 {
        p := AllocReuse(cls, request);
      } else {
        NotReusable(St(), order, lists, request);
        p := AllocBump(cls, rounded, request);
        if Wraps(s.next, base + size, req) {
          TooSmall(s, St(), p, req);
        }
      }
    }

    /** A small block that is freed is what the next request of its class gets. */
    method FreeThenAlloc(p: nat, req: nat) returns (q: nat)
      requires Valid() && LivePtr(p) && req <= 8192 && headers[p - HEADER].sizeClass == ClassOf(AtLeast1(req))
      modifies this
      ensures q == p && Valid() && LivePtr(p) && next == old(next) && lists == old(lists)
      ensures headers[p - HEADER].size == old(headers)[p - HEADER].size
    {
      hide Ok, Exhausted, Allocates, Wraps, Releases;
      SmallNeverWraps(next, base + size, req);
      RegionFacts(St(), order, lists);
      HeapFree(p);
      ghost var s := St();
      q := HeapAlloc(req);
      AllocatedSize(s, St(), q - HEADER, AtLeast1(req));
      assert lists == old(lists);
    }

    /** The input: with a block h live, malloc of RequestBackTo(h) and a small malloc after it hand out h again. */
    method HandOutTwice(h: nat, n: nat) returns (p: nat)
      requires Valid() && Live(St(), h) && 0 < n <= 8192 && Rounded(n) <= headers[h].size && heads[ClassOf(n)] == 0
      modifies this
      ensures p == h + HEADER && h in headers && headers[h] == Header(Rounded(n), ClassOf(n), false)
    {
      hide Ok, AlignUp, WrappedBlock, Served, HeadersKept;
      RegionFacts(St(), order, lists);
      WrapReturnsTo(St(), order, lists, h);
      InRegion(St(), order, lists, h);
      var _ := HeapAlloc(TWO64 - HEADER - (next - h));
      var cls, rounded := PickClass(n);
      p := Bump(cls, rounded);
    }

    /** heapFree on a live block. */
    method PushFree(h: nat)
      requires h in headers && base <= h && End(headers, h) <= base + |mem| && headers[h].size >= 8
      requires headers[h].sizeClass < NUM_CLASSES ==> headers[h].sizeClass < |heads|
      modifies this`headers, this`live, this`frees, this`mem, this`heads
      ensures St() == Freed(old(St()), h) && frees == old(frees) + 1
    {
      var hd := headers[h];
      headers := headers[h := hd.(isFree := true)];
      live := if hd.size < live then live - hd.size else 0;
      frees := frees + 1;
      if hd.sizeClass < NUM_CLASSES {
        mem := Store(mem, h + HEADER - base, LE(heads[hd.sizeClass], 8));
        heads := heads[hd.sizeClass := h];
      }
    }

    method FreeLive(h: nat)
      requires Valid() && Live(St(), h)
      modifies this
      ensures Valid() && Releases(old(St()), St(), h) && next == old(next) && frees == old(frees) + 1
      ensures lists == With(old(lists), old(headers)[h].sizeClass, h) && HeadersKept(old(St()), St(), h + HEADER)
    {
      hide Ok, Releases;
      ghost var s, l := St(), lists;
      RegionFacts(s, order, l);
      FreeOk(s, order, l, h);
      FreeReleases(s, order, l, h);
      PushFree(h);
      var c := headers[h].sizeClass;
      lists := if c < NUM_CLASSES then l[c := [h] + l[c]] else l;
    }

    /** A null, unknown or already free pointer is ignored. */
    method HeapFree(p: nat)
      requires Valid()
      modifies this
      ensures Valid() && next == old(next)
      ensures if old(LivePtr(p)) then Releases(old(St()), St(), p - HEADER) && frees == old(frees) + 1
              else St() == old(St()) && frees == old(frees)
      ensures HeadersKept(old(St()), St(), p)
      ensures lists == if old(LivePtr(p)) then With(old(lists), old(headers)[p - HEADER].sizeClass, p - HEADER)
                       else old(lists)
    {
      if p < HEADER || p - HEADER !in headers || headers[p - HEADER].isFree {
        return;
      }
      FreeLive(p - HEADER);
    }

    /** memset and memcpy into the start of a live block. */
    method WritePayload(h: nat, bs: seq<byte>)
      requires Valid() && Live(St(), h) && |bs| <= headers[h].size
      modifies this`mem
      ensures Valid() && Overwrites(old(St()), St(), h, bs)
    {
      hide Ok, Overwrites;
      ghost var s := St();
      WriteOk(s, order, lists, h, 0, bs);
      WriteOverwrites(s, order, lists, h, bs);
      mem := Store(mem, h + HEADER - base, bs);
      assert St() == Written(s, h, 0, bs);
    }

    /** Null on a product that leaves 64 bits; otherwise malloc of the product, zeroed. `overrun`: the block came from a
        sum that wrapped, and the zeroing would leave the region. */
    method Calloc(count: nat, each: nat) returns (p: nat, overrun: bool)
      requires Valid() && count < TWO64 && each < TWO64
      modifies this
      ensures overrun <==> count * each < TWO64 && Wraps(old(next), base + size, count * each)
      ensures overrun ==> p == old(next) + HEADER && St() == WrappedBlock(old(St()), count * each)
      ensures !overrun ==> Valid()
      ensures !overrun ==> (p == 0 <==> count * each >= TWO64 || Exhausted(old(St()), AtLeast1(count * each)))
      ensures !overrun && p == 0 ==> St() == old(St())
      ensures !overrun && p != 0 ==> LivePtr(p) && Allocates(old(St()), St(), p - HEADER, count * each)
      ensures !overrun && p != 0 ==> Zeros(count * each) <= Payload(St(), p - HEADER)
    {
      hide Ok, Allocates, Exhausted, Overwrites, HeadersKept;
      var total := (count * each) % TWO64;
      CallocCheck(count, each);
      if count != 0 && total / count != each {
        return 0, false;
      }
      ghost var s := St();
      RegionFacts(s, order, lists);
      p := HeapAlloc(total);
      overrun := false;
      if p != 0 {
        overrun := p + total > base + size;
        ghost var t := St();
        if Wraps(s.next, base + size, total) {
          BumpArithmetic(s.next, base + size, total);
        } else {
          AllocatedSize(s, t, p - HEADER, AtLeast1(total));
        }
        if !overrun {
          AllocatedSize(s, t, p - HEADER, AtLeast1(total));
          WritePayload(p - HEADER, Zeros(total));
          AllocateThenWrite(s, t, St(), p - HEADER, AtLeast1(total), Zeros(total));
          AllocatesLess(s, St(), p - HEADER, total, AtLeast1(total));
        }
      }
    }

    /** realloc: malloc of a null pointer, free on size 0, the same block while it is big enough, else a move. A pointer
        to a block already freed is copied from but not freed again. `wrapped`: the new block came from a sum that
        wrapped; `overrun`: and the copy would leave the region. */
    method Realloc(p: nat, newSize: nat) returns (np: nat, wrapped: bool, overrun: bool)
      requires Valid() && newSize < TWO64
      modifies this
      ensures wrapped <==>
                && Wraps(old(next), base + size, newSize)
                && (p == 0 || (p >= HEADER && p - HEADER in old(headers) && old(headers)[p - HEADER].size < newSize))
      ensures overrun <==> wrapped && p != 0 && np + old(headers)[p - HEADER].size > base + size
      ensures wrapped ==>
                && np == old(next) + HEADER
                && St() == if p == 0 then WrappedBlock(old(St()), newSize)
                           else WrappedMove(old(St()), p - HEADER, newSize)
      ensures !wrapped ==> Valid()
      ensures !wrapped && p == 0 ==> Served(old(St()), St(), np, newSize)
      ensures p != 0 && newSize == 0 ==>
                np == 0 && if old(LivePtr(p)) then Releases(old(St()), St(), p - HEADER) else St() == old(St())
      ensures p >= HEADER && p - HEADER in old(headers) && 0 < newSize <= old(headers)[p - HEADER].size ==>
                np == p && St() == old(St())
      ensures !wrapped && p >= HEADER && p - HEADER in old(headers) && newSize > old(headers)[p - HEADER].size ==>
                if np == 0 then Exhausted(old(St()), newSize) && St() == old(St())
                else np >= HEADER &&
                     if old(LivePtr(p)) then Moves(old(St()), St(), p - HEADER, np - HEADER, newSize)
                     else Allocates(old(St()), St(), np - HEADER, newSize)
                          && Payload(old(St()), p - HEADER) <= Payload(St(), np - HEADER)
      ensures p != 0 && !(p >= HEADER && p - HEADER in old(headers)) ==> np == 0 && St() == old(St())
    {
      hide Ok, Allocates, Exhausted, Overwrites, Releases, Moves, HeadersKept;
      wrapped, overrun := false, false;
      if p == 0 {
        wrapped := Wraps(next, base + size, newSize);
        np := HeapAlloc(newSize);
        return;
      }
      if newSize == 0 {
        HeapFree(p);
        return 0, false, false;
      }
      if p < HEADER || p - HEADER !in headers {
        return 0, false, false;
      }
      var h := p - HEADER;
      if headers[h].size >= newSize {
        return p, false, false;
      }
      wrapped := Wraps(next, base + size, newSize);
      if wrapped {
        np, overrun := MoveWrapped(h, newSize);
      } else {
        np := MoveTo(h, newSize);
      }
    }

    /** realloc's move when the allocation wraps. */
    method MoveWrapped(h: nat, newSize: nat) returns (np: nat, overrun: bool)
      requires Valid() && h in headers && newSize < TWO64 && Wraps(next, base + size, newSize)
      modifies this
      ensures np == old(next) + HEADER && St() == WrappedMove(old(St()), h, newSize)
      ensures overrun <==> np + old(headers)[h].size > base + size
    {
      hide Ok, Served, HeadersKept;
      ghost var s := St();
      InRegion(s, order, lists, h);
      NextIsFree(s, order, lists);
      WrappedKeepsBlock(s, h, newSize);
      np := HeapAlloc(newSize);
      overrun := np + headers[h].size > base + size;
      if !overrun {
        CopyAndFree(h, np);
      }
    }

    /** memcpy and free. */
    method CopyAndFree(h: nat, np: nat)
      requires CanCopy(St(), h, np)
      modifies this`headers, this`live, this`frees, this`mem, this`heads
      ensures St() == CopiedAndFreed(old(St()), h, np)
    {
      mem := Store(mem, np - base, Load(mem, h + HEADER - base, headers[h].size));
      if !headers[h].isFree {
        PushFree(h);
      }
    }

    method MoveTo(h: nat, newSize: nat) returns (np: nat)
      requires Valid() && h in headers && headers[h].size < newSize < TWO64 && !Wraps(next, base + size, newSize)
      modifies this
      ensures Valid()
      ensures if np == 0 then Exhausted(old(St()), newSize) && St() == old(St())
              else np >= HEADER &&
                   if Live(old(St()), h) then Moves(old(St()), St(), h, np - HEADER, newSize)
                   else Allocates(old(St()), St(), np - HEADER, newSize)
                        && Payload(old(St()), h) <= Payload(St(), np - HEADER)
    {
      hide Ok, Allocates, Exhausted, Overwrites, Releases, Moves, HeadersKept;
      ghost var s := St();
      np := HeapAlloc(newSize);
      if np == 0 {
        return;
      }
      ghost var t := St();
      AllocatedSize(s, t, np - HEADER, newSize);
      KeptPayload(s, t, np, newSize, h);
      PayloadLength(s, order, lists, t, h);
      WritePayload(np - HEADER, Load(mem, h + HEADER - base, headers[h].size));
      ghost var u := St();
      AllocateThenWrite(s, t, u, np - HEADER, newSize, Payload(s, h));
      StillLive(s, t, u, np - HEADER, newSize, h, Payload(s, h));
      HeapFree(h + HEADER);
      if Live(s, h) {
        AllocateWriteRelease(s, t, u, St(), h, np - HEADER, newSize);
      }
    }
  }

  /** Block h and its copy at np lie in the region. */
  predicate CanCopy(s: State, h: nat, np: nat) {
    && h in s.headers && s.base <= h && End(s.headers, h) <= s.base + |s.mem| && s.headers[h].size >= 8
    && (s.headers[h].sizeClass < NUM_CLASSES ==> s.headers[h].sizeClass < |s.heads|)
    && s.base <= np && np + s.headers[h].size <= s.base + |s.mem|
  }

  /** Block h copied to np and then freed if it was live. */
  function CopiedAndFreed(s: State, h: nat, np: nat): State
    requires CanCopy(s, h, np)
  {
    var t := s.(mem := Store(s.mem, np - s.base, Load(s.mem, h + HEADER - s.base, s.headers[h].size)));
    if s.headers[h].isFree then t else Freed(t, h)
  }

  /** The heap after a realloc of block h whose new block came from a sum that wrapped; as it was before the copy where
      the copy would leave the region. */
  function WrappedMove(s: State, h: nat, newSize: nat): State
    requires newSize < TWO64
  {
    var t, np := WrappedBlock(s, newSize), s.next + HEADER;
    if CanCopy(t, h, np) then CopiedAndFreed(t, h, np) else t
  }

  lemma WrappedKeepsBlock(s: State, h: nat, newSize: nat)
    requires newSize < TWO64 && h in s.headers && s.next != h
    ensures var t := WrappedBlock(s, newSize); h in t.headers && t.headers[h] == s.headers[h]
    ensures WrappedBlock(s, newSize).mem == s.mem && WrappedBlock(s, newSize).heads == s.heads
    ensures WrappedBlock(s, newSize).base == s.base
  {
  }

  lemma InRegion(s: State, order: seq<nat>, lists: seq<seq<nat>>, h: nat)
    requires Ok(s, order, lists) && h in s.headers
    ensures s.base <= h && End(s.headers, h) <= s.next <= s.base + s.size && |s.mem| == s.size
    ensures s.headers[h].size >= 16 && h != s.next && h > 0
    ensures s.headers[h].sizeClass < NUM_CLASSES ==> s.headers[h].sizeClass < |s.heads|
  {
    BlockInside(s, order, h);
  }

  /** The division check of calloc detects exactly the products that do not fit in 64 bits. */
  lemma CallocCheck(count: nat, size: nat)
    requires count < TWO64 && size < TWO64
    ensures (count != 0 && (count * size) % TWO64 / count != size) <==> count * size >= TWO64
    ensures count * size < TWO64 ==> (count * size) % TWO64 == count * size
  {
    var prod := count * size;
    var total := prod % TWO64;
    if count != 0 {
      if prod < TWO64 {
        ExactQuotient(total, count, size);
      } else {
        QuotientTooSmall(total, count, size, prod);
      }
    }
  }

  lemma ExactQuotient(prod: nat, count: nat, size: nat)
    requires count != 0 && prod == count * size
    ensures prod / count == size
  {
    assert prod == size * count;
    MulMod(size, count);
  }

  lemma QuotientTooSmall(total: nat, count: nat, size: nat, prod: nat)
    requires count != 0 && prod == count * size && total < prod
    ensures total / count != size
  {
    assert total == total / count * count + total % count;
    assert prod == size * count;
  }

  lemma AllocatedSize(s: State, t: State, h: nat, request: nat)
    requires Allocates(s, t, h, request)
    ensures Live(t, h) && request <= t.headers[h].size && h + HEADER + request <= s.base + s.size
  {
  }

  lemma AllocatesLess(s: State, t: State, h: nat, less: nat, request: nat)
    requires Allocates(s, t, h, request) && less <= request
    ensures Allocates(s, t, h, less) && Live(t, h)
  {
  }

  /** A block smaller than the request is not the one the request gets, and keeps its bytes. */
  lemma KeptPayload(s: State, t: State, p: nat, request: nat, h: nat)
    requires HeadersKept(s, t, p) && p >= HEADER && Allocates(s, t, p - HEADER, request)
    requires h in s.headers && s.headers[h].size < request && t.mem == s.mem && t.base == s.base
    ensures p - HEADER != h && h in t.headers && t.headers[h] == s.headers[h] && Payload(t, h) == Payload(s, h)
  {
  }

  lemma StillLive(s: State, t: State, u: State, k: nat, request: nat, h: nat, bs: seq<byte>)
    requires Allocates(s, t, k, request) && Overwrites(t, u, k, bs) && h != k
    ensures Live(u, h) <==> Live(s, h)
  {
  }

  lemma PayloadLength(s: State, order: seq<nat>, lists: seq<seq<nat>>, t: State, h: nat)
    requires Ok(t, order, lists) && h in t.headers && Payload(t, h) == Payload(s, h)
    ensures t.base <= h && End(t.headers, h) <= t.base + |t.mem|
    ensures Load(t.mem, h + HEADER - t.base, t.headers[h].size) == Payload(s, h)
  {
    BlockInside(t, order, h);
  }

  /** A block that reaches past the region holds no such request. */
  lemma TooSmall(s: State, t: State, p: nat, req: nat)
    requires p >= HEADER && p + req > s.base + s.size && req > 0
    ensures !Served(s, t, p, req)
  {
  }

  lemma NextIsFree(s: State, order: seq<nat>, lists: seq<seq<nat>>)
    requires Ok(s, order, lists)
    ensures s.next !in s.headers
  {
    NextIsFresh(s, order);
  }

  lemma RegionFacts(s: State, order: seq<nat>, lists: seq<seq<nat>>)
    requires Ok(s, order, lists)
    ensures s.next <= s.base + s.size <= TWO48 && |lists| == NUM_CLASSES == |s.heads|
  {
  }

  lemma ReuseFacts(s: State, order: seq<nat>, lists: seq<seq<nat>>, c: nat, request: nat)
    requires Ok(s, order, lists) && request <= 8192 && c == ClassOf(request) && s.heads[c] != 0
    ensures |lists| == NUM_CLASSES == |s.heads|
    ensures var h := s.heads[c];
            && h in s.headers && s.base <= h && End(s.headers, h) <= s.base + |s.mem| && s.headers[h].size >= 8
            && lists[c] != [] && Ok(Popped(s, c), order, lists[c := lists[c][1..]])
            && Allocates(s, Popped(s, c), h, request) && !Exhausted(s, request) && lists[c][0] == h
  {
    PopOk(s, order, lists, c);
    PopAllocates(s, order, lists, c, request);
    ListHeadsLive(s, order, lists, c);
    BlockInside(s, order, s.heads[c]);
  }

  lemma NotReusable(s: State, order: seq<nat>, lists: seq<seq<nat>>, request: nat)
    requires Ok(s, order, lists) && (request <= 8192 ==> s.heads[ClassOf(request)] == 0)
    ensures Exhausted(s, request) <==> s.next + HEADER + Rounded(request) > s.base + s.size
    ensures !HasFree(lists, ClassOf(request))
  {
    if request <= 8192 {
      var c := ClassOf(request);
      assert FreeListOk(s, lists[c], s.heads[c], c);
      if lists[c] != [] {
        assert lists[c][0] in lists[c] && lists[c][0] in s.headers;
        BlockInside(s, order, lists[c][0]);
      }
    }
  }

  lemma BumpFacts(s: State, order: seq<nat>, lists: seq<seq<nat>>, request: nat)
    requires Ok(s, order, lists) && request > 0
    requires s.next + HEADER + Rounded(request) <= s.base + s.size
    ensures var t := Bumped(s, ClassOf(request), Rounded(request));
            && Ok(t, order + [s.next], lists) && Allocates(s, t, s.next, request)
    ensures s.live + Rounded(request) < TWO64
  {
    var c, n := ClassOf(request), Rounded(request);
    assert HeaderOk(Header(n, c, false));
    BumpOk(s, order, lists, c, n);
    BumpAllocates(s, order, lists, c, n, request);
    LiveFits(s, order, lists);
  }

  lemma SmallNeverWraps(next: nat, end: nat, request: nat)
    requires request <= 8192
    ensures !Wraps(next, end, request)
  {
  }

  lemma WrapsOnlyLarge(next: nat, end: nat, request: nat)
    ensures Wraps(next, end, request) ==> Overflows(next, request)
    ensures Overflows(next, request) ==> ClassOf(request) == LARGE && Rounded(request) == RoundUp16(request) >= request
    ensures request + 15 >= RoundUp16(request)
  {
  }

  lemma WrappedExactly(s: State, request: nat)
    requires request < TWO64
    ensures var rounded := AlignUp(request, 16);
            WrappedBlock(s, request) ==
            s.(headers := s.headers[s.next := Header(rounded % TWO48, LARGE, false)],
               next := (s.next + (HEADER + rounded) % TWO64) % TWO64, live := (s.live + rounded) % TWO64)
  {
    hide AlignUp;
  }

  lemma BumpedExactly(s: State, t: State, c: nat, n: nat)
    requires s.next + HEADER + n <= TWO48 && s.live + n < TWO64
    requires t == s.(next := (s.next + (HEADER + n) % TWO64) % TWO64, live := (s.live + n) % TWO64,
                     headers := s.headers[s.next := Header(n % TWO48, c, false)])
    ensures t == Bumped(s, c, n)
  {
  }

  lemma LiveFits(s: State, order: seq<nat>, lists: seq<seq<nat>>)
    requires Ok(s, order, lists)
    ensures s.live <= s.next - s.base
  {
    LiveSumFits(s, order, |order|);
    assert order[..|order|] == order;
  }

  /** The live bytes of the first i blocks fit in the space those blocks take. */
  lemma {:induction false} LiveSumFits(s: State, order: seq<nat>, i: nat)
    requires Tiles(s, order) && i <= |order|
    ensures s.base + LiveSum(s.headers, order[..i]) <= StartOf(s.base, s.headers, order, i)
  {
    if i > 0 {
      LiveSumFits(s, order, i - 1);
      assert order[..i][..i - 1] == order[..i - 1];
      assert order[i - 1] == StartOf(s.base, s.headers, order, i - 1) && order[i - 1] in s.headers;
    }
  }
}
