/** The layout invariant of the libc heap: header+payload blocks that tile [base, next), and per-class free lists
    threaded through the first word of the free payloads. */
module HeapLayout {
  import opened Bytes
  import opened Chains

  const HEADER: nat := 16
  const NUM_CLASSES: nat := 10
  const LARGE: nat := 255
  const SIZE_CLASSES: seq<nat> := [16, 32, 64, 128, 256, 512, 1024, 2048, 4096, 8192]

  datatype Header = Header(size: nat, sizeClass: nat, isFree: bool)

  /** `mem` is the region [base, base + size), so address a is mem[a - base]. `headers` is keyed by header address. */
  datatype State = State(base: nat, size: nat, next: nat, live: nat, headers: map<nat, Header>, heads: seq<nat>,
                         mem: seq<byte>)

  predicate HeaderOk(h: Header) {
    && h.size > 0 && h.size % 16 == 0
    && (if h.sizeClass < NUM_CLASSES then h.size == SIZE_CLASSES[h.sizeClass]
        else h.sizeClass == LARGE && h.size > 8192)
  }

  function End(headers: map<nat, Header>, h: nat): nat
    requires h in headers
  {
    h + HEADER + headers[h].size
  }

  /** Where the i-th block starts: at the base, or where its predecessor ends. */
  function StartOf(base: nat, headers: map<nat, Header>, order: seq<nat>, i: nat): nat
    requires i <= |order|
  {
    if i == 0 || order[i - 1] !in headers then base else End(headers, order[i - 1])
  }

  ghost predicate Tiles(s: State, order: seq<nat>) {
    && (forall h :: h in s.headers <==> h in order)
    && (forall h :: h in s.headers ==> HeaderOk(s.headers[h]))
    && (forall i {:trigger StartOf(s.base, s.headers, order, i)} ::
          0 <= i < |order| ==> order[i] == StartOf(s.base, s.headers, order, i))
    && s.next == StartOf(s.base, s.headers, order, |order|)
  }

  /** The link word in the payload of block h. */
  function Link(s: State, h: nat): nat {
    var off := h + HEADER - s.base;
    if 0 <= off && off + 8 <= |s.mem| then LoadU64(s.mem, off) else 0
  }

  ghost predicate FreeListOk(s: State, list: seq<nat>, head: nat, c: nat) {
    && head == (if list == [] then 0 else list[0])
    && (forall h :: h in list <==> h in s.headers && s.headers[h].isFree && s.headers[h].sizeClass == c)
    && (forall i, j :: 0 <= i < j < |list| ==> list[i] != list[j])
    && (forall i {:trigger After(list, i)} :: 0 <= i < |list| ==> Link(s, list[i]) == After(list, i))
  }

  function LiveSum(headers: map<nat, Header>, order: seq<nat>): nat {
    if order == [] then 0
    else
      var h := order[|order| - 1];
      LiveSum(headers, order[..|order| - 1]) + if h in headers && !headers[h].isFree then headers[h].size else 0
  }

  ghost predicate Ok(s: State, order: seq<nat>, lists: seq<seq<nat>>) {
    && s.base > 0 && s.base % 16 == 0 && s.base + s.size <= TWO48 && |s.mem| == s.size
    && |s.heads| == NUM_CLASSES == |lists|
    && Tiles(s, order) && s.next <= s.base + s.size
    && (forall c :: 0 <= c < NUM_CLASSES ==> FreeListOk(s, lists[c], s.heads[c], c))
    && s.live == LiveSum(s.headers, order)
  }

  /** The part of the invariant that reads no memory. */
  ghost predicate TiledRegion(s: State, order: seq<nat>) {
    s.base > 0 && s.base % 16 == 0 && |s.mem| == s.size && Tiles(s, order) && s.next <= s.base + s.size
  }

  predicate Live(s: State, h: nat) {
    h in s.headers && !s.headers[h].isFree
  }

  /** The payload of block h, which a well-formed heap keeps inside its region. */
  function Payload(s: State, h: nat): seq<byte> {
    if h in s.headers && s.base <= h && End(s.headers, h) <= s.base + |s.mem|
    then Load(s.mem, h + HEADER - s.base, s.headers[h].size) else []
  }

  // ---- what the operations promise ----

  /** Every live block other than h stays live with the same size and the same bytes, and none becomes live. */
  ghost predicate OthersKept(s: State, t: State, h: nat) {
    forall g: nat :: g != h ==>
      && (Live(t, g) <==> Live(s, g))
      && (Live(s, g) ==> t.headers[g].size == s.headers[g].size && Payload(t, g) == Payload(s, g))
  }

  /** Block h, not live before, now serves the request: aligned, big enough, inside the region. */
  ghost predicate Allocates(s: State, t: State, h: nat, request: nat) {
    && !Live(s, h) && Live(t, h) && request <= t.headers[h].size
    && s.base <= h && h % 16 == 0 && End(t.headers, h) <= s.base + s.size
    && t.live == s.live + t.headers[h].size
    && OthersKept(s, t, h)
  }

  ghost predicate Releases(s: State, t: State, h: nat) {
    && Live(s, h) && !Live(t, h) && s.live >= s.headers[h].size && t.live == s.live - s.headers[h].size
    && OthersKept(s, t, h)
  }

  /** The live block h now starts with `bs`; nothing else changed. */
  ghost predicate Overwrites(s: State, t: State, h: nat, bs: seq<byte>) {
    && Live(s, h) && t.headers == s.headers && t.live == s.live && |bs| <= s.headers[h].size == |Payload(s, h)|
    && Payload(t, h) == bs + Payload(s, h)[|bs|..]
    && OthersKept(s, t, h)
  }

  /** Block h is gone and block k, not live before, holds at least `request` bytes that start with h's old bytes. */
  ghost predicate Moves(s: State, t: State, h: nat, k: nat, request: nat) {
    && h != k && Live(s, h) && !Live(s, k) && !Live(t, h) && Live(t, k) && request <= t.headers[k].size
    && s.base <= k && k % 16 == 0 && End(t.headers, k) <= s.base + s.size
    && Payload(s, h) <= Payload(t, k)
    && t.live + s.headers[h].size == s.live + t.headers[k].size
    && (forall g: nat :: g != h && g != k ==>
          && (Live(t, g) <==> Live(s, g))
          && (Live(s, g) ==> t.headers[g].size == s.headers[g].size && Payload(t, g) == Payload(s, g)))
  }

  lemma AllocateThenWrite(s: State, t: State, u: State, h: nat, request: nat, bs: seq<byte>)
    requires Allocates(s, t, h, request) && Overwrites(t, u, h, bs)
    ensures Allocates(s, u, h, request) && bs <= Payload(u, h)
  {
  }

  lemma AllocateWriteRelease(s: State, t: State, u: State, v: State, h: nat, k: nat, request: nat)
    requires Live(s, h) && Allocates(s, t, k, request)
    requires Overwrites(t, u, k, Payload(s, h)) && Releases(u, v, h)
    ensures Moves(s, v, h, k, request)
  {
    assert Live(t, h) && Live(u, h) && Live(u, k);
  }

  // ---- consequences of tiling ----

  lemma {:induction false} TilesOrdered(s: State, order: seq<nat>, i: nat, j: nat)
    requires Tiles(s, order) && i < j <= |order|
    ensures order[i] in s.headers && s.base <= order[i]
    ensures End(s.headers, order[i]) <= StartOf(s.base, s.headers, order, j)
  {
    StartsAtOrAboveBase(s, order, i);
    assert order[j - 1] in s.headers && order[i] in s.headers;
    if i < j - 1 {
      TilesOrdered(s, order, i, j - 1);
      assert order[j - 1] == StartOf(s.base, s.headers, order, j - 1);
    }
  }

  lemma {:induction false} StartsAtOrAboveBase(s: State, order: seq<nat>, i: nat)
    requires Tiles(s, order) && i <= |order|
    ensures s.base <= StartOf(s.base, s.headers, order, i)
    ensures s.base % 16 == 0 ==> StartOf(s.base, s.headers, order, i) % 16 == 0
  {
    if i > 0 {
      StartsAtOrAboveBase(s, order, i - 1);
      assert order[i - 1] in s.headers && order[i - 1] == StartOf(s.base, s.headers, order, i - 1);
      assert HeaderOk(s.headers[order[i - 1]]);
    }
  }

  lemma SizeAtLeast16(h: Header)
    requires HeaderOk(h)
    ensures h.size >= 16
  {
  }

  /** Every block lies in [base, next), 16-aligned. */
  lemma BlockInside(s: State, order: seq<nat>, h: nat)
    requires Tiles(s, order) && s.base % 16 == 0 && h in s.headers
    ensures s.base <= h && h % 16 == 0 && End(s.headers, h) <= s.next && s.headers[h].size >= 16
  {
    SizeAtLeast16(s.headers[h]);
    var i :| 0 <= i < |order| && order[i] == h;
    StartsAtOrAboveBase(s, order, i);
    TilesOrdered(s, order, i, |order|);
  }

  /** Two blocks never overlap. */
  lemma BlocksDisjoint(s: State, order: seq<nat>, g: nat, h: nat)
    requires Tiles(s, order) && g in s.headers && h in s.headers && g != h
    ensures End(s.headers, g) <= h || End(s.headers, h) <= g
  {
    var i :| 0 <= i < |order| && order[i] == g;
    var j :| 0 <= j < |order| && order[j] == h;
    if i < j {
      TilesOrdered(s, order, i, j);
      assert order[j] == StartOf(s.base, s.headers, order, j);
    } else {
      TilesOrdered(s, order, j, i);
      assert order[i] == StartOf(s.base, s.headers, order, i);
    }
  }

  lemma OrderDistinct(s: State, order: seq<nat>, i: nat, j: nat)
    requires Tiles(s, order) && i < j < |order|
    ensures order[i] < order[j]
  {
    TilesOrdered(s, order, i, j);
    assert order[j] == StartOf(s.base, s.headers, order, j);
  }

  lemma NextIsFresh(s: State, order: seq<nat>)
    requires Tiles(s, order) && s.base % 16 == 0
    ensures s.next !in s.headers && s.base <= s.next && s.next % 16 == 0
  {
    StartsAtOrAboveBase(s, order, |order|);
    if s.next in s.headers {
      BlockInside(s, order, s.next);
    }
  }

  /** The tiling covers [base, next) without gaps: every address in it belongs to a block. */
  lemma {:induction false} TilingCovers(s: State, order: seq<nat>, i: nat, a: nat)
    requires Tiles(s, order) && i <= |order| && s.base <= a < StartOf(s.base, s.headers, order, i)
    ensures exists h :: h in s.headers && h <= a < End(s.headers, h)
  {
    if i > 0 {
      var h := order[i - 1];
      assert h in s.headers && h == StartOf(s.base, s.headers, order, i - 1);
      if a < h {
        TilingCovers(s, order, i - 1, a);
      }
    }
  }

  predicate OnList(lists: seq<seq<nat>>, h: nat) {
    exists c :: 0 <= c < |lists| && h in lists[c]
  }

  /** A freed large block: no list takes it, and it is never reused. */
  predicate Retired(s: State, h: nat) {
    h in s.headers && s.headers[h].isFree && s.headers[h].sizeClass == LARGE
  }

  /** Every block is live, on the free list of its own class and no other, or retired: exactly one of the three. */
  lemma BlockHasOneRole(s: State, order: seq<nat>, lists: seq<seq<nat>>, h: nat)
    requires Ok(s, order, lists) && h in s.headers
    ensures Live(s, h) || OnList(lists, h) || Retired(s, h)
    ensures !(Live(s, h) && OnList(lists, h)) && !(Live(s, h) && Retired(s, h)) && !(OnList(lists, h) && Retired(s, h))
    ensures forall c :: 0 <= c < NUM_CLASSES && h in lists[c] ==> c == s.headers[h].sizeClass
  {
    var hd := s.headers[h];
    assert HeaderOk(hd);
    forall c | 0 <= c < NUM_CLASSES ensures h in lists[c] <==> hd.isFree && hd.sizeClass == c {
      assert FreeListOk(s, lists[c], s.heads[c], c);
    }
    if hd.isFree && hd.sizeClass < NUM_CLASSES {
      assert h in lists[hd.sizeClass];
    }
  }

  /** The blocks partition [base, next): every address in it belongs to exactly one. */
  lemma BlocksPartition(s: State, order: seq<nat>, a: nat)
    requires TiledRegion(s, order) && s.base <= a < s.next
    ensures exists h :: h in s.headers && h <= a < End(s.headers, h)
    ensures forall g, h :: g in s.headers && h in s.headers && g <= a < End(s.headers, g) && h <= a < End(s.headers, h)
              ==> g == h
  {
    TilingCovers(s, order, |order|, a);
    forall g, h | g in s.headers && h in s.headers && g <= a < End(s.headers, g) && h <= a < End(s.headers, h)
      ensures g == h
    {
      if g != h {
        BlocksDisjoint(s, order, g, h);
      }
    }
  }

  // ---- the live-byte count ----

  lemma {:induction false} LiveSumFrame(headers: map<nat, Header>, order: seq<nat>, h: nat, hd: Header)
    requires h !in order
    ensures LiveSum(headers[h := hd], order) == LiveSum(headers, order)
  {
    if order != [] {
      var n := |order| - 1;
      assert order[n] in order && order[n] != h;
      assert forall x :: x in order[..n] ==> x in order;
      LiveSumFrame(headers, order[..n], h, hd);
    }
  }

  /** Flipping the free flag of one block moves the live count by its size. */
  lemma {:induction false} LiveSumFlip(headers: map<nat, Header>, order: seq<nat>, h: nat)
    requires h in headers && headers[h].isFree && h in order
    requires forall i, j :: 0 <= i < j < |order| ==> order[i] != order[j]
    ensures LiveSum(headers[h := headers[h].(isFree := false)], order) == LiveSum(headers, order) + headers[h].size
  {
    var n := |order| - 1;
    var used := headers[h].(isFree := false);
    if order[n] == h {
      assert h !in order[..n];
      LiveSumFrame(headers, order[..n], h, used);
    } else {
      assert h in order[..n];
      LiveSumFlip(headers, order[..n], h);
    }
  }

  // ---- the transitions of the allocator ----

  /** heapAlloc's reuse path: pop the head of list c, following the link heapFree stored in its payload. */
  function Popped(s: State, c: nat): State
    requires c < |s.heads| && s.heads[c] in s.headers
  {
    var h := s.heads[c];
    s.(heads := s.heads[c := Link(s, h)], headers := s.headers[h := s.headers[h].(isFree := false)],
       live := s.live + s.headers[h].size)
  }

  /** heapAlloc's bump path. */
  function Bumped(s: State, c: nat, size: nat): State {
    s.(headers := s.headers[s.next := Header(size, c, false)], next := s.next + HEADER + size, live := s.live + size)
  }

  /** heapFree on a live block. */
  function Freed(s: State, h: nat): State
    requires h in s.headers && (s.headers[h].sizeClass < NUM_CLASSES ==> s.headers[h].sizeClass < |s.heads|)
    requires s.base <= h + HEADER && h + HEADER - s.base + 8 <= |s.mem|
  {
    var hd := s.headers[h];
    var t := s.(headers := s.headers[h := hd.(isFree := true)],
                live := if hd.size < s.live then s.live - hd.size else 0);
    if hd.sizeClass < NUM_CLASSES then
      t.(mem := Store(s.mem, h + HEADER - s.base, LE(s.heads[hd.sizeClass], 8)), heads := s.heads[hd.sizeClass := h])
    else t
  }

  /** A guest write, or the allocator's memset and memcpy, inside one payload. */
  function Written(s: State, h: nat, off: nat, bs: seq<byte>): State
    requires s.base <= h && h + HEADER + off + |bs| <= s.base + |s.mem|
  {
    s.(mem := Store(s.mem, h + HEADER - s.base + off, bs))
  }

  lemma FlagKeepsTiles(s: State, order: seq<nat>, h: nat, free: bool)
    requires Tiles(s, order) && h in s.headers
    ensures Tiles(s.(headers := s.headers[h := s.headers[h].(isFree := free)]), order)
  {
    var t := s.(headers := s.headers[h := s.headers[h].(isFree := free)]);
    forall i | 0 <= i <= |order| ensures StartOf(t.base, t.headers, order, i) == StartOf(s.base, s.headers, order, i) {
    }
  }

  lemma ListHeadsLive(s: State, order: seq<nat>, lists: seq<seq<nat>>, c: nat)
    requires Ok(s, order, lists) && c < NUM_CLASSES && s.heads[c] != 0
    ensures s.heads[c] in s.headers && s.headers[s.heads[c]].isFree && s.headers[s.heads[c]].sizeClass == c
    ensures lists[c] != [] && lists[c][0] == s.heads[c]
  {
    assert FreeListOk(s, lists[c], s.heads[c], c);
    assert lists[c][0] in lists[c];
  }

  lemma PopOk(s: State, order: seq<nat>, lists: seq<seq<nat>>, c: nat)
    requires Ok(s, order, lists) && c < NUM_CLASSES && s.heads[c] != 0
    ensures s.heads[c] in s.headers && lists[c] != []
    ensures Ok(Popped(s, c), order, lists[c := lists[c][1..]])
  {
    ListHeadsLive(s, order, lists, c);
    var h := s.heads[c];
    var t := Popped(s, c);
    FlagKeepsTiles(s, order, h, false);
    forall i, j | 0 <= i < j < |order| ensures order[i] != order[j] { OrderDistinct(s, order, i, j); }
    LiveSumFlip(s.headers, order, h);
    forall k | 0 <= k < NUM_CLASSES ensures FreeListOk(t, lists[c := lists[c][1..]][k], t.heads[k], k) {
      assert FreeListOk(s, lists[k], s.heads[k], k);
      if k == c {
        PoppedListOk(s, lists[c], c);
      } else {
        assert forall x :: x in lists[k] ==> x != h;
        assert forall x :: Link(t, x) == Link(s, x);
      }
    }
  }

  lemma PoppedListOk(s: State, list: seq<nat>, c: nat)
    requires c < |s.heads| && FreeListOk(s, list, s.heads[c], c) && list != [] && s.heads[c] in s.headers
    ensures FreeListOk(Popped(s, c), list[1..], Popped(s, c).heads[c], c)
  {
    var t := Popped(s, c);
    var rest := list[1..];
    assert Link(s, list[0]) == After(list, 0);
    forall i | 0 <= i < |rest| ensures Link(t, rest[i]) == After(rest, i) {
      assert Link(s, list[i + 1]) == After(list, i + 1);
    }
    forall x ensures x in rest <==> x in list && x != list[0] {
      if x in list && x != list[0] {
        var i :| 0 <= i < |list| && list[i] == x;
        assert rest[i - 1] == x;
      }
    }
  }

  lemma BumpOk(s: State, order: seq<nat>, lists: seq<seq<nat>>, c: nat, size: nat)
    requires Ok(s, order, lists) && HeaderOk(Header(size, c, false))
    requires s.next + HEADER + size <= s.base + s.size
    ensures Ok(Bumped(s, c, size), order + [s.next], lists)
    ensures s.next !in s.headers
  {
    NextIsFresh(s, order);
    var t := Bumped(s, c, size);
    var order' := order + [s.next];
    forall i | 0 <= i < |order'| ensures order'[i] == StartOf(t.base, t.headers, order', i) {
      assert StartOf(t.base, t.headers, order', i) == StartOf(s.base, s.headers, order, i);
    }
    assert order'[..|order|] == order;
    LiveSumFrame(s.headers, order, s.next, Header(size, c, false));
    forall k | 0 <= k < NUM_CLASSES ensures FreeListOk(t, lists[k], t.heads[k], k) {
      assert FreeListOk(s, lists[k], s.heads[k], k);
      assert forall x :: Link(t, x) == Link(s, x);
    }
  }

  /** Two blocks of the region that do not overlap. */
  predicate Apart(s: State, h: nat, x: nat) {
    && h in s.headers && x in s.headers && s.base <= h && s.base <= x
    && End(s.headers, h) <= s.base + |s.mem| && End(s.headers, x) <= s.base + |s.mem|
    && (End(s.headers, h) <= x || End(s.headers, x) <= h)
    && s.headers[h].size >= 16 && s.headers[x].size >= 16
  }

  lemma BlocksApart(s: State, order: seq<nat>, h: nat, x: nat)
    requires TiledRegion(s, order) && h in s.headers && x in s.headers && x != h
    ensures Apart(s, h, x)
  {
    BlockInside(s, order, h);
    BlockInside(s, order, x);
    BlocksDisjoint(s, order, h, x);
  }

  /** Bytes written inside the payload of h leave the link and the payload of every other block alone. */
  lemma LinkFrame(s: State, h: nat, off: nat, bs: seq<byte>, x: nat)
    requires Apart(s, h, x) && off + |bs| <= s.headers[h].size
    ensures Link(Written(s, h, off, bs), x) == Link(s, x)
  {
    LoadU64Frame(s.mem, h + HEADER - s.base + off, bs, x + HEADER - s.base);
  }

  lemma PayloadFrame(s: State, h: nat, off: nat, bs: seq<byte>, x: nat)
    requires Apart(s, h, x) && off + |bs| <= s.headers[h].size
    ensures Payload(Written(s, h, off, bs), x) == Payload(s, x)
  {
    StoreFrame(s.mem, h + HEADER - s.base + off, bs, x + HEADER - s.base, s.headers[x].size);
  }

  lemma WriteOk(s: State, order: seq<nat>, lists: seq<seq<nat>>, h: nat, off: nat, bs: seq<byte>)
    requires Ok(s, order, lists) && Live(s, h) && off + |bs| <= s.headers[h].size
    ensures s.base <= h && h + HEADER + off + |bs| <= s.base + |s.mem|
    ensures Ok(Written(s, h, off, bs), order, lists)
  {
    BlockInside(s, order, h);
    var t := Written(s, h, off, bs);
    assert Tiles(t, order) by {
      assert forall i :: 0 <= i <= |order| ==>
               StartOf(t.base, t.headers, order, i) == StartOf(s.base, s.headers, order, i);
    }
    forall k | 0 <= k < NUM_CLASSES ensures FreeListOk(t, lists[k], t.heads[k], k) {
      assert FreeListOk(s, lists[k], s.heads[k], k);
      forall i | 0 <= i < |lists[k]| ensures Link(t, lists[k][i]) == After(lists[k], i) {
        assert lists[k][i] in lists[k];
        BlocksApart(s, order, h, lists[k][i]);
        LinkFrame(s, h, off, bs, lists[k][i]);
      }
    }
  }

  lemma FreeOk(s: State, order: seq<nat>, lists: seq<seq<nat>>, h: nat)
    requires Ok(s, order, lists) && Live(s, h)
    ensures s.base <= h && End(s.headers, h) <= s.base + |s.mem| && s.headers[h].size >= 16
    ensures var c := s.headers[h].sizeClass;
            Ok(Freed(s, h), order, if c < NUM_CLASSES then lists[c := [h] + lists[c]] else lists)
    ensures Freed(s, h).live == s.live - s.headers[h].size
  {
    BlockInside(s, order, h);
    assert HeaderOk(s.headers[h]);
    var hd := s.headers[h];
    var c := hd.sizeClass;
    var t := Freed(s, h);
    FlagKeepsTiles(s, order, h, true);
    assert Tiles(t, order) by {
      var u := s.(headers := s.headers[h := hd.(isFree := true)]);
      assert forall i :: 0 <= i <= |order| ==>
               StartOf(t.base, t.headers, order, i) == StartOf(u.base, u.headers, order, i);
    }
    forall i, j | 0 <= i < j < |order| ensures order[i] != order[j] { OrderDistinct(s, order, i, j); }
    LiveSumFlip(t.headers, order, h);
    assert t.headers[h := t.headers[h].(isFree := false)] == s.headers;
    var lists' := if c < NUM_CLASSES then lists[c := [h] + lists[c]] else lists;
    forall k | 0 <= k < NUM_CLASSES ensures FreeListOk(t, lists'[k], t.heads[k], k) {
      FreedListOk(s, order, lists, h, k);
    }
  }

  lemma FreedListOk(s: State, order: seq<nat>, lists: seq<seq<nat>>, h: nat, k: nat)
    requires Ok(s, order, lists) && Live(s, h) && k < NUM_CLASSES
    ensures s.base <= h && End(s.headers, h) <= s.base + |s.mem| && s.headers[h].size >= 16
    ensures var c := s.headers[h].sizeClass;
            FreeListOk(Freed(s, h), if c == k then [h] + lists[k] else lists[k], Freed(s, h).heads[k], k)
  {
    BlockInside(s, order, h);
    var c := s.headers[h].sizeClass;
    var t := Freed(s, h);
    assert FreeListOk(s, lists[k], s.heads[k], k);
    forall x | x in lists[k] ensures Link(t, x) == Link(s, x) && x != h {
      BlocksApart(s, order, h, x);
      FreedLinkFrame(s, h, x);
    }
    if c == k {
      HeadIsWord(s, order, lists, k);
      LoadStoredU64(s.mem, h + HEADER - s.base, s.heads[k]);
      PushedListOk(s, t, lists[k], h, k);
    } else {
      SameListOk(s, t, lists[k], h, k);
    }
  }

  lemma FreedLinkFrame(s: State, h: nat, x: nat)
    requires Apart(s, h, x) && |s.heads| == NUM_CLASSES
    ensures Link(Freed(s, h), x) == Link(s, x)
  {
    hide LE, LoadU64;
    var c := s.headers[h].sizeClass;
    if c < NUM_CLASSES {
      LinkFrame(s, h, 0, LE(s.heads[c], 8), x);
    }
  }

  lemma PushedListOk(s: State, t: State, list: seq<nat>, h: nat, k: nat)
    requires k < |s.heads| && FreeListOk(s, list, s.heads[k], k) && h != 0 && Live(s, h)
    requires s.headers[h].sizeClass == k && t.headers == s.headers[h := s.headers[h].(isFree := true)]
    requires Link(t, h) == s.heads[k] && forall x :: x in list ==> Link(t, x) == Link(s, x)
    ensures FreeListOk(t, [h] + list, h, k)
  {
    var list' := [h] + list;
    forall i | 0 <= i < |list'| ensures Link(t, list'[i]) == After(list', i) {
      if i > 0 {
        assert list'[i] == list[i - 1] && list[i - 1] in list;
        assert After(list', i) == After(list, i - 1);
      }
    }
  }

  lemma SameListOk(s: State, t: State, list: seq<nat>, h: nat, k: nat)
    requires k < |s.heads| && FreeListOk(s, list, s.heads[k], k) && Live(s, h)
    requires s.headers[h].sizeClass != k && t.headers == s.headers[h := s.headers[h].(isFree := true)]
    requires forall x :: x in list ==> Link(t, x) == Link(s, x)
    ensures FreeListOk(t, list, s.heads[k], k)
  {
    forall i | 0 <= i < |list| ensures Link(t, list[i]) == After(list, i) {
      assert list[i] in list;
    }
  }

  lemma HeadIsWord(s: State, order: seq<nat>, lists: seq<seq<nat>>, k: nat)
    requires Ok(s, order, lists) && k < NUM_CLASSES
    ensures s.heads[k] < TWO64
  {
    if s.heads[k] != 0 {
      ListHeadsLive(s, order, lists, k);
      BlockInside(s, order, s.heads[k]);
    }
  }

  // ---- the promises hold ----

  lemma PopAllocates(s: State, order: seq<nat>, lists: seq<seq<nat>>, c: nat, request: nat)
    requires Ok(s, order, lists) && c < NUM_CLASSES && s.heads[c] != 0 && request <= SIZE_CLASSES[c]
    ensures s.heads[c] in s.headers && Allocates(s, Popped(s, c), s.heads[c], request)
  {
    ListHeadsLive(s, order, lists, c);
    BlockInside(s, order, s.heads[c]);
    assert HeaderOk(s.headers[s.heads[c]]);
  }

  lemma BumpAllocates(s: State, order: seq<nat>, lists: seq<seq<nat>>, c: nat, size: nat, request: nat)
    requires Ok(s, order, lists) && request <= size && s.next + HEADER + size <= s.base + s.size
    ensures Allocates(s, Bumped(s, c, size), s.next, request)
  {
    hide FreeListOk, LiveSum, Tiles, Load;
    NextIsFresh(s, order);
  }

  lemma FreeReleases(s: State, order: seq<nat>, lists: seq<seq<nat>>, h: nat)
    requires Ok(s, order, lists) && Live(s, h)
    ensures s.base <= h && End(s.headers, h) <= s.base + |s.mem| && s.headers[h].size >= 16
    ensures s.headers[h].sizeClass < NUM_CLASSES ==> s.headers[h].sizeClass < |s.heads|
    ensures Releases(s, Freed(s, h), h)
  {
    BlockInside(s, order, h);
    LiveSumBound(s.headers, order, h);
    forall g: nat | g != h && Live(s, g) ensures Payload(Freed(s, h), g) == Payload(s, g) {
      BlocksApart(s, order, h, g);
      FreedPayloadFrame(s, h, g);
    }
  }

  lemma FreedPayloadFrame(s: State, h: nat, g: nat)
    requires Apart(s, h, g) && |s.heads| == NUM_CLASSES
    ensures Payload(Freed(s, h), g) == Payload(s, g)
  {
    hide LE, Load, Store;
    var c := s.headers[h].sizeClass;
    if c < NUM_CLASSES {
      PayloadFrame(s, h, 0, LE(s.heads[c], 8), g);
    }
  }

  lemma {:induction false} LiveSumBound(headers: map<nat, Header>, order: seq<nat>, h: nat)
    requires h in headers && !headers[h].isFree && h in order
    ensures headers[h].size <= LiveSum(headers, order)
  {
    var n := |order| - 1;
    if order[n] != h {
      assert h in order[..n];
      LiveSumBound(headers, order[..n], h);
    }
  }

  lemma WriteOverwrites(s: State, order: seq<nat>, lists: seq<seq<nat>>, h: nat, bs: seq<byte>)
    requires Ok(s, order, lists) && Live(s, h) && |bs| <= s.headers[h].size
    ensures s.base <= h && h + HEADER + |bs| <= s.base + |s.mem|
    ensures Overwrites(s, Written(s, h, 0, bs), h, bs)
  {
    BlockInside(s, order, h);
    var t := Written(s, h, 0, bs);
    forall g: nat | g != h && Live(s, g) ensures Payload(t, g) == Payload(s, g) {
      BlocksApart(s, order, h, g);
      PayloadFrame(s, h, 0, bs, g);
    }
    var off, n := h + HEADER - s.base, s.headers[h].size;
    assert t.mem[off..off + |bs|] == bs;
    assert Load(t.mem, off, n) == bs + Load(s.mem, off, n)[|bs|..];
  }
}
