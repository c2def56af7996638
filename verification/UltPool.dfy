/** The lock-free block pool of SceUlt: the CAS loops of sceUltPoolAlloc and sceUltPoolFree run by any number of
    threads over a free list whose links live in the first word of each free block. */
module UltPool {
  import opened Arith
  import opened Chains

  /** Program points of the two loops. `cur` is the head value the thread works with, `next` the link it read. */
  datatype Thread =
    | Idle
    | AllocLoad
    | AllocTest(cur: nat)
    | AllocCas(cur: nat, next: nat)
    | AllocClear(block: nat)
    | FreeLoad(block: nat)
    | FreeLink(block: nat, cur: nat)
    | FreeCas(block: nat, cur: nat)

  /** `links` is the first word of every block of the pool, whoever owns the block; `held` the blocks the guest was
      given and has not given back; `stack` is history: the free blocks in the order a sequential stack keeps them. */
  datatype Pool = Pool(blocks: set<nat>, head: nat, links: map<nat, nat>, held: set<nat>, threads: seq<Thread>,
                       stack: seq<nat>)

  datatype Action =
    | CallAlloc(t: nat)
    | CallFree(t: nat, block: nat)
    | Step(t: nat)
    | GuestWrites(block: nat, word: nat)

  /** A guest frees blocks it was given, and writes only into those. */
  predicate Enabled(p: Pool, a: Action) {
    match a
    case CallAlloc(t) => t < |p.threads| && p.threads[t].Idle?
    case CallFree(t, b) => t < |p.threads| && p.threads[t].Idle? && b in p.held
    case Step(t) =>
      && t < |p.threads| && !p.threads[t].Idle?
      && (TouchesBlock(p.threads[t]) ==> Touched(p.threads[t]) in p.links)
    case GuestWrites(b, _) => b in p.held && b in p.links
  }

  /** The thread's next instruction reads or writes the first word of a block. */
  predicate TouchesBlock(th: Thread) {
    (th.AllocTest? && th.cur != 0) || th.AllocClear? || th.FreeLink?
  }

  function Touched(th: Thread): nat
    requires TouchesBlock(th)
  {
    if th.AllocTest? then th.cur else th.block
  }

  predicate CasSucceeds(p: Pool, th: Thread) {
    (th.AllocCas? || th.FreeCas?) && th.cur == p.head
  }

  function ThreadAfter(p: Pool, th: Thread): Thread
    requires TouchesBlock(th) ==> Touched(th) in p.links
  {
    match th
    case Idle => Idle
    case AllocLoad => AllocTest(p.head)
    case AllocTest(cur) => if cur == 0 then Idle else AllocCas(cur, p.links[cur])
    case AllocCas(cur, next) => if cur == p.head then AllocClear(cur) else AllocTest(p.head)
    case AllocClear(_) => Idle
    case FreeLoad(b) => FreeLink(b, p.head)
    case FreeLink(b, cur) => FreeCas(b, cur)
    case FreeCas(b, cur) => if cur == p.head then Idle else FreeLink(b, p.head)
  }

  function Apply(p: Pool, a: Action): Pool
    requires Enabled(p, a)
  {
    match a
    case CallAlloc(t) => p.(threads := p.threads[t := AllocLoad])
    case CallFree(t, b) => p.(threads := p.threads[t := FreeLoad(b)], held := p.held - {b})
    case GuestWrites(b, w) => p.(links := p.links[b := w])
    case Step(t) =>
      var th := p.threads[t];
      p.(threads := p.threads[t := ThreadAfter(p, th)],
         head := if !CasSucceeds(p, th) then p.head else if th.AllocCas? then th.next else th.block,
         links := if th.FreeLink? then p.links[th.block := th.cur]
                  else if th.AllocClear? then p.links[th.block := 0] else p.links,
         held := if th.AllocClear? then p.held + {th.block} else p.held,
         stack := if !CasSucceeds(p, th) then p.stack
                  else if th.FreeCas? then [th.block] + p.stack
                  else if p.stack == [] then [] else p.stack[1..])
  }

  // ---- what the list must be ----

  /** The null-terminated chain from `head` through `links` visits exactly the blocks of `c`, in that order. */
  ghost predicate IsChain(head: nat, links: map<nat, nat>, c: seq<nat>) {
    && (forall i :: 0 <= i < |c| ==> c[i] in links && c[i] != 0)
    && head == (if c == [] then 0 else c[0])
    && (forall i :: 0 <= i < |c| ==> links[c[i]] == After(c, i))
  }

  ghost predicate Distinct(c: seq<nat>) {
    forall i, j :: 0 <= i < j < |c| ==> c[i] != c[j]
  }

  /** The block a thread has taken off the list, or is about to put back on it. */
  predicate Carries(th: Thread, b: nat) {
    match th
    case AllocClear(c) => c == b
    case FreeLoad(c) => c == b
    case FreeLink(c, _) => c == b
    case FreeCas(c, _) => c == b
    case _ => false
  }

  ghost predicate Carried(p: Pool, b: nat) {
    exists t :: 0 <= t < |p.threads| && Carries(p.threads[t], b)
  }

  /** Every block is free, held by the guest, or in transit inside one call: exactly one of the three. */
  ghost predicate Partition(p: Pool) {
    && (forall b :: b in p.blocks <==> b in p.stack || b in p.held || Carried(p, b))
    && (forall b :: b in p.held ==> b !in p.stack && !Carried(p, b))
    && (forall b :: b in p.stack ==> !Carried(p, b))
    && Exclusive(p)
  }

  /** No block is in transit twice. */
  ghost predicate Exclusive(p: Pool) {
    forall t, u :: 0 <= t < u < |p.threads| ==> forall b :: Carries(p.threads[t], b) ==> !Carries(p.threads[u], b)
  }

  /** A pending pop whose head is still free has read that block's current link. */
  predicate LinkFresh(p: Pool, th: Thread) {
    th.AllocCas? && th.cur in p.stack && th.cur in p.links ==> th.next == p.links[th.cur]
  }

  ghost predicate ThreadOk(p: Pool, th: Thread) {
    && (th.AllocTest? && th.cur != 0 ==> th.cur in p.blocks)
    && (th.AllocCas? ==> th.cur in p.blocks)
    && (th.FreeCas? ==> th.block in p.links && p.links[th.block] == th.cur)
  }

  /** `c` is the free list: a distinct null-terminated chain, and the pool is partitioned around it. */
  ghost predicate Valid(p: Pool) {
    && p.links.Keys == p.blocks && 0 !in p.blocks
    && IsChain(p.head, p.links, p.stack) && Distinct(p.stack)
    && Partition(p)
    && (forall t :: 0 <= t < |p.threads| ==> ThreadOk(p, p.threads[t]))
  }

  /** The pool is well formed for some order of its free blocks, whatever the history says. */
  ghost predicate Sound(p: Pool) {
    exists c :: Valid(p.(stack := c))
  }

  ghost predicate AllFresh(p: Pool) {
    forall t :: 0 <= t < |p.threads| ==> LinkFresh(p, p.threads[t])
  }

  /** An alloc whose CAS succeeds although the link it read is no longer the head's link. */
  predicate StalePop(p: Pool, a: Action) {
    && a.Step? && a.t < |p.threads| && p.threads[a.t].AllocCas? && CasSucceeds(p, p.threads[a.t])
    && p.threads[a.t].cur in p.links && p.threads[a.t].next != p.links[p.threads[a.t].cur]
  }

  /** A block goes back on the list between some alloc's read of its link and that alloc's CAS. */
  ghost predicate Reuses(p: Pool, a: Action) {
    && a.Step? && a.t < |p.threads| && p.threads[a.t].FreeCas? && CasSucceeds(p, p.threads[a.t])
    && exists u :: 0 <= u < |p.threads| && p.threads[u].AllocCas? && p.threads[u].cur == p.threads[a.t].block
  }

  // ---- one step ----

  lemma SingleCarrier(p: Pool, t: nat, u: nat, b: nat)
    requires Partition(p) && t < |p.threads| && u < |p.threads| && t != u && Carries(p.threads[t], b)
    ensures !Carries(p.threads[u], b) && b !in p.held && b !in p.stack && b in p.blocks
  {
    assert Carried(p, b);
  }

  lemma ThreadOkKept(p: Pool, a: Action, u: nat)
    requires Valid(p) && Enabled(p, a) && u < |p.threads|
    ensures ThreadOk(Apply(p, a), Apply(p, a).threads[u])
  {
    var th := p.threads[u];
    assert ThreadOk(p, th);
    if th.FreeCas? {
      assert Carried(p, th.block);
      if a.Step? && a.t != u {
        SingleCarrier(p, u, a.t, th.block);
      }
    }
    if p.stack != [] {
      assert p.head == p.stack[0] && p.stack[0] in p.links;
    }
  }

  lemma ChainPush(links: map<nat, nat>, c: seq<nat>, b: nat, head: nat)
    requires IsChain(head, links, c) && Distinct(c)
    requires b in links && b != 0 && b !in c && links[b] == head
    ensures IsChain(b, links, [b] + c) && Distinct([b] + c)
  {
    var d := [b] + c;
    forall i | 0 <= i < |d| ensures d[i] in links && d[i] != 0 && links[d[i]] == After(d, i) {
      if i > 0 {
        assert d[i] == c[i - 1] && links[c[i - 1]] == After(c, i - 1);
      }
      if i + 1 < |d| {
        assert d[i + 1] == c[i];
      }
    }
  }

  lemma ChainPop(links: map<nat, nat>, c: seq<nat>, head: nat)
    requires IsChain(head, links, c) && c != []
    ensures IsChain(links[c[0]], links, c[1..])
    ensures Distinct(c) ==> Distinct(c[1..])
  {
    var d := c[1..];
    forall i | 0 <= i < |d| ensures d[i] in links && d[i] != 0 && links[d[i]] == After(d, i) {
      assert d[i] == c[i + 1] && links[c[i + 1]] == After(c, i + 1);
    }
    assert links[c[0]] == After(c, 0);
  }

  lemma ChainFrame(head: nat, links: map<nat, nat>, c: seq<nat>, b: nat, w: nat)
    requires IsChain(head, links, c) && b !in c
    ensures IsChain(head, links[b := w], c)
  {
  }

  lemma ChainKept(p: Pool, a: Action)
    requires Valid(p) && Enabled(p, a) && !StalePop(p, a)
    ensures var q := Apply(p, a); IsChain(q.head, q.links, q.stack) && Distinct(q.stack)
  {
    match a
    case Step(t) =>
      var th := p.threads[t];
      assert ThreadOk(p, th);
      if th.FreeLink? || th.AllocClear? || th.FreeCas? {
        assert Carries(th, th.block) && Carried(p, th.block);
      }
      if th.FreeLink? {
        ChainFrame(p.head, p.links, p.stack, th.block, th.cur);
      } else if th.AllocClear? {
        ChainFrame(p.head, p.links, p.stack, th.block, 0);
      } else if th.FreeCas? && CasSucceeds(p, th) {
        ChainPush(p.links, p.stack, th.block, p.head);
      } else if th.AllocCas? && CasSucceeds(p, th) {
        PopTakesTop(p, t);
        ChainPop(p.links, p.stack, p.head);
      }
    case GuestWrites(b, w) =>
      ChainFrame(p.head, p.links, p.stack, b, w);
    case _ =>
  }

  /** What the step does to the holder of one block. */
  lemma CarriesAfter(p: Pool, t: nat, b: nat)
    requires Valid(p) && Enabled(p, Step(t))
    ensures var th := p.threads[t];
            Carries(ThreadAfter(p, th), b) <==>
              (Carries(th, b) && !th.AllocClear? && !(th.FreeCas? && CasSucceeds(p, th)))
              || (th.AllocCas? && CasSucceeds(p, th) && th.cur == b)
  {
  }

  lemma PopTakesTop(p: Pool, t: nat)
    requires Valid(p) && t < |p.threads| && p.threads[t].AllocCas? && CasSucceeds(p, p.threads[t])
    ensures p.stack != [] && p.threads[t].cur == p.stack[0]
  {
    assert ThreadOk(p, p.threads[t]);
  }

  /** A thread other than t carries the block. */
  ghost predicate Elsewhere(p: Pool, t: nat, b: nat) {
    exists u :: 0 <= u < |p.threads| && u != t && Carries(p.threads[u], b)
  }

  lemma ElsewhereSame(p: Pool, q: Pool, t: nat, b: nat)
    requires |q.threads| == |p.threads| && forall u :: 0 <= u < |p.threads| && u != t ==> q.threads[u] == p.threads[u]
    ensures Elsewhere(q, t, b) <==> Elsewhere(p, t, b)
  {
    if u :| 0 <= u < |p.threads| && u != t && Carries(p.threads[u], b) {
      assert Carries(q.threads[u], b);
    }
  }

  lemma NotElsewhere(p: Pool, t: nat, b: nat)
    requires Exclusive(p) && t < |p.threads| && Carries(p.threads[t], b)
    ensures !Elsewhere(p, t, b)
  {
  }

  /** A step of thread t keeps blocks from being in transit twice if what it takes was not in transit. */
  lemma ExclusiveAfter(p: Pool, q: Pool, t: nat)
    requires Exclusive(p) && t < |p.threads| == |q.threads|
    requires forall u :: 0 <= u < |p.threads| && u != t ==> q.threads[u] == p.threads[u]
    requires forall b :: Carries(q.threads[t], b) ==> Carries(p.threads[t], b) || !Elsewhere(p, t, b)
    ensures Exclusive(q)
  {
    forall b, u | Carries(q.threads[t], b) && 0 <= u < |p.threads| && u != t ensures !Carries(q.threads[u], b) {
      assert q.threads[u] == p.threads[u];
    }
  }

  lemma CarriedSplit(p: Pool, t: nat, b: nat)
    requires t < |p.threads|
    ensures Carried(p, b) <==> Carries(p.threads[t], b) || Elsewhere(p, t, b)
  {
  }

  /** What the step does to the blocks in transit. */
  lemma CarriedStep(p: Pool, t: nat, b: nat)
    requires Valid(p) && Enabled(p, Step(t))
    ensures var th := p.threads[t];
            Carried(Apply(p, Step(t)), b) <==>
            if th.AllocClear? || (th.FreeCas? && CasSucceeds(p, th)) then Carried(p, b) && b != th.block
            else Carried(p, b) || (th.AllocCas? && CasSucceeds(p, th) && b == th.cur)
  {
    hide Elsewhere, Carried, Exclusive, IsChain, Distinct, ThreadOk;
    var q := Apply(p, Step(t));
    CarriedSplit(p, t, b);
    CarriedSplit(q, t, b);
    ElsewhereSame(p, q, t, b);
    CarriesAfter(p, t, b);
    if Carries(p.threads[t], b) {
      NotElsewhere(p, t, b);
    }
  }

  lemma ExclusiveStep(p: Pool, t: nat)
    requires Valid(p) && Enabled(p, Step(t))
    ensures Exclusive(Apply(p, Step(t)))
  {
    hide Elsewhere, Carried, Exclusive, IsChain, Distinct, ThreadOk;
    var q, th := Apply(p, Step(t)), p.threads[t];
    if th.AllocCas? && CasSucceeds(p, th) {
      PopTakesTop(p, t);
    }
    forall b | Carries(q.threads[t], b) ensures Carries(th, b) || !Elsewhere(p, t, b) {
      CarriesAfter(p, t, b);
      CarriedSplit(p, t, b);
    }
    ExclusiveAfter(p, q, t);
  }

  lemma PartitionStep(p: Pool, t: nat)
    requires Valid(p) && Enabled(p, Step(t))
    ensures Partition(Apply(p, Step(t)))
  {
    hide Carried, Exclusive, IsChain, ThreadOk, ThreadAfter;
    var q, th := Apply(p, Step(t)), p.threads[t];
    if th.AllocCas? && CasSucceeds(p, th) {
      PopTakesTop(p, t);
      TopTaken(p.stack);
    }
    if th.AllocClear? || th.FreeCas? {
      CarriesOwn(p, t);
    }
    forall b {
      CarriedStep(p, t, b);
    }
    ExclusiveStep(p, t);
  }

  lemma TopTaken(c: seq<nat>)
    requires c != [] && Distinct(c)
    ensures forall b :: b in c <==> b == c[0] || b in c[1..]
    ensures c[0] !in c[1..]
  {
  }

  lemma CarriesOwn(p: Pool, t: nat)
    requires t < |p.threads| && (p.threads[t].AllocClear? || p.threads[t].FreeCas?)
    ensures Carried(p, p.threads[t].block)
  {
    assert Carries(p.threads[t], p.threads[t].block);
  }

  lemma PartitionCallAlloc(p: Pool, t: nat)
    requires Valid(p) && Enabled(p, CallAlloc(t))
    ensures Partition(Apply(p, CallAlloc(t)))
  {
    hide Elsewhere, Carried, Exclusive;
    var q := Apply(p, CallAlloc(t));
    ExclusiveAfter(p, q, t);
    forall b ensures Carried(q, b) <==> Carried(p, b) {
      CarriedSplit(p, t, b);
      CarriedSplit(q, t, b);
      ElsewhereSame(p, q, t, b);
    }
  }

  lemma PartitionCallFree(p: Pool, t: nat, f: nat)
    requires Valid(p) && Enabled(p, CallFree(t, f))
    ensures Partition(Apply(p, CallFree(t, f)))
  {
    hide Elsewhere, Carried, Exclusive, IsChain, Distinct, ThreadOk;
    var q := Apply(p, CallFree(t, f));
    assert f in p.held && f !in p.stack && !Carried(p, f);
    forall b ensures Carried(q, b) <==> Carried(p, b) || b == f {
      CarriedSplit(p, t, b);
      CarriedSplit(q, t, b);
      ElsewhereSame(p, q, t, b);
    }
    forall b | Carries(q.threads[t], b) ensures !Elsewhere(p, t, b) {
      CarriedSplit(p, t, b);
    }
    ExclusiveAfter(p, q, t);
    forall b ensures b in q.held <==> b in p.held && b != f {
    }
  }

  lemma PartitionKept(p: Pool, a: Action)
    requires Valid(p) && Enabled(p, a)
    ensures Partition(Apply(p, a))
  {
    match a
    case Step(t) => PartitionStep(p, t);
    case CallAlloc(t) => PartitionCallAlloc(p, t);
    case CallFree(t, f) => PartitionCallFree(p, t, f);
    case GuestWrites(_, _) =>
      var q := Apply(p, a);
      assert forall b :: Carried(q, b) <==> Carried(p, b);
  }

  lemma NonStaleStepKeepsValid(p: Pool, a: Action)
    requires Valid(p) && Enabled(p, a) && !StalePop(p, a)
    ensures Valid(Apply(p, a))
  {
    var q := Apply(p, a);
    ChainKept(p, a);
    PartitionKept(p, a);
    forall u | 0 <= u < |q.threads| ensures ThreadOk(q, q.threads[u]) {
      ThreadOkKept(p, a, u);
    }
    LinksKept(p, a);
  }

  lemma LinksKept(p: Pool, a: Action)
    requires Valid(p) && Enabled(p, a)
    ensures Apply(p, a).links.Keys == p.blocks == Apply(p, a).blocks
  {
    match a
    case Step(t) =>
      var th := p.threads[t];
      if th.FreeLink? || th.AllocClear? {
        assert Carries(th, th.block) && Carried(p, th.block);
      }
    case _ =>
  }

  lemma ChainHead(head: nat, links: map<nat, nat>, c: seq<nat>)
    requires IsChain(head, links, c)
    ensures c == [] <==> head == 0
    ensures c != [] ==> c[0] == head && head in links && IsChain(links[head], links, c[1..])
  {
    if c != [] {
      ChainPop(links, c, head);
    }
  }

  /** A null-terminated chain is determined by its first block. */
  lemma {:induction false} ChainUnique(head: nat, links: map<nat, nat>, c: seq<nat>, d: seq<nat>)
    requires IsChain(head, links, c) && IsChain(head, links, d)
    ensures c == d
    decreases |c|
  {
    hide IsChain;
    ChainHead(head, links, c);
    ChainHead(head, links, d);
    if c != [] {
      ChainUnique(links[head], links, c[1..], d[1..]);
      assert c == [head] + c[1..] && d == [head] + d[1..];
    }
  }

  lemma {:induction false} ChainSuffix(head: nat, links: map<nat, nat>, c: seq<nat>, k: nat)
    requires IsChain(head, links, c) && k < |c|
    ensures IsChain(c[k], links, c[k..])
    decreases k
  {
    if k == 0 {
      assert c[0..] == c;
    } else {
      ChainPop(links, c, head);
      assert links[c[0]] == c[1];
      ChainSuffix(c[1], links, c[1..], k - 1);
      assert c[1..][k - 1..] == c[k..];
    }
  }

  /** After a stale pop no order of the blocks makes the pool well formed again. */
  lemma StalePopBreaks(p: Pool, a: Action)
    requires Valid(p) && Enabled(p, a) && StalePop(p, a)
    ensures !Sound(Apply(p, a))
  {
    var q := Apply(p, a);
    var th := p.threads[a.t];
    PopTakesTop(p, a.t);
    PartitionStep(p, a.t);
    forall c ensures !Valid(q.(stack := c)) {
      if Valid(q.(stack := c)) {
        var v := q.(stack := c);
        assert forall b :: Carried(v, b) <==> Carried(q, b);
        forall b ensures b in c <==> b in p.stack[1..] {
          assert Partition(v) && Partition(q);
        }
        StaleChainTooShort(p.head, p.links, p.stack, th.next, c);
      }
    }
  }

  /** A chain over all blocks but the first of another chain must start at that chain's second block. */
  lemma StaleChainTooShort(head: nat, links: map<nat, nat>, full: seq<nat>, start: nat, c: seq<nat>)
    requires IsChain(head, links, full) && Distinct(full) && full != []
    requires IsChain(start, links, c) && forall b :: b in c <==> b in full[1..]
    ensures start == links[full[0]]
  {
    assert links[full[0]] == After(full, 0);
    if |full| > 1 {
      assert full[1..][0] in full[1..];
    }
    if c != [] {
      assert c[0] in c;
      var k :| 0 <= k < |full[1..]| && full[1..][k] == c[0];
      assert full[k + 1] == c[0];
      ChainSuffix(head, links, full, k + 1);
      ChainUnique(c[0], links, c, full[k + 1..]);
      assert full[1] == full[1..][0] && full[1] in c;
      var j :| 0 <= j < |c| && c[j] == full[1];
      assert full[k + 1 + j] == full[1];
    }
  }

  /** Exactly which steps keep the pool well formed: all but a pop that swings the head to a stale link. */
  lemma StepKeepsPoolIff(p: Pool, a: Action)
    requires Valid(p) && Enabled(p, a)
    ensures Sound(Apply(p, a)) <==> !StalePop(p, a)
    ensures !StalePop(p, a) ==> Valid(Apply(p, a))
  {
    if StalePop(p, a) {
      StalePopBreaks(p, a);
    } else {
      NonStaleStepKeepsValid(p, a);
      var q := Apply(p, a);
      assert q.(stack := q.stack) == q;
    }
  }

  /** Links read by pending pops stay fresh as long as no block is freed under them. */
  lemma FreshKept(p: Pool, a: Action)
    requires Valid(p) && AllFresh(p) && Enabled(p, a) && !Reuses(p, a)
    ensures AllFresh(Apply(p, a)) && !StalePop(p, a)
  {
    var q := Apply(p, a);
    if a.Step? && p.threads[a.t].AllocCas? && CasSucceeds(p, p.threads[a.t]) {
      PopTakesTop(p, a.t);
      assert LinkFresh(p, p.threads[a.t]);
    }
    forall u | 0 <= u < |q.threads| ensures LinkFresh(q, q.threads[u]) {
      FreshThread(p, a, u);
    }
  }

  lemma FreshThread(p: Pool, a: Action, u: nat)
    requires Valid(p) && AllFresh(p) && Enabled(p, a) && !Reuses(p, a) && u < |p.threads|
    ensures LinkFresh(Apply(p, a), Apply(p, a).threads[u])
  {
    assert LinkFresh(p, p.threads[u]) && ThreadOk(p, p.threads[u]);
    if a.Step? {
      var th := p.threads[a.t];
      if th.FreeLink? || th.AllocClear? || th.FreeCas? {
        assert Carries(th, th.block) && Carried(p, th.block);
      }
    }
  }

  // ---- runs ----

  datatype Outcome = Stuck | State(pool: Pool)

  function Run(p: Pool, actions: seq<Action>): Outcome
    decreases |actions|
  {
    if actions == [] then State(p)
    else if Enabled(p, actions[0]) then Run(Apply(p, actions[0]), actions[1..])
    else Stuck
  }

  ghost predicate NeverReuses(p: Pool, actions: seq<Action>)
    decreases |actions|
  {
    actions != [] && Enabled(p, actions[0]) ==>
      !Reuses(p, actions[0]) && NeverReuses(Apply(p, actions[0]), actions[1..])
  }

  /** A pool whose blocks are linked into the chain `c`, all free, with n idle threads. */
  function LinkedPool(c: seq<nat>, links: map<nat, nat>, n: nat): Pool {
    Pool(links.Keys, if c == [] then 0 else c[0], links, {}, seq(n, _ => Idle), c)
  }

  lemma {:induction false} RunKeepsPool(p: Pool, actions: seq<Action>)
    requires Valid(p) && AllFresh(p) && Run(p, actions).State? && NeverReuses(p, actions)
    ensures Valid(Run(p, actions).pool)
    decreases |actions|
  {
    if actions != [] {
      FreshKept(p, actions[0]);
      NonStaleStepKeepsValid(p, actions[0]);
      RunKeepsPool(Apply(p, actions[0]), actions[1..]);
    }
  }

  /** Any interleaving of any number of threads, from any null-terminated chain of all the blocks, that never frees a
      block between an alloc's read of its link and that alloc's CAS: the list stays an acyclic, duplicate-free chain,
      and free blocks, held blocks and blocks in transit partition the pool. */
  lemma PoolSafety(c: seq<nat>, links: map<nat, nat>, n: nat, actions: seq<Action>)
    requires IsChain(if c == [] then 0 else c[0], links, c) && Distinct(c)
    requires forall b :: b in links <==> b in c
    requires Run(LinkedPool(c, links, n), actions).State? && NeverReuses(LinkedPool(c, links, n), actions)
    ensures var q := Run(LinkedPool(c, links, n), actions).pool;
            IsChain(q.head, q.links, q.stack) && Distinct(q.stack) && Partition(q)
  {
    LinkedPoolValid(c, links, n);
    hide IsChain, Distinct, Partition, AllFresh, NeverReuses, Run, LinkedPool;
    RunKeepsPool(LinkedPool(c, links, n), actions);
  }

  lemma LinkedPoolValid(c: seq<nat>, links: map<nat, nat>, n: nat)
    requires IsChain(if c == [] then 0 else c[0], links, c) && Distinct(c)
    requires forall b :: b in links <==> b in c
    ensures Valid(LinkedPool(c, links, n)) && AllFresh(LinkedPool(c, links, n))
  {
    hide Carried, Exclusive, IsChain, Distinct, ThreadOk, LinkFresh;
    var p := LinkedPool(c, links, n);
    AllIdle(p);
    NoNullBlock(c, links);
    assert IsChain(p.head, p.links, p.stack) && Distinct(p.stack);
    forall b ensures b in p.blocks <==> b in p.stack {
    }
  }

  lemma NoNullBlock(c: seq<nat>, links: map<nat, nat>)
    requires IsChain(if c == [] then 0 else c[0], links, c) && forall b :: b in links <==> b in c
    ensures 0 !in links
  {
  }

  lemma AllIdle(p: Pool)
    requires forall t :: 0 <= t < |p.threads| ==> p.threads[t].Idle?
    ensures Exclusive(p) && forall b :: !Carried(p, b)
    ensures forall t :: 0 <= t < |p.threads| ==> ThreadOk(p, p.threads[t]) && LinkFresh(p, p.threads[t])
  {
  }

  // ---- the loops refine a sequential stack ----

  /** A successful alloc CAS hands out the top of the stack and pops it; a successful free CAS pushes its block; no
      other step changes the stack. */
  lemma CasIsStackOperation(p: Pool, t: nat)
    requires Valid(p) && Enabled(p, Step(t))
    ensures var th := p.threads[t]; var q := Apply(p, Step(t));
            if !CasSucceeds(p, th) then q.stack == p.stack
            else if th.AllocCas? then p.stack == [th.cur] + q.stack && q.threads[t] == AllocClear(th.cur)
            else q.stack == [th.block] + p.stack && q.threads[t] == Idle
  {
    if p.threads[t].AllocCas? && CasSucceeds(p, p.threads[t]) {
      PopTakesTop(p, t);
    }
  }

  /** alloc reports exhaustion only from a head it loaded while the stack was empty. */
  lemma NullMeansEmpty(p: Pool, t: nat)
    requires Valid(p) && Enabled(p, Step(t))
    requires Apply(p, Step(t)).threads[t] == AllocTest(0)
    ensures p.stack == []
  {
    assert p.head == 0;
  }

  /** Inside alloc. */
  predicate Allocating(th: Thread) { th.AllocLoad? || th.AllocTest? || th.AllocCas? || th.AllocClear? }

  /** alloc ends in exactly two ways: with the block its CAS took, handed to the guest, or without one on a null
      head. */
  lemma AllocEnds(p: Pool, t: nat)
    requires Enabled(p, Step(t)) && Allocating(p.threads[t])
    ensures var th, q := p.threads[t], Apply(p, Step(t));
            && (q.threads[t].Idle? <==> th == AllocTest(0) || th.AllocClear?)
            && (th == AllocTest(0) ==> q.held == p.held)
            && (th.AllocClear? ==> q.held == p.held + {th.block})
  {
  }

  /** An alloc that runs alone: two steps and no block from an empty pool, otherwise four steps and the top block, its
      first word cleared. */
  lemma AllocAlone(p: Pool, t: nat)
    requires Valid(p) && t < |p.threads| && p.threads[t].AllocLoad?
    ensures var idle := p.threads[t := Idle]; var s := Step(t);
            if p.stack == [] then Run(p, [s, s]) == State(p.(threads := idle))
            else var b := p.stack[0];
                 Run(p, [s, s, s, s]) == State(p.(threads := idle, stack := p.stack[1..], head := p.links[b],
                                                  links := p.links[b := 0], held := p.held + {b}))
  {
    hide Run, Valid;
    var s := Step(t);
    HeadIsTop(p);
    var p1 := Apply(p, s);
    var p2 := Apply(p1, s);
    if p.stack == [] {
      assert p2 == p.(threads := p.threads[t := Idle]);
      assert [s] + [s] == [s, s] && [s] + [] == [s];
      RunStep(p, s, [s]);
      RunStep(p1, s, []);
    } else {
      assert p1.threads[t] == AllocTest(p.head) && p2.threads[t] == AllocCas(p.head, p.links[p.head]);
      var p3 := Apply(p2, s);
      assert p3.threads[t] == AllocClear(p.head);
      var p4 := Apply(p3, s);
      assert p4.threads == p.threads[t := Idle];
      assert [s] + [s, s, s] == [s, s, s, s] && [s] + [s, s] == [s, s, s] && [s] + [s] == [s, s] && [s] + [] == [s];
      RunStep(p, s, [s, s, s]);
      RunStep(p1, s, [s, s]);
      RunStep(p2, s, [s]);
      RunStep(p3, s, []);
    }
  }

  lemma HeadIsTop(p: Pool)
    requires Valid(p)
    ensures if p.stack == [] then p.head == 0 else p.head == p.stack[0] && p.head != 0 && p.head in p.links
  {
  }

  lemma RunStep(p: Pool, a: Action, rest: seq<Action>)
    requires Enabled(p, a)
    ensures Run(p, [a] + rest) == Run(Apply(p, a), rest) && Run(p, []) == State(p)
    ensures rest == [] ==> Run(p, [a] + rest) == State(Apply(p, a))
  {
    assert ([a] + rest)[1..] == rest;
  }

  /** A free that runs alone pushes its block in three steps. */
  lemma FreeAlone(p: Pool, t: nat)
    requires t < |p.threads| && p.threads[t].FreeLoad? && p.threads[t].block in p.links
    ensures var b := p.threads[t].block; var s := Step(t);
            Run(p, [s, s, s]) == State(p.(threads := p.threads[t := Idle], head := b, links := p.links[b := p.head],
                                          stack := [b] + p.stack))
  {
    hide Run;
    var s := Step(t);
    var p1 := Apply(p, s);
    var p2 := Apply(p1, s);
    assert p2.threads[t] == FreeCas(p.threads[t].block, p.head);
    var p3 := Apply(p2, s);
    assert p3.threads == p.threads[t := Idle];
    assert [s] + [s, s] == [s, s, s] && [s] + [s] == [s, s] && [s] + [] == [s];
    RunStep(p, s, [s, s]);
    RunStep(p1, s, [s]);
    RunStep(p2, s, []);
  }

  /** A CAS that fails goes on with the present head: alloc tests it, free links its block to it. */
  lemma FailedCasReloads(p: Pool, t: nat)
    requires Enabled(p, Step(t)) && (p.threads[t].AllocCas? || p.threads[t].FreeCas?) && p.threads[t].cur != p.head
    ensures var th, q := p.threads[t], Apply(p, Step(t));
            && q.threads[t] == (if th.AllocCas? then AllocTest(p.head) else FreeLink(th.block, p.head))
            && q.head == p.head && q.links == p.links && q.held == p.held && q.stack == p.stack
  {
  }

  // ---- what alloc reports, over runs ----

  lemma {:induction false} RunSnoc(p: Pool, actions: seq<Action>, a: Action)
    requires Run(p, actions).State? && Enabled(Run(p, actions).pool, a)
    ensures Run(p, actions + [a]) == State(Apply(Run(p, actions).pool, a))
    decreases |actions|
  {
    if actions == [] {
      assert (actions + [a])[1..] == [];
    } else {
      RunSnoc(Apply(p, actions[0]), actions[1..], a);
      assert (actions + [a])[1..] == actions[1..] + [a];
    }
  }

  lemma {:induction false} RunPrefix(p: Pool, actions: seq<Action>, i: nat)
    requires Run(p, actions).State? && i <= |actions|
    ensures Run(p, actions[..i]).State?
    ensures NeverReuses(p, actions) ==> NeverReuses(p, actions[..i])
    decreases |actions|
  {
    if i > 0 {
      RunPrefix(Apply(p, actions[0]), actions[1..], i - 1);
      assert actions[..i][1..] == actions[1..][..i - 1] && actions[..i][0] == actions[0];
    }
  }

  /** The pool after the first i actions of a run. */
  function StateAfter(p: Pool, actions: seq<Action>, i: nat): Pool
    requires Run(p, actions).State? && i <= |actions|
  {
    RunPrefix(p, actions, i);
    Run(p, actions[..i]).pool
  }

  lemma StepOfRun(p: Pool, actions: seq<Action>, i: nat)
    requires Run(p, actions).State? && i < |actions|
    ensures var q := StateAfter(p, actions, i);
            Enabled(q, actions[i]) && StateAfter(p, actions, i + 1) == Apply(q, actions[i])
  {
    RunPrefix(p, actions, i);
    RunPrefix(p, actions, i + 1);
    assert actions[..i + 1] == actions[..i] + [actions[i]];
    EnabledInRun(p, actions[..i], actions[i]);
    RunSnoc(p, actions[..i], actions[i]);
  }

  lemma {:induction false} EnabledInRun(p: Pool, actions: seq<Action>, a: Action)
    requires Run(p, actions + [a]).State?
    ensures Run(p, actions).State? && Enabled(Run(p, actions).pool, a)
    decreases |actions|
  {
    if actions == [] {
      assert ([] + [a])[0] == a;
    } else {
      assert (actions + [a])[1..] == actions[1..] + [a] && (actions + [a])[0] == actions[0];
      EnabledInRun(Apply(p, actions[0]), actions[1..], a);
    }
  }

  /** Thread t stands on the null it loaded at step j, and has done nothing since. */
  ghost predicate LoadedNullAt(p: Pool, actions: seq<Action>, t: nat, j: nat, i: nat)
    requires Run(p, actions).State? && i <= |actions|
  {
    && j < i && actions[j] == Step(t) && StateAfter(p, actions, j).stack == []
    && forall k {:trigger StateAfter(p, actions, k)} :: j < k <= i ==>
         var q := StateAfter(p, actions, k); t < |q.threads| && q.threads[t] == AllocTest(0)
  }

  lemma {:induction false} LastLoad(p: Pool, actions: seq<Action>, t: nat, i: nat) returns (j: nat)
    requires Valid(p) && AllFresh(p) && Run(p, actions).State? && NeverReuses(p, actions) && i <= |actions|
    requires t < |p.threads| && p.threads[t].Idle?
    requires var q := StateAfter(p, actions, i); t < |q.threads| && q.threads[t] == AllocTest(0)
    ensures LoadedNullAt(p, actions, t, j, i)
    decreases i
  {
    hide Valid, AllFresh, NeverReuses, Run, Apply, Enabled;
    if i == 0 {
      NothingRun(p, actions);
      assert false;
    } else {
      StepOfRun(p, actions, i - 1);
      RunPrefix(p, actions, i - 1);
      RunKeepsPool(p, actions[..i - 1]);
      var q := StateAfter(p, actions, i - 1);
      NullComesFrom(q, actions[i - 1], t);
      if q.threads[t] == AllocTest(0) {
        j := LastLoad(p, actions, t, i - 1);
      } else {
        j := i - 1;
      }
    }
  }

  lemma NothingRun(p: Pool, actions: seq<Action>)
    requires Run(p, actions).State?
    ensures StateAfter(p, actions, 0) == p
  {
    assert actions[..0] == [];
  }

  lemma NullComesFrom(q: Pool, a: Action, t: nat)
    requires Valid(q) && Enabled(q, a)
    requires t < |Apply(q, a).threads| && Apply(q, a).threads[t] == AllocTest(0)
    ensures t < |q.threads| && (q.threads[t] == AllocTest(0) || (a == Step(t) && q.stack == []))
  {
    if q.threads[t] != AllocTest(0) {
      NullMeansEmpty(q, t);
    }
  }

  /** In every run that frees no block under a pending alloc, an alloc that ends without a block loaded its last head at
      a moment when the stack was empty. */
  lemma ExhaustedMeansEmpty(c: seq<nat>, links: map<nat, nat>, n: nat, actions: seq<Action>, i: nat, t: nat)
    returns (j: nat)
    requires IsChain(if c == [] then 0 else c[0], links, c) && Distinct(c)
    requires forall b :: b in links <==> b in c
    requires Run(LinkedPool(c, links, n), actions).State? && NeverReuses(LinkedPool(c, links, n), actions)
    requires i < |actions| && actions[i] == Step(t) && t < n
    requires var p := LinkedPool(c, links, n); var q, r := StateAfter(p, actions, i), StateAfter(p, actions, i + 1);
             && |q.threads| == |r.threads| == n && Allocating(q.threads[t]) && r.threads[t].Idle?
             && forall b :: b in r.held ==> b in q.held
    ensures LoadedNullAt(LinkedPool(c, links, n), actions, t, j, i)
  {
    var p := LinkedPool(c, links, n);
    LinkedPoolValid(c, links, n);
    StepOfRun(p, actions, i);
    var q := StateAfter(p, actions, i);
    AllocEnds(q, t);
    RunPrefix(p, actions, i);
    RunKeepsPool(p, actions[..i]);
    if q.threads[t].AllocClear? {
      InTransitNotHeld(q, t);
    }
    hide Valid, AllFresh, NeverReuses, Run, StateAfter, LinkedPool, IsChain;
    j := LastLoad(p, actions, t, i);
  }

  lemma InTransitNotHeld(p: Pool, t: nat)
    requires Valid(p) && t < |p.threads| && p.threads[t].AllocClear?
    ensures p.threads[t].block !in p.held
  {
    CarriesOwn(p, t);
  }

  // ---- runs that go wrong, and pools that start wrong ----

  ghost predicate Reaches(p: Pool, q: Pool) {
    exists actions :: Run(p, actions) == State(q)
  }

  lemma Do(p: Pool, q: Pool, a: Action) returns (r: Pool)
    requires Reaches(p, q) && Enabled(q, a)
    ensures r == Apply(q, a) && Reaches(p, r)
  {
    var actions :| Run(p, actions) == State(q);
    RunSnoc(p, actions, a);
    r := Apply(q, a);
    assert Run(p, actions + [a]) == State(r);
  }

  /** A whole uncontended alloc by thread t. */
  lemma DoAlloc(p: Pool, q: Pool, t: nat) returns (r: Pool)
    requires Reaches(p, q) && t < |q.threads| && q.threads[t].Idle? && q.head != 0 && q.head in q.links
    ensures Reaches(p, r) && r.threads == q.threads && r.head == q.links[q.head]
    ensures r.links == q.links[q.head := 0] && r.held == q.held + {q.head} && r.blocks == q.blocks
  {
    r := Do(p, q, CallAlloc(t));
    r := Do(p, r, Step(t));
    r := Do(p, r, Step(t));
    r := Do(p, r, Step(t));
    r := Do(p, r, Step(t));
    assert r.threads == q.threads;
  }

  lemma DoFree(p: Pool, q: Pool, t: nat, b: nat) returns (r: Pool)
    requires Reaches(p, q) && t < |q.threads| && q.threads[t].Idle? && b in q.held && b in q.links
    ensures Reaches(p, r) && r.threads == q.threads && r.head == b
    ensures r.links == q.links[b := q.head] && r.held == q.held - {b} && r.blocks == q.blocks
  {
    r := Do(p, q, CallFree(t, b));
    r := Do(p, r, Step(t));
    r := Do(p, r, Step(t));
    r := Do(p, r, Step(t));
    assert r.threads == q.threads;
  }

  /** The ABA run. Thread 0 stops between reading the head's link and its CAS; thread 1 allocates both blocks and
      frees the first again. Thread 0's CAS then makes a block the guest still holds the head of the free list. */
  lemma ReuseHandsOutHeldBlock(a: nat, b: nat)
    requires a != 0 && b != 0 && a != b
    ensures exists q :: Reaches(LinkedPool([a, b], map[a := b, b := 0], 2), q) && q.head == b && b in q.held
  {
    var p := LinkedPool([a, b], map[a := b, b := 0], 2);
    assert Run(p, []) == State(p);
    var q := Do(p, p, CallAlloc(0));
    q := Do(p, q, Step(0));
    q := Do(p, q, Step(0));
    assert q.threads == [AllocCas(a, b), Idle] && q.head == a && q.links == p.links && q.held == {};
    q := DoAlloc(p, q, 1);
    q := DoAlloc(p, q, 1);
    q := DoFree(p, q, 1, a);
    q := Do(p, q, Step(0));
  }

  /** The blocks of a pool created over `count` blocks of `size` bytes at `backing`. */
  function BlocksAt(backing: nat, size: nat, count: nat): set<nat> {
    set i | 0 <= i < count :: backing + i * size
  }

  /** The multiples of the block size from the backing address on. */
  lemma BlocksAtIff(backing: nat, size: nat, count: nat, b: nat)
    requires size > 0
    ensures b in BlocksAt(backing, size, count) <==>
            b >= backing && (b - backing) % size == 0 && (b - backing) / size < count
  {
    if b >= backing && (b - backing) % size == 0 {
      var i := (b - backing) / size;
      assert b == backing + i * size;
    }
    if i: nat :| i < count && b == backing + i * size {
      MulMod(i, size);
    }
  }

  /** sceUltPoolCreate: the head becomes the first block; the links are whatever the backing memory holds. */
  function CreatedPool(backing: nat, size: nat, count: nat, memory: nat -> nat, n: nat): Pool {
    var blocks := BlocksAt(backing, size, count);
    Pool(blocks, backing, map b | b in blocks :: memory(b), {}, seq(n, _ => Idle), [])
  }

  /** `c` is a null-terminated chain through exactly the blocks of the pool that the memory already holds. */
  ghost predicate AlreadyLinked(backing: nat, size: nat, count: nat, memory: nat -> nat, c: seq<nat>) {
    && (forall b :: b in c <==> b in BlocksAt(backing, size, count))
    && Distinct(c) && c != [] && c[0] == backing
    && forall i :: 0 <= i < |c| ==> memory(c[i]) == After(c, i)
  }

  /** Create links nothing: the pool is well formed exactly when the backing memory already links all its blocks. */
  lemma CreatedPoolSoundIff(backing: nat, size: nat, count: nat, memory: nat -> nat, n: nat)
    requires backing != 0 && size > 0 && count > 0
    ensures Sound(CreatedPool(backing, size, count, memory, n))
            <==> exists c :: AlreadyLinked(backing, size, count, memory, c)
  {
    var p := CreatedPool(backing, size, count, memory, n);
    forall c ensures Valid(p.(stack := c)) <==> AlreadyLinked(backing, size, count, memory, c) {
      CreatedPoolValidIff(backing, size, count, memory, n, c);
    }
  }

  lemma CreatedPoolValidIff(backing: nat, size: nat, count: nat, memory: nat -> nat, n: nat, c: seq<nat>)
    requires backing != 0 && size > 0 && count > 0
    ensures Valid(CreatedPool(backing, size, count, memory, n).(stack := c))
            <==> AlreadyLinked(backing, size, count, memory, c)
  {
    hide BlocksAt, IsChain, Distinct, Partition;
    BackingIsBlock(backing, size, count);
    var v := CreatedPool(backing, size, count, memory, n).(stack := c);
    IdlePartition(v);
    if forall b :: b in v.blocks <==> b in c {
      ChainOverMemory(v, memory);
    }
  }

  lemma IdlePartition(p: Pool)
    requires p.held == {} && forall t :: 0 <= t < |p.threads| ==> p.threads[t].Idle?
    ensures Partition(p) <==> forall b :: b in p.blocks <==> b in p.stack
  {
    assert forall b :: !Carried(p, b);
  }

  lemma ChainOverMemory(p: Pool, memory: nat -> nat)
    requires 0 !in p.blocks && p.head in p.blocks && p.links == map b | b in p.blocks :: memory(b)
    requires forall b :: b in p.blocks <==> b in p.stack
    ensures IsChain(p.head, p.links, p.stack) <==>
            p.stack[0] == p.head && forall i :: 0 <= i < |p.stack| ==> memory(p.stack[i]) == After(p.stack, i)
  {
    var c := p.stack;
    assert forall i :: 0 <= i < |c| ==> c[i] in p.links && p.links[c[i]] == memory(c[i]);
  }

  lemma BackingIsBlock(backing: nat, size: nat, count: nat)
    requires count > 0 && size > 0
    ensures backing in BlocksAt(backing, size, count)
    ensures forall b :: b in BlocksAt(backing, size, count) ==> b >= backing
    ensures count == 1 ==> BlocksAt(backing, size, count) == {backing}
    ensures count > 1 ==> backing + size in BlocksAt(backing, size, count)
  {
    assert backing == backing + 0 * size && backing + size == backing + 1 * size;
    forall i | 0 <= i < count ensures backing + i * size >= backing {
    }
  }

  /** Over zeroed memory that means a single block. */
  lemma ZeroedPoolSoundIff(backing: nat, size: nat, count: nat, memory: nat -> nat, n: nat)
    requires backing != 0 && size > 0 && count > 0 && forall a :: memory(a) == 0
    ensures Sound(CreatedPool(backing, size, count, memory, n)) <==> count == 1
  {
    hide BlocksAt, Sound, CreatedPool;
    BackingIsBlock(backing, size, count);
    CreatedPoolSoundIff(backing, size, count, memory, n);
    if count == 1 {
      assert AlreadyLinked(backing, size, count, memory, [backing]);
    }
    forall c | AlreadyLinked(backing, size, count, memory, c) ensures count == 1 {
      assert memory(c[0]) == After(c, 0);
    }
  }
}
