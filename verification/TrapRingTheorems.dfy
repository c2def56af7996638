/** The main results about the trap ring, over every run of any number of guests with one server. */
module TrapRingTheorems {
  import opened TrapRing
  import opened TrapRingSafety

  // ---- futex wakes ----

  /** Increments of guestWaitFutex that can still land on slot k before its current claim ends: a bump the server is
      about to make, perhaps for the previous claim, and the bump of a completion still to come. */
  function BumpsToCome(s: Ring, k: SlotIndex): nat {
    (if s.server == BumpGuest(k) then 1 else 0)
    + (if s.slots[k].state.Pending? || s.slots[k].state.Claimed? then 1 else 0)
  }

  predicate PastZeroFutex(p: Phase) {
    !p.WriteReq? && !p.WriteResp? && !p.ZeroFutex?
  }

  /** A guest that sleeps, or is about to, on a finished slot has a wake coming. The bound on the futex word rules
      out that increments wrap it back to 0. */
  predicate WakeOk(s: Ring, g: nat)
    requires g < |s.guests|
  {
    var me := s.guests[g];
    me.Owning? ==>
      var k := me.slot;
      && (PastZeroFutex(me.phase) ==> s.slots[k].futex + BumpsToCome(s, k) <= 2)
      && (me.phase.Wait? && s.slots[k].state.Done? ==> s.server == BumpGuest(k) || s.slots[k].futex > 0)
      && (me.phase.Parked? && s.slots[k].state.Done? ==> s.server == BumpGuest(k) || s.server == WakeGuest(k))
  }

  ghost predicate ServerWakeOk(s: Ring) {
    s.server.ServerParked? ==>
      && s.server.parkedAt <= s.serverBumps
      && (s.server.parkedAt < s.serverBumps ==>
            exists g :: 0 <= g < |s.guests| && s.guests[g].Owning? && s.guests[g].phase.WakeServer?)
  }

  ghost predicate Wakes(s: Ring) {
    (forall g :: 0 <= g < |s.guests| ==> WakeOk(s, g)) && ServerWakeOk(s)
  }

  lemma WakeOwning(order: StoreOrder, s: Ring, g: nat, h: nat)
    requires g < |s.guests| && s.guests[g].Owning? && !s.guests[g].phase.Parked?
    requires h < |s.guests| && WakeOk(s, g) && WakeOk(s, h)
    requires GuestOk(order, s, g) && GuestOk(order, s, h)
    ensures WakeOk(StepOwning(order, s, g), h)
  {
  }

  lemma WakeScanning(order: StoreOrder, s: Ring, g: nat, h: nat)
    requires g < |s.guests| && s.guests[g].Scanning?
    requires h < |s.guests| && WakeOk(s, h) && GuestOk(order, s, h)
    ensures WakeOk(StepScanning(order, s, g), h)
  {
  }

  lemma WakeServerStep(order: StoreOrder, s: Ring, answer: Response, waiter: nat, h: nat)
    requires Enabled(s, ServerStep(answer, waiter)) && ServerOk(s)
    requires h < |s.guests| && WakeOk(s, h)
    requires forall g: nat :: s.server.WakeGuest? && Owns(s, h, s.server.slot) && Owns(s, g, s.server.slot) ==> g == h
    ensures WakeOk(StepServer(s, answer, waiter), h)
  {
    if s.server.StoreDone? {
      assert Serving(s.server, s.server.slot);
    }
    if s.server.WakeGuest? {
      WakeReachesWaiter(s, answer, waiter, h);
    } else {
      assert StepServer(s, answer, waiter).guests == s.guests;
    }
  }

  lemma WakeReachesWaiter(s: Ring, answer: Response, waiter: nat, h: nat)
    requires Enabled(s, ServerStep(answer, waiter)) && s.server.WakeGuest?
    requires h < |s.guests| && WakeOk(s, h)
    requires forall g: nat :: Owns(s, h, s.server.slot) && Owns(s, g, s.server.slot) ==> g == h
    ensures WakeOk(StepServer(s, answer, waiter), h)
  {
    var k := s.server.slot;
    if ParkedOn(s, h, k) {
      assert ParkedOn(s, waiter, k) && Owns(s, waiter, k) && Owns(s, h, k);
    }
  }

  lemma WakesOwning(order: StoreOrder, s: Ring, g: nat)
    requires g < |s.guests| && s.guests[g].Owning? && !s.guests[g].phase.Parked?
    requires Ownership(order, s) && Wakes(s)
    ensures Wakes(StepOwning(order, s, g))
  {
    var t := StepOwning(order, s, g);
    forall h | 0 <= h < |t.guests| ensures WakeOk(t, h) {
      assert GuestOk(order, s, g) && GuestOk(order, s, h);
      WakeOwning(order, s, g, h);
    }
    if t.server.ServerParked? && t.server.parkedAt < t.serverBumps {
      if s.guests[g].phase.Bump? {
        assert t.guests[g].phase.WakeServer?;
      } else {
        var h :| 0 <= h < |s.guests| && s.guests[h].Owning? && s.guests[h].phase.WakeServer?;
        assert t.guests[h].phase.WakeServer?;
      }
    }
  }

  lemma WakesScanning(order: StoreOrder, s: Ring, g: nat)
    requires g < |s.guests| && s.guests[g].Scanning? && Ownership(order, s) && Wakes(s)
    ensures Wakes(StepScanning(order, s, g))
  {
    var t := StepScanning(order, s, g);
    forall h | 0 <= h < |t.guests| ensures WakeOk(t, h) {
      assert GuestOk(order, s, h);
      WakeScanning(order, s, g, h);
    }
    if t.server.ServerParked? && t.server.parkedAt < t.serverBumps {
      var h :| 0 <= h < |s.guests| && s.guests[h].Owning? && s.guests[h].phase.WakeServer?;
      assert t.guests[h].phase.WakeServer?;
    }
  }

  lemma WakesServer(order: StoreOrder, s: Ring, answer: Response, waiter: nat)
    requires Enabled(s, ServerStep(answer, waiter)) && Ownership(order, s) && Wakes(s)
    ensures Wakes(StepServer(s, answer, waiter))
  {
    var t := StepServer(s, answer, waiter);
    forall h | 0 <= h < |t.guests| ensures WakeOk(t, h) {
      forall g: nat | s.server.WakeGuest? && Owns(s, h, s.server.slot) && Owns(s, g, s.server.slot) ensures g == h {
        assert GuestOk(order, s, h) && GuestOk(order, s, g);
      }
      WakeServerStep(order, s, answer, waiter, h);
    }
  }

  lemma WakesMinor(order: StoreOrder, s: Ring, a: Action)
    requires Enabled(s, a) && IsMinor(a) && Wakes(s)
    ensures Wakes(Apply(order, s, a))
  {
    var t := Apply(order, s, a);
    forall h | 0 <= h < |t.guests| ensures WakeOk(t, h) { assert WakeOk(s, h); }
    if t.server.ServerParked? && t.server.parkedAt < t.serverBumps {
      var h :| 0 <= h < |s.guests| && s.guests[h].Owning? && s.guests[h].phase.WakeServer?;
      assert t.guests[h].phase.WakeServer?;
    }
  }

  // ---- induction over runs ----

  ghost predicate Invariant(order: StoreOrder, s: Ring) {
    Ownership(order, s) && History(s) && Matching(order, s) && Wakes(s) && Counting(s)
  }

  lemma InitialInvariant(order: StoreOrder, n: nat)
    ensures Invariant(order, Initial(n))
  {
  }

  lemma InvariantKept(order: StoreOrder, s: Ring, a: Action)
    requires Invariant(order, s) && Enabled(s, a)
    ensures Invariant(order, Apply(order, s, a))
  {
    OwnershipKept(order, s, a);
    CountingKept(order, s, a);
    match a
    case GuestStep(g) =>
      if s.guests[g].Owning? {
        HistoryOwning(order, s, g);
        MatchingOwning(order, s, g);
        WakesOwning(order, s, g);
      } else {
        HistoryScanning(order, s, g);
        MatchingScanning(order, s, g);
        WakesScanning(order, s, g);
      }
    case ServerStep(answer, waiter) =>
      HistoryServer(order, s, answer, waiter);
      MatchingServer(order, s, answer, waiter);
      WakesServer(order, s, answer, waiter);
    case _ =>
      HistoryMinor(order, s, a);
      MatchingMinor(order, s, a);
      WakesMinor(order, s, a);
  }

  lemma {:induction false} InvariantOnRun(order: StoreOrder, s: Ring, actions: seq<Action>)
    requires Invariant(order, s) && Run(order, s, actions).State?
    ensures Invariant(order, Run(order, s, actions).ring)
    decreases |actions|
  {
    if actions != [] {
      InvariantKept(order, s, actions[0]);
      InvariantOnRun(order, Apply(order, s, actions[0]), actions[1..]);
    }
  }

  lemma ReachableInvariant(order: StoreOrder, n: nat, s: Ring)
    requires Reachable(order, n, s)
    ensures Invariant(order, s)
  {
    var actions :| Run(order, Initial(n), actions) == State(s);
    InitialInvariant(order, n);
    InvariantOnRun(order, Initial(n), actions);
  }

  // ---- what was asked ----

  /** The requests guest g has submitted, by the actions alone. */
  function Submits(actions: seq<Action>, g: nat): seq<Request> {
    if actions == [] then []
    else (if actions[0].Submit? && actions[0].g == g then [actions[0].req] else []) + Submits(actions[1..], g)
  }

  /** The requests of guest g whose submit() has returned, in that order. */
  function ReturnsOf(returned: seq<Returned>, g: nat): seq<Request> {
    if returned == [] then []
    else
      var last := returned[|returned| - 1];
      ReturnsOf(returned[..|returned| - 1], g) + if last.guest == g then [last.req] else []
  }

  /** The request of a guest inside submit(). */
  function InProgress(s: Ring, g: nat): seq<Request> {
    if g < |s.guests| && !s.guests[g].Outside? then [s.guests[g].req] else []
  }

  lemma StepRequests(order: StoreOrder, s: Ring, a: Action, g: nat)
    requires Enabled(s, a)
    ensures var t := Apply(order, s, a);
            ReturnsOf(t.returned, g) + InProgress(t, g) ==
            ReturnsOf(s.returned, g) + InProgress(s, g) + if a.Submit? && a.g == g then [a.req] else []
  {
    hide ReturnsOf, StepOwning, StepScanning, StepServer;
    match a
    case Submit(h, req) => SubmitRequests(s, h, req, g);
    case GuestStep(h) =>
      if s.guests[h].Owning? {
        OwningRequests(order, s, h, g);
      } else {
        ScanningRequests(order, s, h, g);
      }
    case ServerStep(answer, waiter) => ServerRequests(s, answer, waiter, g);
    case _ =>
  }

  lemma SubmitRequests(s: Ring, h: nat, req: Request, g: nat)
    requires h < |s.guests| && s.guests[h].Outside?
    ensures InProgress(s.WithGuest(h, Scanning(0, req)), g) == InProgress(s, g) + if h == g then [req] else []
  {
  }

  /** The guest keeps its request until it returns. */
  lemma OwningRequests(order: StoreOrder, s: Ring, h: nat, g: nat)
    requires h < |s.guests| && s.guests[h].Owning? && !s.guests[h].phase.Parked?
    ensures var t := StepOwning(order, s, h);
            ReturnsOf(t.returned, g) + InProgress(t, g) == ReturnsOf(s.returned, g) + InProgress(s, g)
  {
    hide SlotAfter, ReturnsOf;
    var t := StepOwning(order, s, h);
    if s.guests[h].phase.Release? {
      ReturnsPush(s.returned, t.returned[|s.returned|], g);
    } else {
      assert t.returned == s.returned;
    }
  }

  lemma ReturnsPush(returned: seq<Returned>, last: Returned, g: nat)
    ensures ReturnsOf(returned + [last], g) == ReturnsOf(returned, g) + if last.guest == g then [last.req] else []
  {
    assert (returned + [last])[..|returned|] == returned;
  }

  lemma ScanningRequests(order: StoreOrder, s: Ring, h: nat, g: nat)
    requires h < |s.guests| && s.guests[h].Scanning?
    ensures var t := StepScanning(order, s, h); t.returned == s.returned && InProgress(t, g) == InProgress(s, g)
  {
  }

  lemma ServerRequests(s: Ring, answer: Response, waiter: nat, g: nat)
    requires Enabled(s, ServerStep(answer, waiter))
    ensures var t := StepServer(s, answer, waiter); t.returned == s.returned && InProgress(t, g) == InProgress(s, g)
  {
    hide ServerWrite, ServerAfter;
  }

  lemma {:induction false} RunRequests(order: StoreOrder, s: Ring, actions: seq<Action>, g: nat)
    requires Run(order, s, actions).State?
    ensures var t := Run(order, s, actions).ring;
            ReturnsOf(t.returned, g) + InProgress(t, g) ==
            ReturnsOf(s.returned, g) + InProgress(s, g) + Submits(actions, g)
    decreases |actions|
  {
    hide InProgress, ReturnsOf, Apply, Enabled;
    if actions != [] {
      StepRequests(order, s, actions[0], g);
      RunRequests(order, Apply(order, s, actions[0]), actions[1..], g);
    }
  }

  /** In every run the requests a guest has submitted are exactly those its finished submits were about, in order, and
      the one it is inside of. */
  lemma RequestsKept(order: StoreOrder, n: nat, actions: seq<Action>, s: Ring, g: nat)
    requires Run(order, Initial(n), actions) == State(s)
    ensures Submits(actions, g) == ReturnsOf(s.returned, g) + InProgress(s, g)
  {
    RunRequests(order, Initial(n), actions, g);
    assert ReturnsOf(Initial(n).returned, g) == [] && InProgress(Initial(n), g) == [];
    assert [] + Submits(actions, g) == Submits(actions, g);
  }

  /** What the guest of record r asked for: if the record is its i-th return, the i-th request it submitted. */
  predicate AskedFor(actions: seq<Action>, returned: seq<Returned>, r: nat, req: Request)
    requires r < |returned|
  {
    var g := returned[r].guest;
    var i := |ReturnsOf(returned[..r], g)|;
    i < |Submits(actions, g)| && Submits(actions, g)[i] == req
  }

  lemma {:induction false} ReturnAt(returned: seq<Returned>, r: nat)
    requires r < |returned|
    ensures var i := |ReturnsOf(returned[..r], returned[r].guest)|;
            i < |ReturnsOf(returned, returned[r].guest)|
            && ReturnsOf(returned, returned[r].guest)[i] == returned[r].req
    decreases |returned|
  {
    if r < |returned| - 1 {
      ReturnAt(returned[..|returned| - 1], r);
      assert returned[..|returned| - 1][..r] == returned[..r];
    }
  }

  lemma RecordIsAsked(order: StoreOrder, n: nat, actions: seq<Action>, s: Ring, r: nat)
    requires Run(order, Initial(n), actions) == State(s) && r < |s.returned|
    ensures AskedFor(actions, s.returned, r, s.returned[r].req)
  {
    hide Run, Submits, ReturnsOf;
    RequestsKept(order, n, actions, s, s.returned[r].guest);
    ReturnAt(s.returned, r);
  }

  // ---- theorems, for either store order ----

  /** A slot is taken exactly while some guest is between its claim and its release, and never by two. */
  lemma OneOwnerPerSlot(order: StoreOrder, n: nat, s: Ring, k: SlotIndex)
    requires Reachable(order, n, s)
    ensures !s.slots[k].state.Free? <==> exists g: nat :: Owns(s, g, k)
    ensures forall g: nat, h: nat :: Owns(s, g, k) && Owns(s, h, k) ==> g == h
  {
    ReachableInvariant(order, n, s);
    assert SlotOk(s, k);
    forall g: nat | Owns(s, g, k) ensures !s.slots[k].state.Free? && s.slots[k].owner == g {
      assert GuestOk(order, s, g);
    }
  }

  /** complete() acts only on a slot that is still Pending, for a claim whose owner is waiting. */
  lemma CompletionOnlyOnPending(order: StoreOrder, n: nat, s: Ring)
    requires Reachable(order, n, s) && (s.server.StoreResponse? || s.server.StoreDone?)
    ensures s.slots[s.server.slot].state.Pending?
    ensures exists g: nat :: Owns(s, g, s.server.slot) && !s.guests[g].phase.ReadResp? && !s.guests[g].phase.Release?
  {
    ReachableInvariant(order, n, s);
    var k := s.server.slot;
    assert Serving(s.server, k) && SlotOk(s, k);
    assert Owns(s, s.slots[k].owner, k) && GuestOk(order, s, s.slots[k].owner);
  }

  /** No claim is dispatched twice, no claim returns twice, and a claim that returned was dispatched. */
  lemma ExactlyOneDispatchPerReturn(order: StoreOrder, n: nat, s: Ring, r: nat)
    requires Reachable(order, n, s) && r < |s.returned|
    ensures exists i :: 0 <= i < |s.dispatched| && s.dispatched[i].ticket == s.returned[r].ticket
    ensures forall i, j :: 0 <= i < j < |s.dispatched| ==> s.dispatched[i].ticket != s.dispatched[j].ticket
    ensures forall q :: 0 <= q < |s.returned| && s.returned[q].ticket == s.returned[r].ticket ==> q == r
  {
    ReachableInvariant(order, n, s);
    assert HasTicket(s.dispatched, s.returned[r].ticket);
  }

  /** Exactly which submits of either order get the answer to their own request: what the dispatcher was handed is the
      request the guest submitted unless the server copied the slot before the guest had written it, and what submit()
      returns is the dispatcher's answer unless the server stored it before the guest had cleared the slot. */
  lemma ClaimMatchesIff(order: StoreOrder, n: nat, actions: seq<Action>, s: Ring, r: nat, i: nat)
    returns (asked: Request)
    requires Run(order, Initial(n), actions) == State(s) && r < |s.returned| && i < |s.dispatched|
    requires s.dispatched[i].ticket == s.returned[r].ticket
    ensures AskedFor(actions, s.returned, r, asked)
    ensures var d, q := s.dispatched[i], s.returned[r];
            && (d.req == asked <==> !q.claim.readEarly || q.claim.stale == asked)
            && (d.resp == q.resp <==> !q.claim.answeredEarly || d.resp == EmptyResponse)
            && (q.claim.readEarly ==> d.req == q.claim.stale)
            && (q.claim.answeredEarly ==> q.resp == EmptyResponse)
  {
    var q := s.returned[r];
    asked := q.req;
    RecordIsAsked(order, n, actions, s, r);
    ReachableInvariant(order, n, s);
    assert ReturnOk(q, s.dispatched);
    var e := Dispatched(q.ticket, Answered(q.claim, q.req), q.claim.answer);
    var j :| 0 <= j < |s.dispatched| && s.dispatched[j] == e;
    assert i == j;
  }

  /** With the payload stored before Pending, nothing is ever early, so every submit() of every run returns the
      dispatcher's answer to the very request it was called with. */
  lemma DocumentedOrderMatches(n: nat, actions: seq<Action>, s: Ring, r: nat)
    requires Run(Documented, Initial(n), actions) == State(s) && r < |s.returned|
    ensures NotEarly(s.returned[r].claim)
    ensures exists i :: 0 <= i < |s.dispatched| && s.dispatched[i].ticket == s.returned[r].ticket
              && AskedFor(actions, s.returned, r, s.dispatched[i].req) && s.dispatched[i].resp == s.returned[r].resp
  {
    hide Run, AskedFor;
    assert Reachable(Documented, n, s);
    ReachableInvariant(Documented, n, s);
    ExactlyOneDispatchPerReturn(Documented, n, s, r);
    var i :| 0 <= i < |s.dispatched| && s.dispatched[i].ticket == s.returned[r].ticket;
    var asked := ClaimMatchesIff(Documented, n, actions, s, r, i);
  }

  /** In the documented order the payload copies of a guest and of the server never overlap on a slot. */
  lemma DocumentedPayloadIsRaceFree(n: nat, s: Ring, g: nat)
    requires Reachable(Documented, n, s) && g < |s.guests| && s.guests[g].Owning?
    requires s.server.ReadRequest? || s.server.StoreResponse?
    requires s.server.slot == s.guests[g].slot
    ensures !WritingPayload(s.guests[g]) && !s.guests[g].phase.ReadResp?
  {
    ReachableInvariant(Documented, n, s);
    assert Serving(s.server, s.server.slot) && GuestOk(Documented, s, g);
  }

  /** No lost wakeup of a guest: asleep on a finished slot, the server has not yet done its bump or its wake. */
  lemma NoLostGuestWake(order: StoreOrder, n: nat, s: Ring, g: nat)
    requires Reachable(order, n, s) && g < |s.guests|
    requires s.guests[g].Owning? && s.guests[g].phase.Parked? && s.slots[s.guests[g].slot].state.Done?
    ensures s.server == BumpGuest(s.guests[g].slot) || s.server == WakeGuest(s.guests[g].slot)
  {
    ReachableInvariant(order, n, s);
    assert WakeOk(s, g);
  }

  /** A bump made while the server sleeps is never lost: its guest still owes the wake. */
  lemma NoLostServerWakeAfterPark(order: StoreOrder, n: nat, s: Ring)
    requires Reachable(order, n, s) && s.server.ServerParked? && s.server.parkedAt != s.serverBumps
    ensures exists g :: 0 <= g < |s.guests| && s.guests[g].Owning? && s.guests[g].phase.WakeServer?
  {
    ReachableInvariant(order, n, s);
  }

  /** The owner of a slot has bumped the server futex for its claim. */
  predicate PastBump(p: Phase) {
    p.WakeServer? || p.LoadState? || p.Wait? || p.Parked? || p.ReadResp? || p.Release?
  }

  /** A request that waits while the server sleeps: its owner has yet to bump and wake the server, or some guest's wake
      is still owed, or the bump was already counted when the server loaded its futex (2^32 bumps between that load and
      the sleep being the other way for the word to look unchanged). So a miss can only arise from a bump before the
      load, as in ServerWakeCanBeMissed. */
  lemma PendingWhileServerSleeps(order: StoreOrder, n: nat, s: Ring, k: SlotIndex)
    requires Reachable(order, n, s) && s.server.ServerParked? && s.slots[k].state.Pending?
    ensures Owns(s, s.slots[k].owner, k)
    ensures
      || !PastBump(s.guests[s.slots[k].owner].phase)
      || (exists g :: 0 <= g < |s.guests| && s.guests[g].Owning? && s.guests[g].phase.WakeServer?)
      || s.slots[k].claim.bump <= s.server.loadedAt
      || s.server.parkedAt >= s.server.loadedAt + WORD
  {
    ReachableInvariant(order, n, s);
    assert SlotOk(s, k) && BumpCounted(s, k);
    if s.server.parkedAt == s.serverBumps && s.server.loadedAt < s.server.parkedAt {
      SameWordApart(s.server.loadedAt, s.server.parkedAt);
    }
  }

  lemma SameWordApart(a: nat, b: nat)
    requires a < b && a % WORD == b % WORD
    ensures b >= a + WORD
  {
  }

  // ---- runs that go wrong ----

  lemma {:induction false} RunSnoc(order: StoreOrder, s: Ring, actions: seq<Action>, a: Action)
    requires Run(order, s, actions).State? && Enabled(Run(order, s, actions).ring, a)
    ensures Run(order, s, actions + [a]) == State(Apply(order, Run(order, s, actions).ring, a))
    decreases |actions|
  {
    if actions == [] {
      assert (actions + [a])[1..] == [];
    } else {
      RunSnoc(order, Apply(order, s, actions[0]), actions[1..], a);
      assert (actions + [a])[1..] == actions[1..] + [a];
    }
  }

  lemma Step(order: StoreOrder, n: nat, s: Ring, a: Action) returns (t: Ring)
    requires Reachable(order, n, s) && Enabled(s, a)
    ensures t == Apply(order, s, a) && Reachable(order, n, t)
  {
    var actions :| Run(order, Initial(n), actions) == State(s);
    RunSnoc(order, Initial(n), actions, a);
    t := Apply(order, s, a);
    assert Run(order, Initial(n), actions + [a]) == State(t);
  }

  lemma InitialReachable(order: StoreOrder, n: nat)
    ensures Reachable(order, n, Initial(n))
  {
    assert Run(order, Initial(n), []) == State(Initial(n));
  }

  /** The server's first pass from the initial state to its scan. */
  lemma ServerReachesScan(order: StoreOrder, n: nat, s: Ring) returns (t: Ring)
    requires Reachable(order, n, s) && s.server.LoopTop? && s.running && !s.shutdown
    ensures Reachable(order, n, t) && t == s.(server := ScanPending(0))
  {
    var noAnswer := ServerStep(EmptyResponse, 0);
    assert s.dispatched + [] == s.dispatched;
    t := Step(order, n, s, noAnswer);
    t := Step(order, n, t, noAnswer);
    t := Step(order, n, t, noAnswer);
    t := Step(order, n, t, ServerTimeout);
    t := Step(order, n, t, noAnswer);
  }

  /** As written, Pending is visible before the request is: the server answers the stale slot content and the guest
      then overwrites the answer. One guest suffices, for every request and every answer. */
  lemma AsWrittenOrderMismatches(req: Request, answer: Response)
    ensures exists s :: Reachable(AsWritten, 1, s)
              && s.dispatched == [Dispatched(0, EmptyRequest, answer)]
              && s.returned == [Returned(0, 0, req, EmptyResponse, Claim(EmptyRequest, true, true, answer, 1))]
  {
    var s := AnsweredTooEarly(req, answer);
    s := ServerCompletes(AsWritten, 1, s, 0, answer);
    s := GuestWritesLate(s);
    s := GuestCollects(s);
  }

  /** The server has dispatched the content of a slot that its owner has claimed but not written. */
  lemma AnsweredTooEarly(req: Request, answer: Response) returns (s: Ring)
    ensures Reachable(AsWritten, 1, s) && s.server == StoreResponse(0, answer) && s.serverBumps == 0
    ensures s.guests == [Owning(WriteReq, 0, 0, req, EmptyResponse)] && s.returned == []
    ensures s.dispatched == [Dispatched(0, EmptyRequest, answer)]
    ensures s.slots[0] == Slot(Pending, EmptyRequest, EmptyResponse, 0, 0, 0, NoClaim.(readEarly := true))
  {
    InitialReachable(AsWritten, 1);
    s := Step(AsWritten, 1, Initial(1), Submit(0, req));
    s := Step(AsWritten, 1, s, GuestStep(0));
    assert s.slots[0] == Slot(Pending, EmptyRequest, EmptyResponse, 0, 0, 0, NoClaim);
    assert s.guests == [Owning(WriteReq, 0, 0, req, EmptyResponse)];
    s := ServerReachesScan(AsWritten, 1, s);
    s := ServerReads(AsWritten, 1, s, 0, answer);
  }

  /** From a scan positioned on a Pending slot to the dispatcher's answer. */
  lemma ServerReads(order: StoreOrder, n: nat, s: Ring, k: SlotIndex, answer: Response) returns (t: Ring)
    requires Reachable(order, n, s) && s.server == ScanPending(k) && s.slots[k].state.Pending?
    ensures Reachable(order, n, t) && t.guests == s.guests && t.returned == s.returned
    ensures t.slots == s.slots[k := s.slots[k].(claim := s.slots[k].claim.(readEarly := RequestUnwritten(s, k)))]
    ensures t.server == StoreResponse(k, answer) && t.serverBumps == s.serverBumps
    ensures t.dispatched == s.dispatched + [Dispatched(s.slots[k].ticket, s.slots[k].req, answer)]
  {
    t := Step(order, n, s, ServerStep(answer, 0));
    assert t.server == ReadRequest(k) && t.slots == s.slots && t.guests == s.guests && t.dispatched == s.dispatched;
    t := Step(order, n, t, ServerStep(answer, 0));
    assert t.server == Dispatch(k, s.slots[k].req) && t.guests == s.guests && t.dispatched == s.dispatched;
    t := Step(order, n, t, ServerStep(answer, 0));
  }

  /** complete() on a slot nobody waits on. */
  lemma ServerCompletes(order: StoreOrder, n: nat, s: Ring, k: SlotIndex, answer: Response) returns (t: Ring)
    requires Reachable(order, n, s) && s.server == StoreResponse(k, answer)
    requires forall g: nat :: !ParkedOn(s, g, k)
    ensures Reachable(order, n, t) && t.guests == s.guests && t.server == ScanPending(0)
    ensures t.slots[k].state.Done? && t.returned == s.returned && t.dispatched == s.dispatched
    ensures t.slots[k].claim == s.slots[k].claim.(answer := answer, answeredEarly := PayloadUnfinished(s, k))
    ensures t.serverBumps == s.serverBumps
  {
    t := ServerStoresDone(order, n, s, k, answer);
    t := Step(order, n, t, ServerStep(answer, 0));
    assert t.slots[k].state.Done? && t.guests == s.guests && t.dispatched == s.dispatched;
    assert forall g: nat :: ParkedOn(t, g, k) ==> ParkedOn(s, g, k);
    t := Step(order, n, t, ServerStep(answer, 0));
  }

  lemma ServerStoresDone(order: StoreOrder, n: nat, s: Ring, k: SlotIndex, answer: Response) returns (t: Ring)
    requires Reachable(order, n, s) && s.server == StoreResponse(k, answer)
    ensures Reachable(order, n, t) && t.guests == s.guests && t.server == BumpGuest(k)
    ensures t.slots[k].state.Done? && t.returned == s.returned && t.dispatched == s.dispatched
    ensures t.slots[k].claim == s.slots[k].claim.(answer := answer, answeredEarly := PayloadUnfinished(s, k))
    ensures t.serverBumps == s.serverBumps
  {
    t := Step(order, n, s, ServerStep(answer, 0));
    assert t.guests == s.guests && t.dispatched == s.dispatched;
    t := Step(order, n, t, ServerStep(answer, 0));
  }

  /** The only guest writes its payload after the slot is already Done. */
  lemma GuestWritesLate(s: Ring) returns (t: Ring)
    requires Reachable(AsWritten, 1, s) && |s.guests| == 1
    requires s.guests[0].Owning? && s.guests[0].phase.WriteReq? && s.slots[s.guests[0].slot].state.Done?
    ensures Reachable(AsWritten, 1, t) && t.dispatched == s.dispatched && t.returned == s.returned
    ensures t.guests == [s.guests[0].(phase := Bump)] && t.server == s.server
    ensures var slot := t.slots[s.guests[0].slot];
            slot.state.Done? && slot.resp == EmptyResponse && slot.claim == s.slots[s.guests[0].slot].claim
    ensures t.serverBumps == s.serverBumps
  {
    t := Step(AsWritten, 1, s, GuestStep(0));
    assert t.guests == [s.guests[0].(phase := WriteResp)];
    t := Step(AsWritten, 1, t, GuestStep(0));
    assert t.guests == [s.guests[0].(phase := ZeroFutex)];
    t := Step(AsWritten, 1, t, GuestStep(0));
  }

  /** The slots once the owner of slot k has bumped the server futex. */
  function Announced(s: Ring, k: SlotIndex): Slots {
    s.slots[k := s.slots[k].(claim := s.slots[k].claim.(bump := s.serverBumps + 1))]
  }

  lemma GuestBumps(order: StoreOrder, s: Ring) returns (t: Ring)
    requires Reachable(order, 1, s) && |s.guests| == 1 && !s.server.ServerParked?
    requires s.guests[0].Owning? && s.guests[0].phase.Bump?
    ensures Reachable(order, 1, t) && t.dispatched == s.dispatched && t.returned == s.returned
    ensures t.guests == [s.guests[0].(phase := LoadState)] && t.slots == Announced(s, s.guests[0].slot)
    ensures t.server == s.server && t.serverBumps == s.serverBumps + 1
    ensures t.running == s.running && t.shutdown == s.shutdown
  {
    t := Step(order, 1, s, GuestStep(0));
    assert t.guests == [s.guests[0].(phase := WakeServer)] && t.slots == Announced(s, s.guests[0].slot);
    t := Step(order, 1, t, GuestStep(0));
  }

  lemma GuestCollects(s: Ring) returns (t: Ring)
    requires Reachable(AsWritten, 1, s) && |s.guests| == 1 && !s.server.ServerParked?
    requires s.guests[0].Owning? && s.guests[0].phase.Bump? && s.slots[s.guests[0].slot].state.Done?
    ensures Reachable(AsWritten, 1, t) && t.dispatched == s.dispatched
    ensures var me := s.guests[0];
            var slot := s.slots[me.slot];
            t.returned == s.returned +
              [Returned(0, me.ticket, me.req, slot.resp, slot.claim.(bump := s.serverBumps + 1))]
  {
    var me := s.guests[0];
    t := GuestBumps(AsWritten, s);
    t := GuestReadsResponse(t);
    t := Step(AsWritten, 1, t, GuestStep(0));
  }

  lemma GuestReadsResponse(s: Ring) returns (t: Ring)
    requires Reachable(AsWritten, 1, s) && |s.guests| == 1
    requires s.guests[0].Owning? && s.guests[0].phase == LoadState && s.slots[s.guests[0].slot].state.Done?
    ensures Reachable(AsWritten, 1, t) && t.slots == s.slots
    ensures t.guests == [s.guests[0].(phase := Release, resp := s.slots[s.guests[0].slot].resp)]
    ensures t.dispatched == s.dispatched && t.returned == s.returned
  {
    var me := s.guests[0];
    t := Step(AsWritten, 1, s, GuestStep(0));
    assert t.guests == [me.(phase := ReadResp)] && t.slots == s.slots && t.returned == s.returned;
    t := Step(AsWritten, 1, t, GuestStep(0));
  }

  /** Between a scan that has passed slot i and the next load of the server futex, a request is missed: in this run
      of the documented order the only guest and the server both end up asleep, the slot Pending, the guest's bump
      and wake already spent. Only the 50 ms timeout of waitForWork gets the request served. */
  lemma ServerWakeCanBeMissed(req: Request)
    ensures exists s :: Reachable(Documented, 1, s)
              && s.slots[0].state.Pending? && ParkedOn(s, 0, 0)
              && s.server == ServerParked(1, 1) && s.serverBumps == 1 && s.slots[0].claim.bump == 1
  {
    InitialReachable(Documented, 1);
    var s := ServerReachesScan(Documented, 1, Initial(1));
    s := Step(Documented, 1, s, ServerStep(EmptyResponse, 0));
    assert s.server == ScanPending(1) && s.slots == Initial(1).slots && s.guests == [Outside];
    s := GuestPublishes(s, req);
    s := GuestParks(s);
    s := ScanPassesFreeSlots(Documented, 1, s, 1);
    s := ServerParks(Documented, 1, s);
  }

  lemma GuestPublishes(s: Ring, req: Request) returns (t: Ring)
    requires Reachable(Documented, 1, s) && s.guests == [Outside] && s.slots[0] == InitialSlot
    ensures Reachable(Documented, 1, t) && t.guests == [Owning(Bump, 0, s.nextTicket, req, EmptyResponse)]
    ensures t.slots[0].state.Pending? && t.slots[0].futex == 0 && t.slots[1..] == s.slots[1..]
    ensures t.server == s.server && t.serverBumps == s.serverBumps && t.running == s.running && t.shutdown == s.shutdown
  {
    t := GuestClaims(s, req);
    t := Step(Documented, 1, t, GuestStep(0));
    assert t.guests == [Owning(ZeroFutex, 0, s.nextTicket, req, EmptyResponse)] && t.slots[1..] == s.slots[1..];
    t := Step(Documented, 1, t, GuestStep(0));
    assert t.guests[0].phase == Publish && t.slots[0].state.Claimed? && t.slots[1..] == s.slots[1..];
    t := Step(Documented, 1, t, GuestStep(0));
  }

  lemma GuestClaims(s: Ring, req: Request) returns (t: Ring)
    requires Reachable(Documented, 1, s) && s.guests == [Outside] && s.slots[0] == InitialSlot
    ensures Reachable(Documented, 1, t) && t.guests == [Owning(WriteResp, 0, s.nextTicket, req, EmptyResponse)]
    ensures t.slots[0].state.Claimed? && t.slots[1..] == s.slots[1..]
    ensures t.server == s.server && t.serverBumps == s.serverBumps && t.running == s.running && t.shutdown == s.shutdown
  {
    t := Step(Documented, 1, s, Submit(0, req));
    t := Step(Documented, 1, t, GuestStep(0));
    assert t.guests == [Owning(WriteReq, 0, s.nextTicket, req, EmptyResponse)] && t.slots[1..] == s.slots[1..];
    t := Step(Documented, 1, t, GuestStep(0));
  }

  lemma GuestParks(s: Ring) returns (t: Ring)
    requires Reachable(Documented, 1, s) && |s.guests| == 1
    requires s.guests[0].Owning? && s.guests[0].phase.Bump? && !s.server.ServerParked?
    requires var slot := s.slots[s.guests[0].slot]; slot.state.Pending? && slot.futex == 0
    ensures Reachable(Documented, 1, t) && t.guests == [s.guests[0].(phase := Parked)]
    ensures t.slots == Announced(s, s.guests[0].slot)
    ensures t.server == s.server && t.serverBumps == s.serverBumps + 1
    ensures t.running == s.running && t.shutdown == s.shutdown
  {
    var me := s.guests[0];
    var announced := Announced(s, me.slot);
    t := GuestBumps(Documented, s);
    t := Step(Documented, 1, t, GuestStep(0));
    assert t.guests == [me.(phase := Wait)] && t.slots == announced;
    t := Step(Documented, 1, t, GuestStep(0));
  }

  lemma {:induction false} ScanPassesFreeSlots(order: StoreOrder, n: nat, s: Ring, i: ScanIndex) returns (t: Ring)
    requires Reachable(order, n, s) && s.server == ScanPending(i)
    requires forall k: SlotIndex :: i <= k ==> !s.slots[k].state.Pending?
    ensures Reachable(order, n, t) && t == s.(server := LoopTop)
    decreases SLOTS - i
  {
    t := Step(order, n, s, ServerStep(EmptyResponse, 0));
    assert s.dispatched + [] == s.dispatched;
    if i < SLOTS {
      assert t == s.(server := ScanPending(i + 1));
      t := ScanPassesFreeSlots(order, n, t, i + 1);
    }
  }

  lemma ServerParks(order: StoreOrder, n: nat, s: Ring) returns (t: Ring)
    requires Reachable(order, n, s) && s.server.LoopTop? && s.running && !s.shutdown
    ensures Reachable(order, n, t) && t == s.(server := ServerParked(s.serverBumps, s.serverBumps))
  {
    assert s.dispatched + [] == s.dispatched;
    t := Step(order, n, s, ServerStep(EmptyResponse, 0));
    t := Step(order, n, t, ServerStep(EmptyResponse, 0));
    t := Step(order, n, t, ServerStep(EmptyResponse, 0));
    t := Step(order, n, t, ServerStep(EmptyResponse, 0));
  }
}
