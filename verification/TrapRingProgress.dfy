/** Every submit() can still return: from any reachable state of a running server, whatever has happened so far. */
module TrapRingProgress {
  import opened TrapRing
  import opened TrapRingSafety
  import opened TrapRingTheorems

  // ---- continuations ----

  /** The invariant with a server that is neither stopped nor told to stop. */
  ghost predicate Live(order: StoreOrder, s: Ring) {
    Invariant(order, s) && s.running && !s.shutdown && !s.server.Stopped?
  }

  /** The server stops only after it was told to. */
  predicate StopsOnlyWhenTold(s: Ring) { s.server.Stopped? ==> !s.running }

  lemma {:induction false} StoppedMeansTold(order: StoreOrder, s: Ring, actions: seq<Action>)
    requires StopsOnlyWhenTold(s) && Run(order, s, actions).State?
    ensures StopsOnlyWhenTold(Run(order, s, actions).ring)
    decreases |actions|
  {
    if actions != [] {
      StoppedMeansTold(order, Apply(order, s, actions[0]), actions[1..]);
    }
  }

  lemma ReachableLive(order: StoreOrder, n: nat, s: Ring)
    requires Reachable(order, n, s) && s.running && !s.shutdown
    ensures Live(order, s)
  {
    hide Invariant;
    ReachableInvariant(order, n, s);
    var actions :| Run(order, Initial(n), actions) == State(s);
    StoppedMeansTold(order, Initial(n), actions);
  }

  /** Instructions and the server's timeout: no spurious wake of a guest, no new submit, no shutdown. */
  predicate Ordinary(a: Action) { a.GuestStep? || a.ServerStep? || a.ServerTimeout? }

  predicate AllOrdinary(actions: seq<Action>) { forall i :: 0 <= i < |actions| ==> Ordinary(actions[i]) }

  ghost predicate Leads(order: StoreOrder, s: Ring, t: Ring) {
    exists actions :: AllOrdinary(actions) && Run(order, s, actions) == State(t)
  }

  lemma {:induction false} RunAppend(order: StoreOrder, s: Ring, a: seq<Action>, b: seq<Action>)
    requires Run(order, s, a).State?
    ensures Run(order, s, a + b) == Run(order, Run(order, s, a).ring, b)
    decreases |a|
  {
    if a == [] {
      assert a + b == b;
    } else {
      RunAppend(order, Apply(order, s, a[0]), a[1..], b);
      assert (a + b)[1..] == a[1..] + b;
    }
  }

  lemma LeadsNowhere(order: StoreOrder, s: Ring)
    ensures Leads(order, s, s)
  {
    assert AllOrdinary([]) && Run(order, s, []) == State(s);
  }

  lemma LeadsOn(order: StoreOrder, s: Ring, t: Ring, u: Ring)
    requires Leads(order, s, t) && Leads(order, t, u)
    ensures Leads(order, s, u)
  {
    hide Run;
    var a :| AllOrdinary(a) && Run(order, s, a) == State(t);
    var b :| AllOrdinary(b) && Run(order, t, b) == State(u);
    RunAppend(order, s, a, b);
    assert AllOrdinary(a + b);
  }

  /** One ordinary action. */
  lemma Act(order: StoreOrder, s: Ring, a: Action) returns (t: Ring)
    requires Live(order, s) && Enabled(s, a) && Ordinary(a)
    ensures t == Apply(order, s, a) && Leads(order, s, t) && Live(order, t)
  {
    t := Apply(order, s, a);
    assert [a][1..] == [] && Run(order, t, []) == State(t);
    assert AllOrdinary([a]) && Run(order, s, [a]) == State(t);
    assert t.running && !t.shutdown && !t.server.Stopped?;
    hide *;
    InvariantKept(order, s, a);
    StillLive(order, t);
  }

  lemma StillLive(order: StoreOrder, t: Ring)
    requires Invariant(order, t) && t.running && !t.shutdown && !t.server.Stopped?
    ensures Live(order, t)
  {
  }

  /** What the continuation for guest g leaves alone: guests that look for a slot, and what has been returned. */
  ghost predicate Spares(s: Ring, t: Ring, g: nat) {
    && |t.guests| == |s.guests| && s.returned <= t.returned
    && forall h :: 0 <= h < |s.guests| && h != g && s.guests[h].Scanning? ==> t.guests[h] == s.guests[h]
  }

  ghost predicate Reaches(order: StoreOrder, s: Ring, t: Ring, g: nat) {
    Leads(order, s, t) && Live(order, t) && Spares(s, t, g)
  }

  lemma ReachesOn(order: StoreOrder, s: Ring, t: Ring, u: Ring, g: nat)
    requires Reaches(order, s, t, g) && Reaches(order, t, u, g)
    ensures Reaches(order, s, u, g)
  {
    hide Leads, Live;
    LeadsOn(order, s, t, u);
  }

  lemma ReachesItself(order: StoreOrder, s: Ring, g: nat)
    requires Live(order, s)
    ensures Reaches(order, s, s, g)
  {
    hide Leads, Live;
    LeadsNowhere(order, s);
  }

  // ---- the guest's own steps ----

  /** Steps a guest still has to make before it waits. */
  function ToAnnounce(p: Phase): nat {
    match p
    case WriteReq => 6
    case WriteResp => 5
    case ZeroFutex => 4
    case Publish => 3
    case Bump => 2
    case WakeServer => 1
    case _ => 0
  }

  /** Guest g still owns slot k and has announced its request. */
  predicate Announces(s: Ring, g: nat, k: SlotIndex) { Owns(s, g, k) && ToAnnounce(s.guests[g].phase) == 0 }

  lemma ActGuest(order: StoreOrder, s: Ring, g: nat) returns (t: Ring)
    requires Live(order, s) && g < |s.guests| && s.guests[g].Owning? && !s.guests[g].phase.Parked?
    ensures t == StepOwning(order, s, g) && Reaches(order, s, t, g)
  {
    hide Live, Leads;
    t := Act(order, s, GuestStep(g));
  }

  lemma {:induction false} GuestAnnounces(order: StoreOrder, s: Ring, g: nat, k: SlotIndex) returns (t: Ring)
    requires Live(order, s) && Owns(s, g, k)
    ensures Reaches(order, s, t, g) && Announces(t, g, k)
    decreases ToAnnounce(s.guests[g].phase)
  {
    hide Live, Leads, Reaches;
    if ToAnnounce(s.guests[g].phase) == 0 {
      t := s;
      ReachesItself(order, s, g);
    } else {
      var u := ActGuest(order, s, g);
      assert Live(order, u) by { ReachesLive(order, s, u, g); }
      AnnounceStep(order, s, g, k);
      t := GuestAnnounces(order, u, g, k);
      ReachesOn(order, s, u, t, g);
    }
  }

  lemma ReachesLive(order: StoreOrder, s: Ring, t: Ring, g: nat)
    requires Reaches(order, s, t, g)
    ensures Live(order, t)
  {
  }

  lemma AnnounceStep(order: StoreOrder, s: Ring, g: nat, k: SlotIndex)
    requires Owns(s, g, k) && ToAnnounce(s.guests[g].phase) > 0
    ensures var t := StepOwning(order, s, g);
            Owns(t, g, k) && ToAnnounce(t.guests[g].phase) < ToAnnounce(s.guests[g].phase)
  {
  }

  // ---- the server serves the slot ----

  function PendingSlots(s: Ring): set<nat> { set k | 0 <= k < SLOTS && s.slots[k].state.Pending? }

  /** Server steps to the next slot marked Done, if the scan is to find slot k Pending. */
  function ToDone(server: Server, k: SlotIndex): nat {
    match server
    case StoreDone(_) => 1
    case StoreResponse(_, _) => 2
    case Dispatch(_, _) => 3
    case ReadRequest(_) => 4
    case ScanPending(i) => if i <= k then 5 + (k - i) else 11 + k + (SLOTS - i)
    case RecheckShutdown => 6 + k
    case WakeGuest(_) => 6 + k
    case WaitForWork(_) => 7 + k
    case ServerParked(_, _) => 7 + k
    case BumpGuest(_) => 7 + k
    case LoadServerFutex => 8 + k
    case CheckShutdown => 9 + k
    case LoopTop => 10 + k
    case Stopped => 0
  }

  /** The waiter FUTEX_WAKE picks, if there is one. */
  lemma PickWaiter(s: Ring, answer: Response) returns (waiter: nat)
    requires !s.server.Stopped? && !s.server.ServerParked?
    ensures Enabled(s, ServerStep(answer, waiter))
  {
    waiter := 0;
    if s.server.WakeGuest? && exists g: nat :: ParkedOn(s, g, s.server.slot) {
      waiter :| ParkedOn(s, waiter, s.server.slot);
    }
  }

  /** The server's next instruction, or its timeout where it waits. */
  lemma ActServer(order: StoreOrder, s: Ring, answer: Response) returns (t: Ring)
    requires Live(order, s)
    ensures Leads(order, s, t) && Live(order, t)
    ensures s.server.ServerParked? || s.server.WaitForWork? ==> t == s.(server := RecheckShutdown)
    ensures !s.server.ServerParked? && !s.server.WaitForWork? ==>
              exists waiter :: Enabled(s, ServerStep(answer, waiter)) && t == StepServer(s, answer, waiter)
  {
    assert !s.server.Stopped?;
    hide Live, Leads, Enabled, StepServer;
    if s.server.ServerParked? || s.server.WaitForWork? {
      assert Enabled(s, ServerTimeout) by { TimeoutEnabled(s); }
      t := Act(order, s, ServerTimeout);
    } else {
      var waiter := PickWaiter(s, answer);
      t := Act(order, s, ServerStep(answer, waiter));
    }
  }

  lemma TimeoutEnabled(s: Ring)
    requires s.server.ServerParked? || s.server.WaitForWork?
    ensures Enabled(s, ServerTimeout)
  {
  }

  /** A server step while guest g waits on its Pending slot k. */
  lemma ServerStepServes(order: StoreOrder, s: Ring, answer: Response, waiter: nat, g: nat, k: SlotIndex)
    requires Enabled(s, ServerStep(answer, waiter)) && s.running && !s.shutdown && ServerOk(s)
    requires !s.server.WaitForWork? && Announces(s, g, k) && s.slots[k].state.Pending?
    ensures var t := StepServer(s, answer, waiter);
            && Spares(s, t, g) && Announces(t, g, k)
            && (t.slots[k].state.Done? || Closer(s, t, k))
  {
    if s.server.StoreDone? {
      var j := s.server.slot;
      assert Serving(s.server, j);
      var t := StepServer(s, answer, waiter);
      assert j in PendingSlots(s) && j !in PendingSlots(t);
      assert PendingSlots(t) == PendingSlots(s) - {j};
    } else {
      assert PendingSlots(StepServer(s, answer, waiter)) == PendingSlots(s);
    }
  }

  /** Slot k still Pending, and fewer slots Pending or the server nearer to the next Done. */
  ghost predicate Closer(s: Ring, t: Ring, k: SlotIndex) {
    && t.slots[k].state.Pending?
    && (PendingSlots(t) < PendingSlots(s)
        || (PendingSlots(t) == PendingSlots(s) && ToDone(t.server, k) < ToDone(s.server, k)))
  }

  lemma ServerGetsCloser(order: StoreOrder, s: Ring, answer: Response, g: nat, k: SlotIndex) returns (t: Ring)
    requires Live(order, s) && Announces(s, g, k) && s.slots[k].state.Pending?
    ensures Reaches(order, s, t, g) && Announces(t, g, k) && (t.slots[k].state.Done? || Closer(s, t, k))
  {
    assert ServerOk(s) && s.running && !s.shutdown;
    hide Live, Leads, Enabled, StepServer, ServerOk;
    t := ActServer(order, s, answer);
    if s.server.ServerParked? || s.server.WaitForWork? {
      assert PendingSlots(t) == PendingSlots(s);
    } else {
      var waiter :| Enabled(s, ServerStep(answer, waiter)) && t == StepServer(s, answer, waiter);
      ServerStepServes(order, s, answer, waiter, g, k);
    }
  }

  lemma {:induction false} ServerServes(order: StoreOrder, s: Ring, answer: Response, g: nat, k: SlotIndex)
    returns (t: Ring)
    requires Live(order, s) && Announces(s, g, k)
    ensures Reaches(order, s, t, g) && Announces(t, g, k) && t.slots[k].state.Done?
    decreases PendingSlots(s), ToDone(s.server, k)
  {
    AnnouncedSlot(order, s, g, k);
    hide Live, Leads, Reaches, PendingSlots, ToDone;
    if s.slots[k].state.Done? {
      t := s;
      ReachesItself(order, s, g);
    } else {
      var u := ServerGetsCloser(order, s, answer, g, k);
      ReachesLive(order, s, u, g);
      if u.slots[k].state.Done? {
        t := u;
      } else {
        t := ServerServes(order, u, answer, g, k);
        ReachesOn(order, s, u, t, g);
      }
    }
  }

  lemma AnnouncedSlot(order: StoreOrder, s: Ring, g: nat, k: SlotIndex)
    requires Live(order, s) && Announces(s, g, k)
    ensures s.slots[k].state.Pending? || s.slots[k].state.Done?
  {
    assert GuestOk(order, s, g);
  }

  // ---- the guest wakes and returns ----

  predicate Awake(s: Ring, g: nat, k: SlotIndex) {
    Announces(s, g, k) && s.slots[k].state.Done? && !s.guests[g].phase.Wait? && !s.guests[g].phase.Parked?
  }

  /** A sleeping owner of a finished slot gets the wake it is owed. */
  lemma GuestWakes(order: StoreOrder, s: Ring, answer: Response, g: nat, k: SlotIndex) returns (t: Ring)
    requires Live(order, s) && Announces(s, g, k) && s.slots[k].state.Done?
    ensures Reaches(order, s, t, g) && Awake(t, g, k)
  {
    var u := GuestSettles(order, s, g, k);
    if Awake(u, g, k) {
      t := u;
    } else {
      var v := ServerBumps(order, u, answer, g, k);
      t := ServerWakes(order, v, answer, g, k);
      hide *;
      ReachesOn(order, u, v, t, g);
      ReachesOn(order, s, u, t, g);
    }
  }

  /** From the futex check into sleep or past it. */
  lemma GuestSettles(order: StoreOrder, s: Ring, g: nat, k: SlotIndex) returns (t: Ring)
    requires Live(order, s) && Announces(s, g, k) && s.slots[k].state.Done?
    ensures Reaches(order, s, t, g) && t.slots[k].state.Done? && (Awake(t, g, k) || ParkedOn(t, g, k))
  {
    hide Live, Leads, Reaches;
    if s.guests[g].phase.Wait? {
      t := ActGuest(order, s, g);
    } else {
      t := s;
      ReachesItself(order, s, g);
    }
  }

  lemma ServerBumps(order: StoreOrder, s: Ring, answer: Response, g: nat, k: SlotIndex) returns (t: Ring)
    requires Live(order, s) && ParkedOn(s, g, k) && s.slots[k].state.Done?
    ensures Reaches(order, s, t, g) && ParkedOn(t, g, k) && t.slots[k].state.Done? && t.server == WakeGuest(k)
  {
    assert WakeOk(s, g);
    hide Live, Leads, Invariant;
    if s.server == BumpGuest(k) {
      t := Act(order, s, ServerStep(answer, 0));
    } else {
      t := s;
      ReachesItself(order, s, g);
    }
  }

  lemma ServerWakes(order: StoreOrder, s: Ring, answer: Response, g: nat, k: SlotIndex) returns (t: Ring)
    requires Live(order, s) && ParkedOn(s, g, k) && s.slots[k].state.Done? && s.server == WakeGuest(k)
    ensures Reaches(order, s, t, g) && Awake(t, g, k)
  {
    hide Live, Leads, Invariant;
    t := Act(order, s, ServerStep(answer, g));
  }

  /** Guest g has returned from submit() since s. */
  ghost predicate HasReturned(s: Ring, t: Ring, g: nat) {
    && g < |t.guests| && t.guests[g].Outside?
    && exists r :: |s.returned| <= r < |t.returned| && t.returned[r].guest == g
  }

  lemma {:induction false} GuestReturns(order: StoreOrder, s: Ring, g: nat, k: SlotIndex) returns (t: Ring)
    requires Live(order, s) && Awake(s, g, k)
    ensures Reaches(order, s, t, g) && HasReturned(s, t, g) && t.slots[k].state.Free?
    decreases if s.guests[g].phase.LoadState? then 2 else if s.guests[g].phase.ReadResp? then 1 else 0
  {
    hide Live, Leads, Reaches;
    var u := ActGuest(order, s, g);
    if s.guests[g].phase.Release? {
      t := u;
      assert t.returned[|s.returned|].guest == g;
    } else {
      ReachesLive(order, s, u, g);
      t := GuestReturns(order, u, g, k);
      ReachesOn(order, s, u, t, g);
      assert u.returned == s.returned;
    }
  }

  lemma OwnerReturns(order: StoreOrder, s: Ring, answer: Response, g: nat, k: SlotIndex) returns (t: Ring)
    requires Live(order, s) && Owns(s, g, k)
    ensures Reaches(order, s, t, g) && HasReturned(s, t, g) && t.slots[k].state.Free?
  {
    hide Live, Leads, Owns, Announces, Awake;
    var u := GuestAnnounces(order, s, g, k);
    var v := ServerServes(order, u, answer, g, k);
    var w := GuestWakes(order, v, answer, g, k);
    t := GuestReturns(order, w, g, k);
    ReachesOn(order, s, u, v, g);
    ReachesOn(order, s, v, w, g);
    ReachesOn(order, s, w, t, g);
    ReturnedSince(s, w, t, g);
  }

  lemma ReturnedSince(s: Ring, w: Ring, t: Ring, g: nat)
    requires s.returned <= w.returned && HasReturned(w, t, g)
    ensures HasReturned(s, t, g)
  {
    var r :| |w.returned| <= r < |t.returned| && t.returned[r].guest == g;
    assert |s.returned| <= r;
  }

  // ---- the claim ----

  /** Slots a scan at i looks at before it reaches slot f. */
  function ToSlot(i: ScanIndex, f: SlotIndex): nat { if i <= f then f - i else SLOTS - i + 1 + f }

  /** With a free slot the scan claims one. */
  lemma {:induction false} ScannerClaims(order: StoreOrder, s: Ring, g: nat, f: SlotIndex)
    returns (t: Ring, k: SlotIndex)
    requires Live(order, s) && g < |s.guests| && s.guests[g].Scanning? && s.slots[f].state.Free?
    ensures Reaches(order, s, t, g) && Owns(t, g, k)
    decreases ToSlot(s.guests[g].next, f)
  {
    hide Live, Leads;
    var i := s.guests[g].next;
    var u := Act(order, s, GuestStep(g));
    if i < SLOTS && s.slots[i].state.Free? {
      t, k := u, i;
    } else {
      t, k := ScannerClaims(order, u, g, f);
      hide Reaches;
      ReachesOn(order, s, u, t, g);
    }
  }

  /** Some slot can be made free, by letting an owner return. */
  lemma FreeASlot(order: StoreOrder, s: Ring, answer: Response, g: nat) returns (t: Ring, f: SlotIndex)
    requires Live(order, s) && g < |s.guests| && s.guests[g].Scanning?
    ensures Leads(order, s, t) && Live(order, t) && s.returned <= t.returned
    ensures |t.guests| == |s.guests| && t.guests[g] == s.guests[g] && t.slots[f].state.Free?
  {
    f := 0;
    if s.slots[0].state.Free? {
      t := s;
      LeadsNowhere(order, s);
    } else {
      assert SlotOk(s, 0);
      var h := s.slots[0].owner;
      hide Live, Leads;
      t := OwnerReturns(order, s, answer, h, 0);
    }
  }

  lemma ScannerReturns(order: StoreOrder, s: Ring, answer: Response, g: nat) returns (t: Ring)
    requires Live(order, s) && g < |s.guests| && s.guests[g].Scanning?
    ensures Leads(order, s, t) && HasReturned(s, t, g)
  {
    hide Live, Leads, Owns;
    var u, f := FreeASlot(order, s, answer, g);
    var v, k := ScannerClaims(order, u, g, f);
    t := OwnerReturns(order, v, answer, g, k);
    LeadsOn(order, s, u, v);
    LeadsOn(order, s, v, t);
    ReturnedSince(s, v, t, g);
  }

  /** From every reachable state of a running server each guest inside submit() has a continuation of instructions and
      server timeouts alone in which its submit() returns, for every answer the dispatcher may give. */
  lemma SubmitCanReturn(order: StoreOrder, n: nat, s: Ring, answer: Response, g: nat) returns (t: Ring)
    requires Reachable(order, n, s) && s.running && !s.shutdown
    requires g < |s.guests| && !s.guests[g].Outside?
    ensures Leads(order, s, t) && Reachable(order, n, t) && HasReturned(s, t, g)
  {
    ReachableLive(order, n, s);
    hide Live, Leads, Reachable, HasReturned;
    if s.guests[g].Owning? {
      t := OwnerReturns(order, s, answer, g, s.guests[g].slot);
    } else {
      t := ScannerReturns(order, s, answer, g);
    }
    LeadsReachable(order, n, s, t);
  }

  lemma LeadsReachable(order: StoreOrder, n: nat, s: Ring, t: Ring)
    requires Reachable(order, n, s) && Leads(order, s, t)
    ensures Reachable(order, n, t)
  {
    hide Run;
    var a :| Run(order, Initial(n), a) == State(s);
    var b :| AllOrdinary(b) && Run(order, s, b) == State(t);
    RunAppend(order, Initial(n), a, b);
    assert Run(order, Initial(n), a + b) == State(t);
  }

  // ---- shutdown ----

  /** The server is between two rounds of its loop, or has left it. */
  predicate BetweenRounds(server: Server) { server.LoopTop? || server.CheckShutdown? || server.Stopped? }

  /** Once shutdown is raised, a server back at the top of its loop never dispatches anything again. */
  lemma {:induction false} NoDispatchAfterShutdown(order: StoreOrder, s: Ring, actions: seq<Action>)
    requires s.shutdown && BetweenRounds(s.server) && Run(order, s, actions).State?
    ensures var t := Run(order, s, actions).ring;
            t.shutdown && BetweenRounds(t.server) && t.dispatched == s.dispatched
    decreases |actions|
  {
    if actions != [] {
      NoDispatchStep(order, s, actions[0]);
      NoDispatchAfterShutdown(order, Apply(order, s, actions[0]), actions[1..]);
    }
  }

  lemma NoDispatchStep(order: StoreOrder, s: Ring, a: Action)
    requires s.shutdown && BetweenRounds(s.server) && Enabled(s, a)
    ensures var t := Apply(order, s, a); t.shutdown && BetweenRounds(t.server) && t.dispatched == s.dispatched
  {
  }

  /** stop() on a sleeping server: the wake of requestShutdown gets it out at once, without its timeout. */
  lemma StopWakesSleeper(order: StoreOrder, s: Ring, answer: Response)
    requires s.server.ServerParked?
    ensures var step := ServerStep(answer, 0);
            var end := Run(order, s, [ClearRunning, RaiseShutdown, WakeForShutdown, step, step]);
            end == State(s.(running := false, shutdown := true, server := Stopped))
  {
    hide Run;
    var step := ServerStep(answer, 0);
    var told := s.(running := false, shutdown := true);
    Ahead(order, s, ClearRunning, [RaiseShutdown, WakeForShutdown, step, step]);
    Ahead(order, s.(running := false), RaiseShutdown, [WakeForShutdown, step, step]);
    Ahead(order, told, WakeForShutdown, [step, step]);
    Moves(order, told.(server := RecheckShutdown), answer);
    Moves(order, told.(server := LoopTop), answer);
    Ahead(order, told.(server := RecheckShutdown), step, [step]);
    Ahead(order, told.(server := LoopTop), step, []);
    assert [step] + [] == [step] && [step] + [step] == [step, step];
    assert [WakeForShutdown] + [step, step] == [WakeForShutdown, step, step];
    assert [RaiseShutdown] + [WakeForShutdown, step, step] == [RaiseShutdown, WakeForShutdown, step, step];
    assert [ClearRunning] + [RaiseShutdown, WakeForShutdown, step, step]
        == [ClearRunning, RaiseShutdown, WakeForShutdown, step, step];
  }

  lemma Ahead(order: StoreOrder, s: Ring, a: Action, rest: seq<Action>)
    requires Enabled(s, a)
    ensures Run(order, s, [a] + rest) == Run(order, Apply(order, s, a), rest)
    ensures rest == [] ==> Run(order, s, [a] + rest) == State(Apply(order, s, a))
  {
    assert ([a] + rest)[1..] == rest;
  }

  /** An instruction of the server outside its work on a slot. */
  lemma Moves(order: StoreOrder, s: Ring, answer: Response)
    requires !AtSlot(s.server) && !s.server.Dispatch? && Enabled(s, ServerStep(answer, 0))
    ensures Apply(order, s, ServerStep(answer, 0)) == s.(server := ServerAfter(s, answer))
  {
    assert s.dispatched + [] == s.dispatched;
  }

  /** The server has tested shutdown and is on its way to sleep, or asleep. */
  predicate GoingToSleep(server: Server) { server.LoadServerFutex? || server.WaitForWork? || server.ServerParked? }

  /** A server that is not on that way when shutdown is raised never sleeps again. */
  lemma {:induction false} NoSleepAfterShutdown(order: StoreOrder, s: Ring, actions: seq<Action>)
    requires s.shutdown && !GoingToSleep(s.server) && Run(order, s, actions).State?
    ensures var t := Run(order, s, actions).ring; t.shutdown && !GoingToSleep(t.server)
    decreases |actions|
  {
    if actions != [] {
      NoSleepStep(order, s, actions[0]);
      NoSleepAfterShutdown(order, Apply(order, s, actions[0]), actions[1..]);
    }
  }

  lemma NoSleepStep(order: StoreOrder, s: Ring, a: Action)
    requires s.shutdown && !GoingToSleep(s.server) && Enabled(s, a)
    ensures var t := Apply(order, s, a); t.shutdown && !GoingToSleep(t.server)
  {
  }

  /** One that is, and has not read the futex yet or finds it as it read it, misses the wake: requestShutdown changes no
      futex, so the server goes to sleep after it. */
  lemma ShutdownWakeCanBeMissed(order: StoreOrder, s: Ring, answer: Response)
    requires s.server.LoadServerFutex? || (s.server.WaitForWork? && s.server.loadedAt % WORD == s.ServerFutex())
    ensures var step := ServerStep(answer, 0);
            var steps := if s.server.LoadServerFutex? then [step, step] else [step];
            var end := Run(order, s, [RaiseShutdown, WakeForShutdown] + steps);
            end.State? && end.ring.shutdown && end.ring.server.ServerParked?
  {
    hide Run;
    var step := ServerStep(answer, 0);
    var steps := if s.server.LoadServerFutex? then [step, step] else [step];
    var told := s.(shutdown := true);
    Ahead(order, s, RaiseShutdown, [WakeForShutdown] + steps);
    Ahead(order, told, WakeForShutdown, steps);
    assert [RaiseShutdown] + ([WakeForShutdown] + steps) == [RaiseShutdown, WakeForShutdown] + steps;
    assert [step] + [] == [step] && [step] + [step] == [step, step];
    Moves(order, told, answer);
    if s.server.LoadServerFutex? {
      Moves(order, told.(server := WaitForWork(s.serverBumps)), answer);
      Ahead(order, told, step, [step]);
      Ahead(order, told.(server := WaitForWork(s.serverBumps)), step, []);
    } else {
      Ahead(order, told, step, []);
    }
  }

  /** Server steps until it stops, if no further slot is found Pending. */
  function ToStop(server: Server): nat {
    match server
    case Stopped => 0
    case LoopTop => 1
    case CheckShutdown => 2
    case RecheckShutdown => 2
    case StoreDone(_) => 3
    case WaitForWork(_) => 3
    case ServerParked(_, _) => 3
    case LoadServerFutex => 4
    case StoreResponse(_, _) => 4
    case Dispatch(_, _) => 5
    case ReadRequest(_) => 6
    case ScanPending(i) => 7 + (SLOTS - i)
    case WakeGuest(_) => 8 + SLOTS
    case BumpGuest(_) => 9 + SLOTS
  }

  /** The server has been told to stop. */
  ghost predicate Stopping(order: StoreOrder, s: Ring) { Invariant(order, s) && s.shutdown && !s.running }

  lemma StopStep(s: Ring, answer: Response, waiter: nat)
    requires Enabled(s, ServerStep(answer, waiter)) && s.shutdown && !s.running && ServerOk(s) && !s.server.WaitForWork?
    ensures var t := StepServer(s, answer, waiter);
            t.shutdown && !t.running
            && (PendingSlots(t) < PendingSlots(s)
                || (PendingSlots(t) == PendingSlots(s) && ToStop(t.server) < ToStop(s.server)))
  {
    if s.server.StoreDone? {
      var j := s.server.slot;
      assert Serving(s.server, j);
      var t := StepServer(s, answer, waiter);
      assert j in PendingSlots(s) && j !in PendingSlots(t);
      assert PendingSlots(t) == PendingSlots(s) - {j};
    } else {
      assert PendingSlots(StepServer(s, answer, waiter)) == PendingSlots(s);
    }
  }

  /** From every reachable state in which stop() has cleared the flag and raised shutdown, the server's own steps lead
      to its end, whatever is still pending. */
  lemma {:induction false} ServerCanStop(order: StoreOrder, s: Ring, answer: Response) returns (t: Ring)
    requires Stopping(order, s)
    ensures Leads(order, s, t) && t.server.Stopped?
    decreases PendingSlots(s), ToStop(s.server)
  {
    assert ServerOk(s) && s.shutdown && !s.running;
    hide Stopping, Leads, StepServer, Invariant, ServerOk;
    if s.server.Stopped? {
      t := s;
      LeadsNowhere(order, s);
    } else {
      var u;
      if s.server.ServerParked? || s.server.WaitForWork? {
        TimeoutEnabled(s);
        u := ActStopping(order, s, ServerTimeout);
        assert PendingSlots(u) == PendingSlots(s);
      } else {
        var waiter := PickWaiter(s, answer);
        StopStep(s, answer, waiter);
        u := ActStopping(order, s, ServerStep(answer, waiter));
      }
      t := ServerCanStop(order, u, answer);
      LeadsOn(order, s, u, t);
    }
  }

  lemma ActStopping(order: StoreOrder, s: Ring, a: Action) returns (t: Ring)
    requires Stopping(order, s) && Enabled(s, a) && Ordinary(a)
    ensures t == Apply(order, s, a) && Leads(order, s, t) && Stopping(order, t)
  {
    t := Apply(order, s, a);
    assert [a][1..] == [] && Run(order, t, []) == State(t);
    assert AllOrdinary([a]) && Run(order, s, [a]) == State(t);
    assert t.shutdown && !t.running;
    hide *;
    InvariantKept(order, s, a);
    StillStopping(order, t);
  }

  lemma StillStopping(order: StoreOrder, t: Ring)
    requires Invariant(order, t) && t.shutdown && !t.running
    ensures Stopping(order, t)
  {
  }
}
