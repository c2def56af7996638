/** What every interleaving of the trap ring keeps: slot ownership, one dispatch per claim, request/response
    matching, and no lost wakeup of a guest. */
module TrapRingSafety {
  import opened TrapRing

  // ---- ownership ----

  predicate Owns(s: Ring, g: nat, k: SlotIndex) {
    g < |s.guests| && s.guests[g].Owning? && s.guests[g].slot == k
  }

  predicate BeforePublish(p: Phase) {
    p.WriteReq? || p.WriteResp? || p.ZeroFutex? || p.Publish?
  }

  /** Where a guest inside submit() can be, given the state of its slot. */
  predicate OwnOk(order: StoreOrder, me: Guest, slot: Slot)
    requires me.Owning?
  {
    && !slot.state.Free?
    && (slot.state.Claimed? <==> order.Documented? && BeforePublish(me.phase))
    && (me.phase.Publish? ==> order.Documented?)
    && (me.phase.ReadResp? || me.phase.Release? ==> slot.state.Done?)
  }

  predicate GuestOk(order: StoreOrder, s: Ring, g: nat)
    requires g < |s.guests|
  {
    var me := s.guests[g];
    me.Owning? ==>
      var slot := s.slots[me.slot];
      slot.owner == g && slot.ticket == me.ticket && OwnOk(order, me, slot)
  }

  predicate SlotOk(s: Ring, k: SlotIndex) {
    !s.slots[k].state.Free? ==> Owns(s, s.slots[k].owner, k) && s.slots[k].ticket < s.nextTicket
  }

  /** The slot the server has committed to: read as Pending and not yet marked Done. */
  predicate Serving(server: Server, k: SlotIndex) {
    || server == ReadRequest(k)
    || (server.Dispatch? && server.slot == k)
    || (server.StoreResponse? && server.slot == k)
    || server == StoreDone(k)
  }

  predicate TicketsDiffer(s: Ring, k: SlotIndex, l: SlotIndex) {
    k != l && !s.slots[k].state.Free? && !s.slots[l].state.Free? ==> s.slots[k].ticket != s.slots[l].ticket
  }

  predicate ServerOk(s: Ring) {
    forall k: SlotIndex :: Serving(s.server, k) ==> s.slots[k].state.Pending?
  }

  ghost predicate Ownership(order: StoreOrder, s: Ring) {
    && (forall g :: 0 <= g < |s.guests| ==> GuestOk(order, s, g))
    && (forall k: SlotIndex :: SlotOk(s, k))
    && (forall k: SlotIndex, l: SlotIndex :: TicketsDiffer(s, k, l))
    && ServerOk(s)
  }

  lemma GuestOkOwning(order: StoreOrder, s: Ring, g: nat, h: nat)
    requires g < |s.guests| && s.guests[g].Owning? && !s.guests[g].phase.Parked?
    requires h < |s.guests| && GuestOk(order, s, g) && GuestOk(order, s, h)
    ensures GuestOk(order, StepOwning(order, s, g), h)
  {
    if h == g {
      OwnStepOk(order, s.guests[g], s.slots[s.guests[g].slot], s.serverBumps);
    }
  }

  lemma OwnStepOk(order: StoreOrder, me: Guest, slot: Slot, bumps: nat)
    requires me.Owning? && OwnOk(order, me, slot)
    ensures var me' := GuestAfter(order, me, slot); me'.Owning? ==> OwnOk(order, me', SlotAfter(me, slot, bumps))
  {
  }

  lemma GuestOkServer(order: StoreOrder, s: Ring, answer: Response, waiter: nat, h: nat)
    requires Enabled(s, ServerStep(answer, waiter)) && ServerOk(s)
    requires h < |s.guests| && GuestOk(order, s, h)
    ensures GuestOk(order, StepServer(s, answer, waiter), h)
  {
    if s.server.StoreDone? {
      assert Serving(s.server, s.server.slot);
    }
  }

  lemma GuestOkScanning(order: StoreOrder, s: Ring, g: nat, h: nat)
    requires g < |s.guests| && s.guests[g].Scanning?
    requires h < |s.guests| && GuestOk(order, s, h)
    ensures GuestOk(order, StepScanning(order, s, g), h)
  {
  }

  lemma SlotOkOwning(order: StoreOrder, s: Ring, g: nat, k: SlotIndex)
    requires g < |s.guests| && s.guests[g].Owning? && !s.guests[g].phase.Parked?
    requires GuestOk(order, s, g) && SlotOk(s, k)
    ensures SlotOk(StepOwning(order, s, g), k)
  {
  }

  lemma SlotOkScanning(order: StoreOrder, s: Ring, g: nat, k: SlotIndex)
    requires g < |s.guests| && s.guests[g].Scanning? && SlotOk(s, k)
    ensures SlotOk(StepScanning(order, s, g), k)
  {
  }

  lemma SlotOkServer(s: Ring, answer: Response, waiter: nat, k: SlotIndex)
    requires Enabled(s, ServerStep(answer, waiter)) && ServerOk(s) && SlotOk(s, k)
    ensures SlotOk(StepServer(s, answer, waiter), k)
  {
    if s.server.StoreDone? {
      assert Serving(s.server, s.server.slot);
    }
  }

  lemma TicketsOwning(order: StoreOrder, s: Ring, g: nat, k: SlotIndex, l: SlotIndex)
    requires g < |s.guests| && s.guests[g].Owning? && !s.guests[g].phase.Parked?
    requires GuestOk(order, s, g) && TicketsDiffer(s, k, l)
    ensures TicketsDiffer(StepOwning(order, s, g), k, l)
  {
  }

  lemma TicketsScanning(order: StoreOrder, s: Ring, g: nat, k: SlotIndex, l: SlotIndex)
    requires g < |s.guests| && s.guests[g].Scanning?
    requires SlotOk(s, k) && SlotOk(s, l) && TicketsDiffer(s, k, l)
    ensures TicketsDiffer(StepScanning(order, s, g), k, l)
  {
  }

  lemma TicketsServer(s: Ring, answer: Response, waiter: nat, k: SlotIndex, l: SlotIndex)
    requires Enabled(s, ServerStep(answer, waiter)) && ServerOk(s) && TicketsDiffer(s, k, l)
    ensures TicketsDiffer(StepServer(s, answer, waiter), k, l)
  {
    if s.server.StoreDone? {
      assert Serving(s.server, s.server.slot);
    }
  }

  lemma ServerOkOwning(order: StoreOrder, s: Ring, g: nat)
    requires g < |s.guests| && s.guests[g].Owning? && !s.guests[g].phase.Parked?
    requires GuestOk(order, s, g) && ServerOk(s)
    ensures ServerOk(StepOwning(order, s, g))
  {
    var t := StepOwning(order, s, g);
    forall k: SlotIndex | Serving(t.server, k) ensures t.slots[k].state.Pending? {
      assert Serving(s.server, k);
    }
  }

  lemma ServerOkScanning(order: StoreOrder, s: Ring, g: nat)
    requires g < |s.guests| && s.guests[g].Scanning? && ServerOk(s)
    ensures ServerOk(StepScanning(order, s, g))
  {
    var t := StepScanning(order, s, g);
    forall k: SlotIndex | Serving(t.server, k) ensures t.slots[k].state.Pending? {
      assert Serving(s.server, k);
    }
  }

  lemma ServerOkServer(s: Ring, answer: Response, waiter: nat)
    requires Enabled(s, ServerStep(answer, waiter)) && ServerOk(s)
    ensures ServerOk(StepServer(s, answer, waiter))
  {
    var t := StepServer(s, answer, waiter);
    forall k: SlotIndex | Serving(t.server, k) ensures t.slots[k].state.Pending? {
      assert s.server.ScanPending? || Serving(s.server, k);
    }
  }

  lemma OwnershipOwning(order: StoreOrder, s: Ring, g: nat)
    requires g < |s.guests| && s.guests[g].Owning? && !s.guests[g].phase.Parked? && Ownership(order, s)
    ensures Ownership(order, StepOwning(order, s, g))
  {
    var t := StepOwning(order, s, g);
    assert GuestOk(order, s, g);
    forall h | 0 <= h < |t.guests| ensures GuestOk(order, t, h) { GuestOkOwning(order, s, g, h); }
    forall k: SlotIndex ensures SlotOk(t, k) { SlotOkOwning(order, s, g, k); }
    forall k: SlotIndex, l: SlotIndex ensures TicketsDiffer(t, k, l) { TicketsOwning(order, s, g, k, l); }
    ServerOkOwning(order, s, g);
  }

  lemma OwnershipScanning(order: StoreOrder, s: Ring, g: nat)
    requires g < |s.guests| && s.guests[g].Scanning? && Ownership(order, s)
    ensures Ownership(order, StepScanning(order, s, g))
  {
    var t := StepScanning(order, s, g);
    forall h | 0 <= h < |t.guests| ensures GuestOk(order, t, h) { GuestOkScanning(order, s, g, h); }
    forall k: SlotIndex ensures SlotOk(t, k) { SlotOkScanning(order, s, g, k); }
    forall k: SlotIndex, l: SlotIndex ensures TicketsDiffer(t, k, l) { TicketsScanning(order, s, g, k, l); }
    ServerOkScanning(order, s, g);
  }

  lemma OwnershipServer(order: StoreOrder, s: Ring, answer: Response, waiter: nat)
    requires Enabled(s, ServerStep(answer, waiter)) && Ownership(order, s)
    ensures Ownership(order, StepServer(s, answer, waiter))
  {
    var t := StepServer(s, answer, waiter);
    forall h | 0 <= h < |t.guests| ensures GuestOk(order, t, h) { GuestOkServer(order, s, answer, waiter, h); }
    forall k: SlotIndex ensures SlotOk(t, k) { SlotOkServer(s, answer, waiter, k); }
    forall k: SlotIndex, l: SlotIndex ensures TicketsDiffer(t, k, l) { TicketsServer(s, answer, waiter, k, l); }
    ServerOkServer(s, answer, waiter);
  }

  /** Steps that leave the slots and the owning guests alone. */
  predicate IsMinor(a: Action) {
    !a.GuestStep? && !a.ServerStep?
  }

  lemma OwnershipMinor(order: StoreOrder, s: Ring, a: Action)
    requires Enabled(s, a) && IsMinor(a) && Ownership(order, s)
    ensures Ownership(order, Apply(order, s, a))
  {
    var t := Apply(order, s, a);
    forall h | 0 <= h < |t.guests| ensures GuestOk(order, t, h) { assert GuestOk(order, s, h); }
    forall k: SlotIndex ensures SlotOk(t, k) { assert SlotOk(s, k); }
    forall k: SlotIndex, l: SlotIndex ensures TicketsDiffer(t, k, l) { assert TicketsDiffer(s, k, l); }
    forall k: SlotIndex | Serving(t.server, k) ensures t.slots[k].state.Pending? { assert Serving(s.server, k); }
  }

  lemma OwnershipKept(order: StoreOrder, s: Ring, a: Action)
    requires Ownership(order, s) && Enabled(s, a)
    ensures Ownership(order, Apply(order, s, a))
  {
    match a
    case GuestStep(g) =>
      if s.guests[g].Owning? {
        OwnershipOwning(order, s, g);
      } else {
        OwnershipScanning(order, s, g);
      }
    case ServerStep(answer, waiter) => OwnershipServer(order, s, answer, waiter);
    case _ => OwnershipMinor(order, s, a);
  }

  // ---- one dispatch per claim ----

  ghost predicate HasTicket(d: seq<Dispatched>, t: nat) {
    exists j :: 0 <= j < |d| && d[j].ticket == t
  }

  lemma HasTicketSnoc(d: seq<Dispatched>, e: Dispatched, t: nat)
    ensures HasTicket(d + [e], t) <==> HasTicket(d, t) || e.ticket == t
  {
    var d' := d + [e];
    if HasTicket(d, t) {
      var j :| 0 <= j < |d| && d[j].ticket == t;
      assert d'[j].ticket == t;
    }
    assert d'[|d|] == e;
  }

  /** How far claim k has come in the dispatcher's history. */
  ghost predicate ProgressOk(s: Ring, k: SlotIndex) {
    var slot := s.slots[k];
    && (slot.state.Done? ==> HasTicket(s.dispatched, slot.ticket))
    && (slot.state.Claimed? ==> !HasTicket(s.dispatched, slot.ticket))
    && (slot.state.Pending? ==>
          (HasTicket(s.dispatched, slot.ticket) <==>
             (s.server.StoreResponse? || s.server.StoreDone?) && s.server.slot == k))
  }

  ghost predicate DispatchedOnce(s: Ring) {
    && (forall i, j :: 0 <= i < j < |s.dispatched| ==> s.dispatched[i].ticket != s.dispatched[j].ticket)
    && (forall j :: 0 <= j < |s.dispatched| ==> s.dispatched[j].ticket < s.nextTicket)
  }

  ghost predicate ReturnedOnce(s: Ring) {
    && (forall i, j :: 0 <= i < j < |s.returned| ==> s.returned[i].ticket != s.returned[j].ticket)
    && (forall j :: 0 <= j < |s.returned| ==> s.returned[j].ticket < s.nextTicket)
    && (forall j :: 0 <= j < |s.returned| ==> HasTicket(s.dispatched, s.returned[j].ticket))
  }

  /** A claim still in the ring has not been returned yet. */
  predicate NotYetReturned(s: Ring, k: SlotIndex) {
    !s.slots[k].state.Free? ==> forall j :: 0 <= j < |s.returned| ==> s.returned[j].ticket != s.slots[k].ticket
  }

  ghost predicate History(s: Ring) {
    && DispatchedOnce(s) && ReturnedOnce(s)
    && (forall k: SlotIndex :: ProgressOk(s, k))
    && (forall k: SlotIndex :: NotYetReturned(s, k))
  }

  lemma HistoryOwning(order: StoreOrder, s: Ring, g: nat)
    requires g < |s.guests| && s.guests[g].Owning? && !s.guests[g].phase.Parked?
    requires Ownership(order, s) && History(s)
    ensures History(StepOwning(order, s, g))
  {
    var t := StepOwning(order, s, g);
    assert GuestOk(order, s, g) && SlotOk(s, s.guests[g].slot);
    assert ProgressOk(s, s.guests[g].slot) && NotYetReturned(s, s.guests[g].slot);
    forall k: SlotIndex ensures ProgressOk(t, k) {
      ProgressOwning(order, s, g, k);
    }
    forall k: SlotIndex ensures NotYetReturned(t, k) {
      assert NotYetReturned(s, k) && TicketsDiffer(s, k, s.guests[g].slot);
    }
  }

  lemma ProgressOwning(order: StoreOrder, s: Ring, g: nat, k: SlotIndex)
    requires g < |s.guests| && s.guests[g].Owning? && !s.guests[g].phase.Parked?
    requires GuestOk(order, s, g) && ServerOk(s) && ProgressOk(s, k)
    ensures ProgressOk(StepOwning(order, s, g), k)
  {
    assert Serving(s.server, k) ==> s.slots[k].state.Pending?;
  }

  lemma HistoryScanning(order: StoreOrder, s: Ring, g: nat)
    requires g < |s.guests| && s.guests[g].Scanning?
    requires Ownership(order, s) && History(s)
    ensures History(StepScanning(order, s, g))
  {
    var t := StepScanning(order, s, g);
    assert !HasTicket(s.dispatched, s.nextTicket);
    forall k: SlotIndex ensures ProgressOk(t, k) {
      ProgressScanning(order, s, g, k);
    }
    forall k: SlotIndex ensures NotYetReturned(t, k) {
      assert NotYetReturned(s, k);
    }
  }

  lemma ProgressScanning(order: StoreOrder, s: Ring, g: nat, k: SlotIndex)
    requires g < |s.guests| && s.guests[g].Scanning?
    requires ServerOk(s) && ProgressOk(s, k) && !HasTicket(s.dispatched, s.nextTicket)
    ensures ProgressOk(StepScanning(order, s, g), k)
  {
    assert Serving(s.server, k) ==> s.slots[k].state.Pending?;
  }

  lemma HistoryServer(order: StoreOrder, s: Ring, answer: Response, waiter: nat)
    requires Enabled(s, ServerStep(answer, waiter))
    requires Ownership(order, s) && History(s)
    ensures History(StepServer(s, answer, waiter))
  {
    var t := StepServer(s, answer, waiter);
    if s.server.Dispatch? {
      var k := s.server.slot;
      assert Serving(s.server, k) && ProgressOk(s, k) && SlotOk(s, k);
      assert !HasTicket(s.dispatched, s.slots[k].ticket);
    }
    forall x ensures HasTicket(s.dispatched, x) ==> HasTicket(t.dispatched, x) {
      DispatchGrows(s, answer, waiter, x);
    }
    forall k: SlotIndex ensures ProgressOk(t, k) {
      ProgressServer(order, s, answer, waiter, k);
    }
    forall k: SlotIndex ensures NotYetReturned(t, k) {
      assert NotYetReturned(s, k);
    }
  }

  lemma DispatchGrows(s: Ring, answer: Response, waiter: nat, x: nat)
    requires Enabled(s, ServerStep(answer, waiter))
    ensures HasTicket(StepServer(s, answer, waiter).dispatched, x) <==>
              HasTicket(s.dispatched, x) || (s.server.Dispatch? && s.slots[s.server.slot].ticket == x)
  {
    if s.server.Dispatch? {
      HasTicketSnoc(s.dispatched, Dispatched(s.slots[s.server.slot].ticket, s.server.req, answer), x);
    } else {
      assert s.dispatched + [] == s.dispatched;
    }
  }

  lemma ProgressServer(order: StoreOrder, s: Ring, answer: Response, waiter: nat, k: SlotIndex)
    requires Enabled(s, ServerStep(answer, waiter))
    requires ServerOk(s) && ProgressOk(s, k)
    requires s.server.Dispatch? ==> TicketsDiffer(s, k, s.server.slot)
    ensures ProgressOk(StepServer(s, answer, waiter), k)
  {
    DispatchGrows(s, answer, waiter, s.slots[k].ticket);
    assert Serving(s.server, k) ==> s.slots[k].state.Pending?;
    if s.server.Dispatch? {
      assert Serving(s.server, s.server.slot);
    }
  }

  lemma HistoryMinor(order: StoreOrder, s: Ring, a: Action)
    requires Enabled(s, a) && IsMinor(a) && Ownership(order, s) && History(s)
    ensures History(Apply(order, s, a))
  {
    var t := Apply(order, s, a);
    forall k: SlotIndex ensures ProgressOk(t, k) && NotYetReturned(t, k) {
      assert ProgressOk(s, k) && NotYetReturned(s, k);
    }
  }

  // ---- request/response matching ----

  /** The request a claim was answered for: what the server found in the slot when it copied it. */
  function Answered(claim: Claim, req: Request): Request {
    if claim.readEarly then claim.stale else req
  }

  /** Guest g's slot holds its request once written and the old one before; the response it copied is the slot's. */
  predicate PayloadOk(s: Ring, g: nat)
    requires g < |s.guests|
  {
    var me := s.guests[g];
    me.Owning? ==>
      && s.slots[me.slot].req == (if me.phase.WriteReq? then s.slots[me.slot].claim.stale else me.req)
      && (me.phase.Release? ==> me.resp == s.slots[me.slot].resp)
  }

  /** What the server holds for slot k answers the request it found there, and what the slot holds is that answer
      unless the owner has cleared it since. */
  ghost predicate ServedOk(s: Ring, k: SlotIndex) {
    var slot := s.slots[k];
    var g := slot.owner;
    !slot.state.Free? && Owns(s, g, k) ==>
      var req := Answered(slot.claim, s.guests[g].req);
      && (s.server.Dispatch? && s.server.slot == k ==> s.server.req == req)
      && (s.server.StoreResponse? && s.server.slot == k ==> Dispatched(slot.ticket, req, s.server.resp) in s.dispatched)
      && (s.server == StoreDone(k) || slot.state.Done? ==>
            && Dispatched(slot.ticket, req, slot.claim.answer) in s.dispatched
            && (WritingPayload(s.guests[g]) ==> slot.claim.answeredEarly)
            && slot.resp == (if slot.claim.answeredEarly && !WritingPayload(s.guests[g]) then EmptyResponse
                             else slot.claim.answer))
  }

  /** What submit() returned, given the history of its claim. */
  predicate ReturnOk(r: Returned, dispatched: seq<Dispatched>) {
    && Dispatched(r.ticket, Answered(r.claim, r.req), r.claim.answer) in dispatched
    && r.resp == if r.claim.answeredEarly then EmptyResponse else r.claim.answer
  }

  ghost predicate ReturnedOk(s: Ring) {
    forall j :: 0 <= j < |s.returned| ==> ReturnOk(s.returned[j], s.dispatched)
  }

  predicate NotEarly(claim: Claim) { !claim.readEarly && !claim.answeredEarly }

  /** In the documented order nothing is ever early. */
  ghost predicate NeverEarly(order: StoreOrder, s: Ring) {
    order.Documented? ==>
      && (forall k: SlotIndex :: NotEarly(s.slots[k].claim))
      && (forall j :: 0 <= j < |s.returned| ==> NotEarly(s.returned[j].claim))
  }

  ghost predicate Matching(order: StoreOrder, s: Ring) {
    && (forall g :: 0 <= g < |s.guests| ==> PayloadOk(s, g))
    && ReturnedOk(s) && (forall k: SlotIndex :: ServedOk(s, k))
    && NeverEarly(order, s)
  }

  lemma PayloadOwning(order: StoreOrder, s: Ring, g: nat, h: nat)
    requires g < |s.guests| && s.guests[g].Owning? && !s.guests[g].phase.Parked?
    requires h < |s.guests| && PayloadOk(s, g) && PayloadOk(s, h)
    requires GuestOk(order, s, g) && GuestOk(order, s, h)
    ensures PayloadOk(StepOwning(order, s, g), h)
  {
  }

  lemma ServedOwning(order: StoreOrder, s: Ring, g: nat, k: SlotIndex)
    requires g < |s.guests| && s.guests[g].Owning? && !s.guests[g].phase.Parked?
    requires GuestOk(order, s, g) && SlotOk(s, k) && ServerOk(s) && ServedOk(s, k)
    ensures ServedOk(StepOwning(order, s, g), k)
  {
    assert Serving(s.server, k) ==> s.slots[k].state.Pending?;
  }

  lemma MatchingOwning(order: StoreOrder, s: Ring, g: nat)
    requires g < |s.guests| && s.guests[g].Owning? && !s.guests[g].phase.Parked?
    requires Ownership(order, s) && Matching(order, s)
    ensures Matching(order, StepOwning(order, s, g))
  {
    var t := StepOwning(order, s, g);
    assert GuestOk(order, s, g) && PayloadOk(s, g) && SlotOk(s, s.guests[g].slot);
    forall h | 0 <= h < |t.guests| ensures PayloadOk(t, h) {
      assert GuestOk(order, s, h) && PayloadOk(s, h);
      PayloadOwning(order, s, g, h);
    }
    assert ServedOk(s, s.guests[g].slot);
    forall k: SlotIndex ensures ServedOk(t, k) {
      assert SlotOk(s, k) && ServedOk(s, k);
      ServedOwning(order, s, g, k);
    }
  }

  lemma ServedScanning(order: StoreOrder, s: Ring, g: nat, k: SlotIndex)
    requires g < |s.guests| && s.guests[g].Scanning?
    requires SlotOk(s, k) && ServerOk(s) && ServedOk(s, k)
    ensures ServedOk(StepScanning(order, s, g), k)
  {
    assert Serving(s.server, k) ==> s.slots[k].state.Pending?;
  }

  lemma MatchingScanning(order: StoreOrder, s: Ring, g: nat)
    requires g < |s.guests| && s.guests[g].Scanning?
    requires Ownership(order, s) && Matching(order, s)
    ensures Matching(order, StepScanning(order, s, g))
  {
    var t := StepScanning(order, s, g);
    forall h | 0 <= h < |t.guests| ensures PayloadOk(t, h) {
      assert GuestOk(order, s, h) && PayloadOk(s, h);
    }
    forall k: SlotIndex ensures ServedOk(t, k) {
      assert SlotOk(s, k) && ServedOk(s, k);
      ServedScanning(order, s, g, k);
    }
  }

  lemma PayloadServer(order: StoreOrder, s: Ring, answer: Response, waiter: nat, h: nat)
    requires Enabled(s, ServerStep(answer, waiter)) && ServerOk(s)
    requires h < |s.guests| && PayloadOk(s, h) && GuestOk(order, s, h)
    ensures PayloadOk(StepServer(s, answer, waiter), h)
  {
    if s.server.StoreResponse? {
      assert Serving(s.server, s.server.slot);
    }
  }

  lemma ServedServer(order: StoreOrder, s: Ring, answer: Response, waiter: nat, k: SlotIndex)
    requires Enabled(s, ServerStep(answer, waiter)) && ServerOk(s)
    requires SlotOk(s, k) && ServedOk(s, k)
    requires var g := s.slots[k].owner; g < |s.guests| ==> PayloadOk(s, g)
    ensures ServedOk(StepServer(s, answer, waiter), k)
  {
    assert Serving(s.server, k) ==> s.slots[k].state.Pending?;
    var t := StepServer(s, answer, waiter);
    assert s.dispatched <= t.dispatched;
    assert forall e :: e in s.dispatched ==> e in t.dispatched;
    if s.server.Dispatch? {
      assert t.dispatched[|s.dispatched|] == Dispatched(s.slots[s.server.slot].ticket, s.server.req, answer);
    }
  }

  lemma MatchingServer(order: StoreOrder, s: Ring, answer: Response, waiter: nat)
    requires Enabled(s, ServerStep(answer, waiter))
    requires Ownership(order, s) && Matching(order, s)
    ensures Matching(order, StepServer(s, answer, waiter))
  {
    var t := StepServer(s, answer, waiter);
    forall h | 0 <= h < |t.guests| ensures PayloadOk(t, h) {
      assert GuestOk(order, s, h) && PayloadOk(s, h);
      PayloadServer(order, s, answer, waiter, h);
    }
    if s.server.ReadRequest? || s.server.StoreResponse? {
      var k := s.server.slot;
      assert Serving(s.server, k) && SlotOk(s, k) && GuestOk(order, s, s.slots[k].owner);
    }
    assert forall e :: e in s.dispatched ==> e in t.dispatched;
    forall k: SlotIndex ensures ServedOk(t, k) {
      assert SlotOk(s, k) && ServedOk(s, k);
      ServedServer(order, s, answer, waiter, k);
    }
  }

  lemma MatchingMinor(order: StoreOrder, s: Ring, a: Action)
    requires Enabled(s, a) && IsMinor(a) && Ownership(order, s) && Matching(order, s)
    ensures Matching(order, Apply(order, s, a))
  {
    var t := Apply(order, s, a);
    forall h | 0 <= h < |t.guests| ensures PayloadOk(t, h) { assert PayloadOk(s, h); }
    forall k: SlotIndex ensures ServedOk(t, k) { assert ServedOk(s, k) && SlotOk(s, k); }
  }

  // ---- bump numbers ----

  predicate BumpCounted(s: Ring, k: SlotIndex) { s.slots[k].claim.bump <= s.serverBumps }

  /** Bump numbers recorded in the slots and by the server are not from the future, and the server only sleeps on the
      futex word it loaded. */
  ghost predicate Counting(s: Ring) {
    && (forall k: SlotIndex :: BumpCounted(s, k))
    && (s.server.WaitForWork? ==> s.server.loadedAt <= s.serverBumps)
    && (s.server.ServerParked? ==>
          s.server.loadedAt <= s.server.parkedAt <= s.serverBumps
          && s.server.loadedAt % WORD == s.server.parkedAt % WORD)
  }

  lemma CountingKept(order: StoreOrder, s: Ring, a: Action)
    requires Counting(s) && Enabled(s, a)
    ensures Counting(Apply(order, s, a))
  {
    var t := Apply(order, s, a);
    forall k: SlotIndex ensures BumpCounted(t, k) { assert BumpCounted(s, k); }
  }
}
