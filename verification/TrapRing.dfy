/** The trap ring as a state machine. Every atomic access, payload copy, futex park and futex wake of the guest
    threads (TrapRing::submit) and of the server thread (TrapServer::run) is one step; a run is any interleaving. */
module TrapRing {

  const SLOTS: nat := 256
  const WORD: nat := 0x1_0000_0000

  datatype Request = Request(number: nat, args: seq<nat>, threadId: nat, kind: nat)

  datatype Response = Response(retval: int, isError: bool)

  const EmptyRequest := Request(0, [0, 0, 0, 0, 0, 0], 0, 0)
  const EmptyResponse := Response(0, false)

  /** When a claim becomes visible to the server: at the CAS, before the payload is written (AsWritten), or only
      after the payload (Documented). The second order needs the private state Claimed. */
  datatype StoreOrder = AsWritten | Documented

  datatype SlotState = Free | Claimed | Pending | Done

  /** History of one claim: the request the slot still held when it was claimed, whether the server copied the request
      before the owner had written it, whether the server stored the response before the owner had cleared it, the
      response the server stored, and the number of the owner's bump of the server futex. */
  datatype Claim = Claim(stale: Request, readEarly: bool, answeredEarly: bool, answer: Response, bump: nat)

  const NoClaim := Claim(EmptyRequest, false, false, EmptyResponse, 0)

  /** `owner`, `ticket` and `claim` are history: the guest that last claimed the slot, the number of that claim and what
      happened to it. */
  datatype Slot = Slot(state: SlotState, req: Request, resp: Response, futex: nat, owner: nat, ticket: nat,
                       claim: Claim)

  const InitialSlot := Slot(Free, EmptyRequest, EmptyResponse, 0, 0, 0, NoClaim)

  type SlotIndex = i: nat | i < SLOTS
  type ScanIndex = i: nat | i <= SLOTS
  type Slots = s: seq<Slot> | |s| == SLOTS witness seq(SLOTS, _ => InitialSlot)

  /** Program points of submit() after a successful claim. */
  datatype Phase =
    | WriteReq | WriteResp | ZeroFutex | Publish | Bump | WakeServer
    | LoadState | Wait | Parked | ReadResp | Release

  datatype Guest =
    | Outside
    | Scanning(next: ScanIndex, req: Request)
    | Owning(phase: Phase, slot: SlotIndex, ticket: nat, req: Request, resp: Response)

  /** Program points of TrapServer::run with waitForWork, tryConsume and complete inlined. `loadedAt` is the number of
      bumps when the server loaded its futex, `parkedAt` when it went to sleep. */
  datatype Server =
    | Stopped
    | LoopTop
    | CheckShutdown
    | LoadServerFutex
    | WaitForWork(loadedAt: nat)
    | ServerParked(loadedAt: nat, parkedAt: nat)
    | RecheckShutdown
    | ScanPending(next: ScanIndex)
    | ReadRequest(slot: SlotIndex)
    | Dispatch(slot: SlotIndex, req: Request)
    | StoreResponse(slot: SlotIndex, resp: Response)
    | StoreDone(slot: SlotIndex)
    | BumpGuest(slot: SlotIndex)
    | WakeGuest(slot: SlotIndex)

  /** History of the dispatcher: which claim it served, the request it was handed and what it answered. */
  datatype Dispatched = Dispatched(ticket: nat, req: Request, resp: Response)

  /** History of the guests: what a finished submit() was asked and what it returned. */
  datatype Returned = Returned(guest: nat, ticket: nat, req: Request, resp: Response, claim: Claim)

  /** `serverBumps` counts the increments of the server futex; the 32-bit word itself is ServerFutex(). */
  datatype Ring = Ring(
    slots: Slots,
    serverBumps: nat,
    shutdown: bool,
    running: bool,
    guests: seq<Guest>,
    server: Server,
    nextTicket: nat,
    dispatched: seq<Dispatched>,
    returned: seq<Returned>)
  {
    function ServerFutex(): nat { serverBumps % WORD }

    function WithGuest(g: nat, guest: Guest): Ring
      requires g < |guests|
    {
      this.(guests := guests[g := guest])
    }
  }

  function Initial(n: nat): Ring {
    Ring(seq(SLOTS, _ => InitialSlot), 0, false, true, seq(n, _ => Outside), LoopTop, 0, [], [])
  }

  /** Submit(g, r): guest g calls submit(r). GuestStep(g): its next instruction. GuestSpurious(g): its futex wait
      returns without a wake. ServerStep: the server's next instruction; `answer` is what the dispatcher computes and
      `waiter` the thread a FUTEX_WAKE picks. ServerTimeout: the server's wait ends by its 50 ms timeout. The last
      three are TrapServer::stop and requestShutdown. */
  datatype Action =
    | Submit(g: nat, req: Request)
    | GuestStep(g: nat)
    | GuestSpurious(g: nat)
    | ServerStep(answer: Response, waiter: nat)
    | ServerTimeout
    | ClearRunning
    | RaiseShutdown
    | WakeForShutdown

  predicate ParkedOn(s: Ring, g: nat, k: SlotIndex) {
    g < |s.guests| && s.guests[g].Owning? && s.guests[g].phase.Parked? && s.guests[g].slot == k
  }

  predicate Enabled(s: Ring, a: Action) {
    match a
    case Submit(g, _) => g < |s.guests| && s.guests[g].Outside?
    case GuestStep(g) =>
      g < |s.guests| && !s.guests[g].Outside? && !(s.guests[g].Owning? && s.guests[g].phase.Parked?)
    case GuestSpurious(g) =>
      g < |s.guests| && s.guests[g].Owning? && (s.guests[g].phase.Wait? || s.guests[g].phase.Parked?)
    case ServerStep(_, waiter) =>
      && !s.server.Stopped? && !s.server.ServerParked?
      && (s.server.WakeGuest? ==>
            // FUTEX_WAKE(1) wakes some waiter if there is one.
            ParkedOn(s, waiter, s.server.slot) || forall g | 0 <= g < |s.guests| :: !ParkedOn(s, g, s.server.slot))
    case ServerTimeout => s.server.ServerParked? || s.server.WaitForWork?
    case ClearRunning => true
    case RaiseShutdown => true
    case WakeForShutdown => true
  }

  function Apply(order: StoreOrder, s: Ring, a: Action): Ring
    requires Enabled(s, a)
  {
    match a
    case Submit(g, req) => s.WithGuest(g, Scanning(0, req))
    case GuestStep(g) =>
      if s.guests[g].Scanning? then StepScanning(order, s, g) else StepOwning(order, s, g)
    case GuestSpurious(g) => s.WithGuest(g, s.guests[g].(phase := LoadState))
    case ServerStep(answer, waiter) => StepServer(s, answer, waiter)
    case ServerTimeout => s.(server := RecheckShutdown)
    case ClearRunning => s.(running := false)
    case RaiseShutdown => s.(shutdown := true)
    case WakeForShutdown => if s.server.ServerParked? then s.(server := RecheckShutdown) else s
  }

  /** claimSlot: one CAS per slot; when all 256 are busy submit sleeps and rescans. */
  function StepScanning(order: StoreOrder, s: Ring, g: nat): Ring
    requires g < |s.guests| && s.guests[g].Scanning?
  {
    var Scanning(i, req) := s.guests[g];
    if i < SLOTS && s.slots[i].state.Free? then
      var claimed := if order.Documented? then Claimed else Pending;
      s.(slots := s.slots[i := s.slots[i].(state := claimed, owner := g, ticket := s.nextTicket,
                                             claim := NoClaim.(stale := s.slots[i].req))],
         guests := s.guests[g := Owning(WriteReq, i, s.nextTicket, req, EmptyResponse)],
         nextTicket := s.nextTicket + 1)
    else
      s.(guests := s.guests[g := Scanning(if i == SLOTS then 0 else i + 1, req)])
  }

  /** The rest of submit() on the claimed slot: the guest's next program point, given the slot it reads. */
  function GuestAfter(order: StoreOrder, me: Guest, slot: Slot): Guest
    requires me.Owning?
  {
    match me.phase
    case WriteReq => me.(phase := WriteResp)
    case WriteResp => me.(phase := ZeroFutex)
    case ZeroFutex => me.(phase := if order.Documented? then Publish else Bump)
    case Publish => me.(phase := Bump)
    case Bump => me.(phase := WakeServer)
    case WakeServer => me.(phase := LoadState)
    case LoadState => me.(phase := if slot.state.Done? then ReadResp else Wait)
    case Wait => me.(phase := if slot.futex == 0 then Parked else LoadState)
    case Parked => me
    case ReadResp => me.(phase := Release, resp := slot.resp)
    case Release => Outside
  }

  /** What the same instruction writes to the slot; `bumps` is the number of server bumps before it. */
  function SlotAfter(me: Guest, slot: Slot, bumps: nat): Slot
    requires me.Owning?
  {
    match me.phase
    case WriteReq => slot.(req := me.req)
    case WriteResp => slot.(resp := EmptyResponse)
    case ZeroFutex => slot.(futex := 0)
    case Publish => slot.(state := Pending)
    case Bump => slot.(claim := slot.claim.(bump := bumps + 1))
    case Release => slot.(state := Free)
    case _ => slot
  }

  function StepOwning(order: StoreOrder, s: Ring, g: nat): Ring
    requires g < |s.guests| && s.guests[g].Owning? && !s.guests[g].phase.Parked?
  {
    var me := s.guests[g];
    var slot := s.slots[me.slot];
    s.(slots := s.slots[me.slot := SlotAfter(me, slot, s.serverBumps)],
       guests := s.guests[g := GuestAfter(order, me, slot)],
       serverBumps := s.serverBumps + if me.phase.Bump? then 1 else 0,
       server := if me.phase.WakeServer? && s.server.ServerParked? then RecheckShutdown else s.server,
       returned := s.returned +
         if me.phase.Release? then [Returned(g, me.ticket, me.req, me.resp, slot.claim)] else [])
  }

  predicate WritingPayload(guest: Guest) {
    guest.Owning? && (guest.phase.WriteReq? || guest.phase.WriteResp?)
  }

  /** The owner of slot k has not written its request yet. */
  predicate RequestUnwritten(s: Ring, k: SlotIndex) {
    var g := s.slots[k].owner;
    g < |s.guests| && s.guests[g].Owning? && s.guests[g].slot == k && s.guests[g].phase.WriteReq?
  }

  /** The owner of slot k has not finished writing its payload. */
  predicate PayloadUnfinished(s: Ring, k: SlotIndex) {
    var g := s.slots[k].owner;
    g < |s.guests| && WritingPayload(s.guests[g]) && s.guests[g].slot == k
  }

  /** The server's next program point. */
  function ServerAfter(s: Ring, answer: Response): Server {
    match s.server
    case Stopped => Stopped
    case LoopTop => if s.running then CheckShutdown else Stopped
    case CheckShutdown => if s.shutdown then LoopTop else LoadServerFutex
    case LoadServerFutex => WaitForWork(s.serverBumps)
    case WaitForWork(loadedAt) =>
      if s.ServerFutex() == loadedAt % WORD then ServerParked(loadedAt, s.serverBumps) else RecheckShutdown
    case ServerParked(_, _) => s.server
    case RecheckShutdown => if s.shutdown then LoopTop else ScanPending(0)
    case ScanPending(i) =>
      if i == SLOTS then LoopTop else if s.slots[i].state.Pending? then ReadRequest(i) else ScanPending(i + 1)
    case ReadRequest(k) => Dispatch(k, s.slots[k].req)
    case Dispatch(k, req) => StoreResponse(k, answer)
    case StoreResponse(k, resp) => StoreDone(k)
    case StoreDone(k) => BumpGuest(k)
    case BumpGuest(k) => WakeGuest(k)
    case WakeGuest(k) => ScanPending(0)
  }

  /** What tryConsume and complete write to the slot they are at, one store at a time; tryConsume writes history
      only. */
  function ServerWrite(s: Ring, k: SlotIndex): Slot {
    var slot := s.slots[k];
    match s.server
    case ReadRequest(_) => slot.(claim := slot.claim.(readEarly := RequestUnwritten(s, k)))
    case StoreResponse(_, resp) =>
      slot.(resp := resp, claim := slot.claim.(answer := resp, answeredEarly := PayloadUnfinished(s, k)))
    case StoreDone(_) => slot.(state := Done)
    case BumpGuest(_) => slot.(futex := (slot.futex + 1) % WORD)
    case _ => slot
  }

  predicate AtSlot(server: Server) {
    server.ReadRequest? || server.StoreResponse? || server.StoreDone? || server.BumpGuest? || server.WakeGuest?
  }

  function StepServer(s: Ring, answer: Response, waiter: nat): Ring {
    s.(server := ServerAfter(s, answer),
       slots := if AtSlot(s.server) then s.slots[s.server.slot := ServerWrite(s, s.server.slot)] else s.slots,
       guests := if s.server.WakeGuest? && ParkedOn(s, waiter, s.server.slot)
                 then s.guests[waiter := s.guests[waiter].(phase := LoadState)] else s.guests,
       dispatched := s.dispatched +
         if s.server.Dispatch? then [Dispatched(s.slots[s.server.slot].ticket, s.server.req, answer)] else [])
  }

  // ---- runs ----

  datatype Outcome = Stuck | State(ring: Ring)

  function Run(order: StoreOrder, s: Ring, actions: seq<Action>): Outcome
    decreases |actions|
  {
    if actions == [] then State(s)
    else if Enabled(s, actions[0]) then Run(order, Apply(order, s, actions[0]), actions[1..])
    else Stuck
  }

  /** Some run of n guests and the server, from the initialised ring, ends in s. */
  ghost predicate Reachable(order: StoreOrder, n: nat, s: Ring) {
    exists actions :: Run(order, Initial(n), actions) == State(s)
  }
}
