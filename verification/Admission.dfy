// The admission ledger: any number of requests to /validate-features, /validate-session and
// /verify, interleaved one atomic store operation at a time (src/validation/handler.rs,
// src/paired/finalize.rs, src/relayer/handler.rs). Each request is a program counter over its
// handler; a dropped future is a step of its own.
module Admission {
  import opened Results
  import opened ScoringPolicy
  import opened Replies
  import WA = WalletAttempts
  import IT = IntegratorTracker

  datatype Config = Config(limits: WA.Limits, scoring: ScoringConfig)

  datatype Pc =
    | Arrived                                      // nothing taken yet
    | SlotTaken                                    // wallet attempt recorded, quota not deducted
    | Guarded                                      // both taken, the budget guard armed
    | Identified(writesBaseline: bool)             // the guard still armed, identity read
    | Answered(writesBaseline: bool, reply: Reply) // the guard disarmed, the reply to be settled
    | Deducted                                     // /verify: quota taken
    | Submitting                                   // /verify: the proof is in flight
    | ReturningQuota(slotToo: bool)                // about to return quota, then perhaps the slot
    | ReturningSlot                                // about to return the slot
    | Done

  // How a request left the path of its handler.
  datatype Ending =
    | Running
    | Refused                                      // not admitted
    | Dropped(late: bool)                          // its future was dropped at an await, late: past any refund
    | NoVerdict                                    // left before an answer could be settled
    | Settled(reply: Reply, local: LocalRisks, writesBaseline: bool)
    | Registered                                   // /verify: first verification, no proof
    | Submitted                                    // /verify: the proof was submitted

  // quotaHeld, slot and the two counters record what the request's own store operations did:
  // slot is the wallet window its attempt was recorded in, while it is not returned.
  datatype Request = Request(
    endpoint: Endpoint, key: IT.ApiKey, wallet: WA.Wallet, pc: Pc, ending: Ending,
    quotaHeld: bool, slot: Option<nat>, quotaReturns: nat, slotReturns: nat)

  // What happened to one wallet: the windows it has opened, the refunds made in its current window
  // for attempts recorded in earlier ones, and the surplus: those of them that lowered the counter,
  // less the refunds of this window's own attempts that found it at 0.
  datatype History = History(windows: nat, straddles: nat, surplus: nat)

  // history is a record only; no step depends on it.
  datatype State = State(
    now: nat, wallets: WA.Store, history: map<WA.Wallet, History>, quotas: IT.Quotas, requests: seq<Request>)

  datatype Event =
    | Tick(elapsed: nat)
    | Evict
    | Arrive(endpoint: Endpoint, key: IT.ApiKey, wallet: WA.Wallet)
    | RecordAttempt(i: nat)
    | Deduct(i: nat)
    | ReadIdentity(i: nat, writesBaseline: bool)
    | LeaveEarly(i: nat)                                 // an error before forwarding, or no validator configured
    | Drop(i: nat)                                       // the client went away at an await
    | Forward(i: nat, reply: Reply)                      // the validator answered
    | SettleReply(i: nat, local: LocalRisks)
    | ClassifyProof(i: nat, first: bool, wellShaped: bool)
    | SubmitProof(i: nat, accepted: bool)
    | ReturnQuota(i: nat)
    | ReturnSlot(i: nat)

  function Initial(integrators: map<IT.ApiKey, nat>): State {
    State(0, map[], map[], IT.Fresh(integrators), [])
  }

  function Past(s: State, w: WA.Wallet): History {
    if w in s.history then s.history[w] else History(0, 0, 0)
  }

  function Put(s: State, i: nat, r: Request): State
    requires i < |s.requests|
  {
    s.(requests := s.requests[i := r])
  }

  // check_and_record_attempt, the first store operation of a validation request.
  function StepRecord(c: Config, s: State, i: nat): State
    requires i < |s.requests|
  {
    var r := s.requests[i];
    var w := r.wallet;
    var past := Past(s, w);
    var current := if WA.Live(c.limits, s.wallets, w, s.now) then past else History(past.windows + 1, 0, 0);
    var s' := s.(wallets := WA.Recorded(c.limits, s.wallets, w, s.now), history := s.history[w := current]);
    if WA.RecordAnswer(c.limits, s.wallets, w, s.now).Allowed?
    then Put(s', i, r.(pc := SlotTaken, slot := Some(current.windows)))
    else Put(s', i, r.(pc := Done, ending := Refused))
  }

  // check_and_deduct. A validation request that is refused here gives its slot back.
  function StepDeduct(s: State, i: nat): State
    requires i < |s.requests|
  {
    var r := s.requests[i];
    var s' := s.(quotas := IT.AfterDeduct(s.quotas, r.key));
    if IT.CanDeduct(s.quotas, r.key)
    then Put(s', i, r.(pc := if r.endpoint.Verify? then Deducted else Guarded, quotaHeld := true))
    else Put(s', i, r.(pc := if r.endpoint.Verify? then Done else ReturningSlot, ending := Refused))
  }

  function StepReturnQuota(s: State, i: nat, slotToo: bool): State
    requires i < |s.requests|
  {
    var r := s.requests[i];
    Put(s.(quotas := IT.AfterRefund(s.quotas, r.key)), i,
        r.(pc := if slotToo then ReturningSlot else Done, quotaHeld := false, quotaReturns := r.quotaReturns + 1))
  }

  // A refund that lowers the counter for an earlier window leaves one slot more than the counter
  // says; one for this window that finds nothing to lower takes one such slot away.
  function HistoryAfterReturn(s: State, w: WA.Wallet, straddling: bool): History {
    var past := Past(s, w);
    var positive := w in s.wallets && s.wallets[w].attempts > 0;
    if straddling then
      past.(straddles := past.straddles + 1, surplus := if positive then past.surplus + 1 else past.surplus)
    else if positive || past.surplus == 0 then past
    else past.(surplus := past.surplus - 1)
  }

  function StepReturnSlot(s: State, i: nat): State
    requires i < |s.requests|
  {
    var r := s.requests[i];
    var w := r.wallet;
    var straddling := r.slot.Some? && r.slot.value < Past(s, w).windows;
    var history := s.history[w := HistoryAfterReturn(s, w, straddling)];
    Put(s.(wallets := WA.Refunded(s.wallets, w), history := history), i,
        r.(pc := Done, slot := None, slotReturns := r.slotReturns + 1))
  }

  // The guard's refund, by an early return, an unreachable validator or a dropped future.
  function GuardRefund(r: Request, ending: Ending): Request {
    r.(pc := ReturningQuota(true), ending := ending)
  }

  function SettledBy(c: Config, r: Request, reply: Reply, local: LocalRisks, writesBaseline: bool): Request {
    var next := match Settle(r.endpoint, c.scoring, reply, local, writesBaseline).returned
                case Nothing => Done
                case SlotOnly => ReturningSlot
                case Both => ReturningQuota(true);
    r.(pc := next, ending := Settled(reply, local, writesBaseline))
  }

  // The statuses whose body /validate-features reads; any other is settled without an await.
  predicate AwaitsBody(status: nat) {
    IsSuccess(status) || status == BAD_REQUEST || status == CONFLICT
  }

  // The steps of a handler that touch no store.
  function Moved(c: Config, r: Request, e: Event): Request {
    match r.pc
    case Guarded =>
      // /validate-features never forwards a baseline write.
      if e.ReadIdentity? then
        if r.endpoint.ValidateFeatures? && e.writesBaseline then GuardRefund(r, NoVerdict)
        else r.(pc := Identified(e.writesBaseline))
      else if e.LeaveEarly? then GuardRefund(r, NoVerdict)
      else if e.Drop? then GuardRefund(r, Dropped(false))
      else r
    case Identified(writes) =>
      if e.Forward? then r.(pc := Answered(writes, e.reply))
      else if e.LeaveEarly? then GuardRefund(r, NoVerdict)
      else if e.Drop? then GuardRefund(r, Dropped(false))
      else r
    case Answered(writes, reply) =>
      if e.SettleReply? then SettledBy(c, r, reply, e.local, writes)
      // /validate-features reads the body after disarming the guard, /validate-session before.
      else if e.Drop? && r.endpoint.ValidateFeatures? && AwaitsBody(reply.status)
      then r.(pc := Done, ending := Dropped(true))
      else r
    case Deducted =>
      if e.ClassifyProof? then
        if e.first then r.(pc := Done, ending := Registered)
        else if e.wellShaped then r.(pc := Submitting)
        else r.(pc := ReturningQuota(false), ending := NoVerdict)
      else r
    case Submitting =>
      if e.SubmitProof? then
        if e.accepted then r.(pc := Done, ending := Submitted)
        else r.(pc := ReturningQuota(false), ending := NoVerdict)
      // /verify has no guard: dropping it in flight keeps the quota spent.
      else if e.Drop? then r.(pc := Done, ending := Dropped(true))
      else r
    case _ => r
  }

  function RequestStep(c: Config, s: State, i: nat, e: Event): State
    requires i < |s.requests|
  {
    var r := s.requests[i];
    if e.RecordAttempt? then
      if r.pc.Arrived? && !r.endpoint.Verify? then StepRecord(c, s, i) else s
    else if e.Deduct? then
      if r.pc.SlotTaken? || (r.pc.Arrived? && r.endpoint.Verify?) then StepDeduct(s, i) else s
    else if e.ReturnQuota? then
      if r.pc.ReturningQuota? then StepReturnQuota(s, i, r.pc.slotToo) else s
    else if e.ReturnSlot? then
      if r.pc.ReturningSlot? then StepReturnSlot(s, i) else s
    else Put(s, i, Moved(c, r, e))
  }

  // One event. An event its target is not ready for changes nothing.
  function Apply(c: Config, s: State, e: Event): State {
    match e
    case Tick(elapsed) => s.(now := s.now + elapsed)
    case Evict => s.(wallets := WA.Evicted(c.limits, s.wallets, s.now))
    case Arrive(endpoint, key, wallet) =>
      s.(requests := s.requests + [Request(endpoint, key, wallet, Arrived, Running, false, None, 0, 0)])
    case _ => if e.i < |s.requests| then RequestStep(c, s, e.i, e) else s
  }

  function Run(c: Config, s: State, events: seq<Event>): State
    decreases events
  {
    if events == [] then s else Run(c, Apply(c, s, events[0]), events[1..])
  }
}
