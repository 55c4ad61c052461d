// The promises of the admission ledger over every interleaving of the three handlers.
module AdmissionTheorems {
  import opened Results
  import opened ScoringPolicy
  import opened Replies
  import opened Admission
  import opened AdmissionInvariant
  import opened AdmissionProofs
  import WA = WalletAttempts
  import IT = IntegratorTracker

  lemma {:induction false} RunKeepsInv(c: Config, s: State, events: seq<Event>)
    requires Inv(c, s)
    ensures Inv(c, Run(c, s, events))
    decreases events
  {
    hide Inv, Apply;
    if events != [] {
      EventKeepsInv(c, s, events[0]);
      RunKeepsInv(c, Apply(c, s, events[0]), events[1..]);
    }
  }

  ghost predicate Reachable(c: Config, integrators: map<IT.ApiKey, nat>, s: State) {
    exists events :: s == Run(c, Initial(integrators), events)
  }

  lemma ReachableInv(c: Config, integrators: map<IT.ApiKey, nat>, s: State)
    requires Reachable(c, integrators, s)
    ensures Inv(c, s)
  {
    hide RequestOk;
    var events :| s == Run(c, Initial(integrators), events);
    assert QuotasOk(Initial(integrators)) by {
      forall key
        ensures QuotaOk(Initial(integrators), key)
      {
      }
    }
    RunKeepsInv(c, Initial(integrators), events);
  }

  // The wallet cap, in exact balance: attempts stays within max_attempts, and the slots recorded in
  // the current window and still held are attempts plus the surplus, which is at most the refunds
  // made in this window for attempts of earlier ones. So they are within max_attempts exactly while
  // the surplus is within what attempts leaves.
  lemma WalletCap(c: Config, integrators: map<IT.ApiKey, nat>, s: State, w: WA.Wallet)
    requires Reachable(c, integrators, s) && w in s.wallets
    ensures var attempts, past := s.wallets[w].attempts, Past(s, w);
            && attempts <= c.limits.maxAttempts
            && SlotsHeld(s, w) == attempts + past.surplus
            && past.surplus <= past.straddles
            && (SlotsHeld(s, w) <= c.limits.maxAttempts <==> past.surplus <= c.limits.maxAttempts - attempts)
  {
    hide RequestsOk, QuotasOk;
    ReachableInv(c, integrators, s);
    assert WalletOk(c, s, w);
  }

  // Quota conservation: used is the number of requests holding a deduction, within a finite quota.
  lemma QuotaConservation(c: Config, integrators: map<IT.ApiKey, nat>, s: State, key: IT.ApiKey)
    requires Reachable(c, integrators, s)
    ensures key in s.quotas ==>
              && s.quotas[key].used == QuotaHolders(s.requests, key)
              && (s.quotas[key].quota > 0 ==>
                    IT.GetRemaining(s.quotas, key) + QuotaHolders(s.requests, key) == s.quotas[key].quota)
    ensures key !in s.quotas ==> QuotaHolders(s.requests, key) == 0
  {
    hide RequestsOk, WalletsOk;
    ReachableInv(c, integrators, s);
    assert QuotaOk(s, key);
  }

  // The keys and limits are the configured ones.
  predicate Configured(integrators: map<IT.ApiKey, nat>, q: IT.Quotas) {
    q.Keys == integrators.Keys && forall key | key in q :: q[key].quota == integrators[key]
  }

  lemma {:induction false} RunKeepsConfigured(
      c: Config, integrators: map<IT.ApiKey, nat>, s: State, events: seq<Event>)
    requires Configured(integrators, s.quotas)
    ensures Configured(integrators, Run(c, s, events).quotas)
    decreases events
  {
    if events != [] {
      var s' := Apply(c, s, events[0]);
      assert Configured(integrators, s'.quotas) by {
        hide WA.RecordAnswer, WA.Recorded, WA.Refunded, Moved, HistoryAfterReturn;
      }
      RunKeepsConfigured(c, integrators, s', events[1..]);
    }
  }

  // A key is admitted exactly while it is configured and fewer requests hold its quota than it was
  // configured with, or that is no limit; and it is told what is left.
  lemma QuotaAdmitsExactlyBelowLimit(c: Config, integrators: map<IT.ApiKey, nat>, s: State, key: IT.ApiKey)
    requires Reachable(c, integrators, s)
    ensures IT.CanDeduct(s.quotas, key) <==>
            key in integrators && (integrators[key] == 0 || QuotaHolders(s.requests, key) < integrators[key])
    ensures IT.GetRemaining(s.quotas, key) ==
            if key !in integrators then 0
            else if integrators[key] == 0 then 0xFFFF_FFFF_FFFF_FFFF
            else integrators[key] - QuotaHolders(s.requests, key)
  {
    QuotaConservation(c, integrators, s, key);
    var events :| s == Run(c, Initial(integrators), events);
    RunKeepsConfigured(c, integrators, Initial(integrators), events);
  }

  // No request returns a budget twice, or one it does not hold, and no quota refund saturates.
  lemma RefundsAreExact(c: Config, integrators: map<IT.ApiKey, nat>, s: State, i: nat)
    requires Reachable(c, integrators, s) && i < |s.requests|
    ensures var r := s.requests[i];
            && r.quotaReturns <= 1 && r.slotReturns <= 1
            && (r.quotaHeld ==> r.quotaReturns == 0) && (r.slot.Some? ==> r.slotReturns == 0)
            && (r.pc.ReturningQuota? ==> r.quotaHeld && r.key in s.quotas && s.quotas[r.key].used >= 1)
            && (r.pc.ReturningSlot? ==> r.slot.Some?)
  {
    ReachableInv(c, integrators, s);
    var r := s.requests[i];
    assert RequestOk(c, r);
    hide RequestsOk, WalletsOk, Settle;
    HolderIsCounted(s.requests, i);
    assert QuotaOk(s, r.key);
  }

  // Exact settlement of a request that ran to completion: quota stays spent exactly when a
  // well-formed verdict was rendered, and the slot exactly when that verdict was a failure other
  // than a quality retry. A request that never got an answer holds nothing. A dropped one keeps all
  // it took if the drop was late, which is never for a session and always for a proof in flight, and
  // else nothing.
  lemma ExactSettlement(c: Config, integrators: map<IT.ApiKey, nat>, s: State, i: nat)
    requires Reachable(c, integrators, s) && i < |s.requests|
    requires s.requests[i].pc.Done?
    ensures var r := s.requests[i];
            match r.ending
            case Settled(reply, local, writes) =>
              && (r.quotaHeld <==> VerdictRendered(r.endpoint, reply))
              && (r.slot.Some? <==>
                    FailureRendered(r.endpoint, c.scoring, reply, local) && !QualityRetry(r.endpoint, reply, writes))
            case Registered => r.quotaHeld && r.slot.None?
            case Submitted => r.quotaHeld && r.slot.None?
            case Refused => !r.quotaHeld && r.slot.None?
            case NoVerdict => !r.quotaHeld && r.slot.None?
            case Dropped(late) =>
              && (r.quotaHeld <==> late) && (r.slot.Some? <==> late && !r.endpoint.Verify?)
              && (late ==> !r.endpoint.ValidateSession?) && (r.endpoint.Verify? ==> late)
            case Running => false
  {
    hide Settle, QuotasOk, WalletsOk;
    ReachableInv(c, integrators, s);
    var r := s.requests[i];
    assert RequestOk(c, r);
    if r.ending.Settled? {
      SettlementMatchesVerdict(r.endpoint, c.scoring, r.ending.reply, r.ending.local, r.ending.writesBaseline);
    }
  }

  // A finished request that is billed to its key.
  predicate Billed(r: Request, key: IT.ApiKey) {
    && r.key == key
    && match r.ending
       case Registered => true
       case Submitted => true
       case Settled(reply, _, _) => VerdictRendered(r.endpoint, reply)
       case Dropped(late) => late
       case _ => false
  }

  function BilledCount(rs: seq<Request>, key: IT.ApiKey): nat {
    if rs == [] then 0 else B(Billed(rs[0], key)) + BilledCount(rs[1..], key)
  }

  lemma {:induction false} HoldersAreBilled(rs: seq<Request>, key: IT.ApiKey)
    requires forall i | 0 <= i < |rs| :: HoldsQuota(rs[i], key) <==> Billed(rs[i], key)
    ensures QuotaHolders(rs, key) == BilledCount(rs, key)
  {
    if rs != [] {
      HoldersAreBilled(rs[1..], key);
    }
  }

  // At rest, a key has used exactly what it is billed for: verdicts, registrations, submitted proofs
  // and late drops.
  lemma QuotaBillsVerdicts(c: Config, integrators: map<IT.ApiKey, nat>, s: State, key: IT.ApiKey)
    requires Reachable(c, integrators, s) && key in s.quotas
    requires forall i | 0 <= i < |s.requests| :: s.requests[i].pc.Done?
    ensures s.quotas[key].used == BilledCount(s.requests, key)
  {
    QuotaConservation(c, integrators, s, key);
    hide VerdictRendered;
    forall i | 0 <= i < |s.requests|
      ensures HoldsQuota(s.requests[i], key) <==> Billed(s.requests[i], key)
    {
      ExactSettlement(c, integrators, s, i);
    }
    HoldersAreBilled(s.requests, key);
  }

  lemma {:induction false} RunThenApply(c: Config, s: State, events: seq<Event>, e: Event)
    ensures Run(c, s, events + [e]) == Apply(c, Run(c, s, events), e)
    decreases events
  {
    hide Apply;
    if events == [] {
      assert events + [e] == [e] && [e][1..] == [];
      assert Run(c, Apply(c, s, e), []) == Apply(c, s, e);
    } else {
      assert (events + [e])[1..] == events[1..] + [e];
      RunThenApply(c, Apply(c, s, events[0]), events[1..], e);
    }
  }

  lemma ReachableNext(c: Config, integrators: map<IT.ApiKey, nat>, s: State, e: Event)
    requires Reachable(c, integrators, s)
    ensures Reachable(c, integrators, Apply(c, s, e))
  {
    hide Apply;
    var events :| s == Run(c, Initial(integrators), events);
    RunThenApply(c, Initial(integrators), events, e);
  }

  // The two kinds of late drop, each reachable for every configured key and wallet.

  lemma MoveNext(c: Config, integrators: map<IT.ApiKey, nat>, s: State, r: Request, e: Event)
    requires Reachable(c, integrators, s) && s.requests == [r]
    requires (e.ReadIdentity? || e.Forward? || e.ClassifyProof? || e.Drop?) && e.i == 0
    ensures Reachable(c, integrators, s.(requests := [Moved(c, r, e)]))
  {
    hide Moved, Reachable;
    ReachableNext(c, integrators, s, e);
    assert Apply(c, s, e) == s.(requests := [Moved(c, r, e)]);
  }

  lemma AdmittedAlone(c: Config, integrators: map<IT.ApiKey, nat>, key: IT.ApiKey, w: WA.Wallet) returns (s: State)
    requires key in integrators && c.limits.maxAttempts >= 1
    ensures Reachable(c, integrators, s)
    ensures s.requests == [Request(ValidateFeatures, key, w, Guarded, Running, true, Some(1), 0, 0)]
  {
    hide Reachable;
    s := Initial(integrators);
    InitialIsReachable(c, integrators);
    ReachableNext(c, integrators, s, Arrive(ValidateFeatures, key, w));
    s := Apply(c, s, Arrive(ValidateFeatures, key, w));
    ReachableNext(c, integrators, s, RecordAttempt(0));
    s := Apply(c, s, RecordAttempt(0));
    assert s.requests == [Request(ValidateFeatures, key, w, SlotTaken, Running, false, Some(1), 0, 0)];
    ReachableNext(c, integrators, s, Deduct(0));
    s := Apply(c, s, Deduct(0));
  }

  lemma InitialIsReachable(c: Config, integrators: map<IT.ApiKey, nat>)
    ensures Reachable(c, integrators, Initial(integrators))
  {
    assert Initial(integrators) == Run(c, Initial(integrators), []);
  }

  lemma DropWhileReadingKeepsBoth(c: Config, integrators: map<IT.ApiKey, nat>, key: IT.ApiKey, w: WA.Wallet)
    requires key in integrators && c.limits.maxAttempts >= 1
    ensures exists s :: Reachable(c, integrators, s) && s.requests ==
              [Request(ValidateFeatures, key, w, Done, Dropped(true), true, Some(1), 0, 0)]
  {
    hide Reachable;
    var reply := Reply(200, None);
    var s := AdmittedAlone(c, integrators, key, w);
    MoveNext(c, integrators, s, s.requests[0], ReadIdentity(0, false));
    s := s.(requests := [Request(ValidateFeatures, key, w, Identified(false), Running, true, Some(1), 0, 0)]);
    MoveNext(c, integrators, s, s.requests[0], Forward(0, reply));
    s := s.(requests := [Request(ValidateFeatures, key, w, Answered(false, reply), Running, true, Some(1), 0, 0)]);
    MoveNext(c, integrators, s, s.requests[0], Drop(0));
  }

  lemma DropInFlightKeepsQuota(c: Config, integrators: map<IT.ApiKey, nat>, key: IT.ApiKey, w: WA.Wallet)
    requires key in integrators
    ensures exists s :: Reachable(c, integrators, s) && s.requests ==
              [Request(Verify, key, w, Done, Dropped(true), true, None, 0, 0)]
  {
    hide Reachable;
    var s := Initial(integrators);
    InitialIsReachable(c, integrators);
    ReachableNext(c, integrators, s, Arrive(Verify, key, w));
    s := Apply(c, s, Arrive(Verify, key, w));
    ReachableNext(c, integrators, s, Deduct(0));
    s := Apply(c, s, Deduct(0));
    assert s.requests == [Request(Verify, key, w, Deducted, Running, true, None, 0, 0)];
    MoveNext(c, integrators, s, s.requests[0], ClassifyProof(0, false, true));
    s := s.(requests := [Request(Verify, key, w, Submitting, Running, true, None, 0, 0)]);
    MoveNext(c, integrators, s, s.requests[0], Drop(0));
  }

  // Three requests of wallet 7, and the states of a run with a cap of 1 and a window of 10.
  function Visitor(
      pc: Pc, ending: Ending, quotaHeld: bool, slot: Option<nat>, quotaReturns: nat, slotReturns: nat): Request {
    Request(ValidateFeatures, "key", 7, pc, ending, quotaHeld, slot, quotaReturns, slotReturns)
  }

  function Ledger(now: nat, entry: WA.WalletState, past: History, used: nat,
                  requests: seq<Request>): State {
    State(now, map[7 := entry], map[7 := past], map["key" := IT.IntegratorState(0, used)], requests)
  }

  const ARRIVE := Arrive(ValidateFeatures, "key", 7)

  function Capped(scoring: ScoringConfig): Config {
    Config(WA.Limits(1, 10), scoring)
  }

  // The first request is admitted, and its window ends while it is in flight.
  lemma FirstAttempt(scoring: ScoringConfig)
    ensures Reachable(Capped(scoring), map["key" := 0],
                      Ledger(0, WA.WalletState(1, 0), History(1, 0, 0), 0,
                          [Visitor(SlotTaken, Running, false, Some(1), 0, 0)]))
  {
    var c, ints := Capped(scoring), map["key" := 0];
    var s0 := Initial(ints);
    InitialIsReachable(c, ints);
    ReachableNext(c, ints, s0, ARRIVE);
    var s1 := Apply(c, s0, ARRIVE);
    assert s1.requests == [Visitor(Arrived, Running, false, None, 0, 0)];
    ReachableNext(c, ints, s1, RecordAttempt(0));
    var s2 := Ledger(0, WA.WalletState(1, 0), History(1, 0, 0), 0, [Visitor(SlotTaken, Running, false, Some(1), 0, 0)]);
    assert Apply(c, s1, RecordAttempt(0)) == s2;
  }

  lemma FirstWindow(scoring: ScoringConfig)
    ensures Reachable(Capped(scoring), map["key" := 0],
                      Ledger(10, WA.WalletState(1, 0), History(1, 0, 0), 1,
                          [Visitor(Guarded, Running, true, Some(1), 0, 0)]))
  {
    FirstAttempt(scoring);
    var c, ints := Capped(scoring), map["key" := 0];
    var s2 := Ledger(0, WA.WalletState(1, 0), History(1, 0, 0), 0, [Visitor(SlotTaken, Running, false, Some(1), 0, 0)]);
    ReachableNext(c, ints, s2, Deduct(0));
    var s3 := Ledger(0, WA.WalletState(1, 0), History(1, 0, 0), 1, [Visitor(Guarded, Running, true, Some(1), 0, 0)]);
    assert Apply(c, s2, Deduct(0)) == s3;
    ReachableNext(c, ints, s3, Tick(10));
  }

  // A second request opens the next window and takes its only slot; the first one then fails.
  lemma SecondWindow(scoring: ScoringConfig)
    ensures Reachable(Capped(scoring), map["key" := 0],
                      Ledger(10, WA.WalletState(1, 10), History(2, 0, 0), 1,
                             [Visitor(ReturningQuota(true), NoVerdict, true, Some(1), 0, 0),
                              Visitor(SlotTaken, Running, false, Some(2), 0, 0)]))
  {
    FirstWindow(scoring);
    var c, ints := Capped(scoring), map["key" := 0];
    var first := Visitor(Guarded, Running, true, Some(1), 0, 0);
    var s0 := Ledger(10, WA.WalletState(1, 0), History(1, 0, 0), 1, [first]);
    ReachableNext(c, ints, s0, ARRIVE);
    var s1 := Ledger(10, WA.WalletState(1, 0), History(1, 0, 0), 1,
        [first, Visitor(Arrived, Running, false, None, 0, 0)]);
    assert Apply(c, s0, ARRIVE) == s1;
    ReachableNext(c, ints, s1, RecordAttempt(1));
    var s2 := Ledger(10, WA.WalletState(1, 10), History(2, 0, 0), 1,
        [first, Visitor(SlotTaken, Running, false, Some(2), 0, 0)]);
    assert Apply(c, s1, RecordAttempt(1)) == s2;
    ReachableNext(c, ints, s2, LeaveEarly(0));
  }

  // Its refund empties the counter of the new window.
  lemma StraddlingRefund(scoring: ScoringConfig)
    ensures Reachable(Capped(scoring), map["key" := 0],
                      Ledger(10, WA.WalletState(0, 10), History(2, 1, 1), 0,
                             [Visitor(Done, NoVerdict, false, None, 1, 1),
                              Visitor(SlotTaken, Running, false, Some(2), 0, 0)]))
  {
    SecondWindow(scoring);
    var c, ints := Capped(scoring), map["key" := 0];
    var second := Visitor(SlotTaken, Running, false, Some(2), 0, 0);
    var s0 := Ledger(10, WA.WalletState(1, 10), History(2, 0, 0), 1,
        [Visitor(ReturningQuota(true), NoVerdict, true, Some(1), 0, 0), second]);
    ReachableNext(c, ints, s0, ReturnQuota(0));
    var s1 := Ledger(10, WA.WalletState(1, 10), History(2, 0, 0), 0,
        [Visitor(ReturningSlot, NoVerdict, false, Some(1), 1, 0), second]);
    assert Apply(c, s0, ReturnQuota(0)) == s1;
    ReachableNext(c, ints, s1, ReturnSlot(0));
  }

  // The documented cap fails across windows: with a cap of 1, one refund of an attempt from the
  // previous window lets two unreturned attempts stand in the current one.
  lemma StraddlingRefundExceedsCap(scoring: ScoringConfig)
    ensures exists s :: Reachable(Capped(scoring), map["key" := 0], s) && 7 in s.wallets
                        && SlotsHeld(s, 7) == 2
  {
    StraddlingRefund(scoring);
    var c, ints := Capped(scoring), map["key" := 0];
    var first, second := Visitor(Done, NoVerdict, false, None, 1, 1), Visitor(SlotTaken, Running, false, Some(2), 0, 0);
    var s0 := Ledger(10, WA.WalletState(0, 10), History(2, 1, 1), 0, [first, second]);
    ReachableNext(c, ints, s0, ARRIVE);
    var s1 := Ledger(10, WA.WalletState(0, 10), History(2, 1, 1), 0,
        [first, second, Visitor(Arrived, Running, false, None, 0, 0)]);
    assert Apply(c, s0, ARRIVE) == s1;
    ReachableNext(c, ints, s1, RecordAttempt(2));
    var s2 := Ledger(10, WA.WalletState(1, 10), History(2, 1, 1), 0, [first, second, second]);
    assert Apply(c, s1, RecordAttempt(2)) == s2;
    TwoHold(first, second);
    assert Reachable(c, ints, s2) && Past(s2, 7).windows == 2;
  }

  lemma TwoHold(first: Request, second: Request)
    requires first.slot.None? && HoldsSlot(second, 7, 2)
    ensures SlotHolders([first, second, second], 7, 2) == 2
  {
    assert [first, second, second][1..] == [second, second];
    assert [second, second][1..] == [second];
    assert [second][1..] == [];
    assert SlotHolders([second], 7, 2) == 1;
  }
}
