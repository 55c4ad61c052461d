// When the cap of a wallet's window holds: the exact condition on a state under which no run that
// stays in the window lets more than max_attempts unreturned attempts stand.
module AdmissionCap {
  import opened Results
  import opened ScoringPolicy
  import opened Replies
  import opened Admission
  import opened AdmissionInvariant
  import opened AdmissionProofs
  import opened AdmissionTheorems
  import WA = WalletAttempts
  import IT = IntegratorTracker

  // The request can still give its slot back: it is in flight, and not past the answer of a
  // validator that has decided against it.
  ghost predicate MayReturn(c: Config, r: Request) {
    && r.slot.Some? && !r.pc.Done?
    && (r.pc.Answered? ==>
          exists local ::
            Settle(r.endpoint, c.scoring, r.pc.reply, local, r.pc.writesBaseline).returned != Nothing)
  }

  // An attempt of an earlier window that may still come back, and lower this window's counter.
  ghost predicate EarlierMayReturn(c: Config, s: State, w: WA.Wallet) {
    exists i :: 0 <= i < |s.requests| && Earlier(c, s, w, i)
  }

  ghost predicate Earlier(c: Config, s: State, w: WA.Wallet, i: nat)
    requires i < |s.requests|
  {
    var r := s.requests[i];
    r.wallet == w && MayReturn(c, r) && r.slot.value < Past(s, w).windows
  }

  predicate Live(c: Config, s: State, w: WA.Wallet) {
    WA.Live(c.limits, s.wallets, w, s.now)
  }

  // The run opens no further window of the wallet.
  predicate InWindow(c: Config, s: State, events: seq<Event>, w: WA.Wallet) {
    Past(Run(c, s, events), w).windows == Past(s, w).windows
  }

  ghost predicate CapHolds(c: Config, s: State, w: WA.Wallet) {
    forall events | InWindow(c, s, events, w) :: SlotsHeld(Run(c, s, events), w) <= c.limits.maxAttempts
  }

  // --- What one event does to a wallet ---

  // A request that cannot return its slot stays so.
  lemma StuckStaysStuck(c: Config, r: Request, e: Event)
    requires RequestOk(c, r) && r.slot.Some? && !MayReturn(c, r)
    ensures !MayReturn(c, Moved(c, r, e))
  {
    hide Settle;
    if r.pc.Answered? && e.SettleReply? {
      assert Settle(r.endpoint, c.scoring, r.pc.reply, e.local, r.pc.writesBaseline).returned == Nothing;
    }
  }

  // One request's step, as the wallets see it: other wallets keep entry and past; its own opens a
  // window, or keeps it, and then a slot appears only while the window is live and the surplus
  // rises from 0 only with the return of an earlier slot.
  ghost predicate StepOf(c: Config, s: State, s': State, j: nat)
    requires j < |s.requests| == |s'.requests|
  {
    var r, r' := s.requests[j], s'.requests[j];
    && s'.requests == s.requests[j := r'] && s'.now == s.now && r'.wallet == r.wallet
    && (forall w | w != r.wallet :: Past(s', w) == Past(s, w) && SameEntry(s, s', w))
    && (Past(s', r.wallet).windows > Past(s, r.wallet).windows || KeepsWindow(c, s, s', j))
  }

  predicate SameEntry(s: State, s': State, w: WA.Wallet) {
    (w in s'.wallets <==> w in s.wallets) && (w in s.wallets ==> s'.wallets[w] == s.wallets[w])
  }

  ghost predicate KeepsWindow(c: Config, s: State, s': State, j: nat)
    requires j < |s.requests| == |s'.requests|
  {
    var r, r' := s.requests[j], s'.requests[j];
    var w, past, past' := r.wallet, Past(s, r.wallet), Past(s', r.wallet);
    && past'.windows == past.windows
    && (r'.slot == r.slot || r'.slot.None? || (Live(c, s, w) && r'.slot == Some(past.windows)))
    && (w in s'.wallets <==> w in s.wallets)
    && (w in s.wallets ==> s'.wallets[w].windowStart == s.wallets[w].windowStart)
    && (past'.surplus == past.surplus || past.surplus > 0 || Earlier(c, s, w, j))
    && (r.slot.Some? && r'.slot.Some? && MayReturn(c, r') ==> r'.slot == r.slot && MayReturn(c, r))
  }

  lemma RecordIsStep(c: Config, s: State, j: nat)
    requires j < |s.requests| && RequestOk(c, s.requests[j]) && s.requests[j].slot.None?
    ensures |StepRecord(c, s, j).requests| == |s.requests| && StepOf(c, s, StepRecord(c, s, j), j)
  {
    hide RequestOk, MayReturn;
    var s', v := StepRecord(c, s, j), s.requests[j].wallet;
    RecordHistory(c, s, j);
    assert Live(c, s, v) ==> v in s.wallets && s'.wallets[v].windowStart == s.wallets[v].windowStart;
    forall w | w != v ensures Past(s', w) == Past(s, w) && SameEntry(s, s', w) {
      RecordLeavesOthers(c, s, j, w);
    }
  }

  lemma DeductIsStep(c: Config, s: State, j: nat)
    requires j < |s.requests|
    requires var r := s.requests[j]; r.pc.SlotTaken? || (r.pc.Arrived? && r.endpoint.Verify? && r.slot.None?)
    ensures |StepDeduct(s, j).requests| == |s.requests| && StepOf(c, s, StepDeduct(s, j), j)
  {
    hide IT.CanDeduct, IT.AfterDeduct;
  }

  lemma ReturnQuotaIsStep(c: Config, s: State, j: nat, slotToo: bool)
    requires j < |s.requests| && s.requests[j].pc == ReturningQuota(slotToo)
    ensures |StepReturnQuota(s, j, slotToo).requests| == |s.requests|
    ensures StepOf(c, s, StepReturnQuota(s, j, slotToo), j)
  {
    hide IT.AfterRefund;
  }

  lemma ReturnSlotIsStep(c: Config, s: State, j: nat)
    requires j < |s.requests| && s.requests[j].pc.ReturningSlot? && s.requests[j].slot.Some?
    ensures |StepReturnSlot(s, j).requests| == |s.requests| && StepOf(c, s, StepReturnSlot(s, j), j)
  {
  }

  lemma MoveIsStep(c: Config, s: State, j: nat, e: Event)
    requires j < |s.requests| && RequestOk(c, s.requests[j])
    ensures StepOf(c, s, Put(s, j, Moved(c, s.requests[j], e)), j)
  {
    var r := s.requests[j];
    MovedStaysOk(c, r, e);
    if r.slot.Some? && !MayReturn(c, r) {
      StuckStaysStuck(c, r, e);
    }
    hide RequestOk, MayReturn, Moved;
  }

  lemma RequestStepIsStep(c: Config, s: State, j: nat, e: Event)
    requires j < |s.requests| && RequestOk(c, s.requests[j])
    ensures var s' := RequestStep(c, s, j, e); |s'.requests| == |s.requests| && StepOf(c, s, s', j)
  {
    var r := s.requests[j];
    assert (r.pc.Arrived? ==> r.slot.None?) && (r.pc.ReturningSlot? ==> r.slot.Some?);
    MoveIsStep(c, s, j, e);
    NoStepIsStep(c, s, j);
    hide RequestOk, StepOf, StepRecord, StepDeduct, StepReturnQuota, StepReturnSlot, Moved;
    if e.RecordAttempt? && r.pc.Arrived? && !r.endpoint.Verify? {
      assert RequestOk(c, r);
      RecordIsStep(c, s, j);
    } else if e.Deduct? && (r.pc.SlotTaken? || (r.pc.Arrived? && r.endpoint.Verify?)) {
      DeductIsStep(c, s, j);
    } else if e.ReturnQuota? && r.pc.ReturningQuota? {
      ReturnQuotaIsStep(c, s, j, r.pc.slotToo);
    } else if e.ReturnSlot? && r.pc.ReturningSlot? {
      ReturnSlotIsStep(c, s, j);
    }
  }

  lemma NoStepIsStep(c: Config, s: State, j: nat)
    requires j < |s.requests|
    ensures StepOf(c, s, s, j)
  {
  }

  // --- States that stay within the cap ---

  ghost predicate Safe(c: Config, s: State, w: WA.Wallet) {
    && SlotsHeld(s, w) <= c.limits.maxAttempts
    && (Live(c, s, w) ==> Past(s, w).surplus == 0 && !EarlierMayReturn(c, s, w))
  }

  lemma WindowsOfStep(c: Config, s: State, s': State, j: nat, w: WA.Wallet)
    requires j < |s.requests| == |s'.requests| && StepOf(c, s, s', j)
    ensures Past(s', w).windows >= Past(s, w).windows
  {
    hide Earlier, MayReturn;
  }

  lemma NoEarlierAfterStep(c: Config, s: State, s': State, j: nat, w: WA.Wallet)
    requires j < |s.requests| == |s'.requests| && StepOf(c, s, s', j)
    requires Past(s', w).windows == Past(s, w).windows && !EarlierMayReturn(c, s, w)
    ensures !EarlierMayReturn(c, s', w)
  {
    forall i | 0 <= i < |s'.requests| ensures !Earlier(c, s', w, i) {
      assert !Earlier(c, s, w, i);
      if i == j && s.requests[j].wallet == w {
        assert KeepsWindow(c, s, s', j);
      }
    }
  }

  lemma StepKeepsSafe(c: Config, s: State, s': State, j: nat, w: WA.Wallet)
    requires j < |s.requests| == |s'.requests| && StepOf(c, s, s', j)
    requires Inv(c, s') && Safe(c, s, w) && Past(s', w).windows == Past(s, w).windows
    ensures Safe(c, s', w)
  {
    assert w in s'.wallets ==> WalletOk(c, s', w);
    hide Inv, MayReturn;
    HoldersAfterUpdate(s.requests, j, s'.requests[j], "", w, Past(s, w).windows);
    if !EarlierMayReturn(c, s, w) {
      assert !Earlier(c, s, w, j);
      NoEarlierAfterStep(c, s, s', j, w);
    }
    hide EarlierMayReturn;
  }

  // Time, eviction and arrivals: no slot moves, and no window comes back to life.
  lemma QuietKeepsSafe(c: Config, s: State, e: Event, w: WA.Wallet)
    requires (e.Tick? || e.Evict? || e.Arrive?) && Safe(c, s, w)
    ensures Past(Apply(c, s, e), w) == Past(s, w) && Safe(c, Apply(c, s, e), w)
  {
    hide MayReturn;
    var s' := Apply(c, s, e);
    if e.Arrive? {
      assert !MayReturn(c, s'.requests[|s.requests|]) by { NewcomerHoldsNothing(c, e.endpoint, e.key, e.wallet); }
      HoldersAfterArrival(s.requests, s'.requests[|s.requests|], "", w, Past(s, w).windows);
    }
    forall i | 0 <= i < |s'.requests| && Earlier(c, s', w, i) ensures EarlierMayReturn(c, s, w) {
      assert Earlier(c, s, w, i);
    }
  }

  lemma NewcomerHoldsNothing(c: Config, endpoint: Endpoint, key: IT.ApiKey, w: WA.Wallet)
    ensures !MayReturn(c, Request(endpoint, key, w, Arrived, Running, false, None, 0, 0))
  {
  }

  lemma EventKeepsSafe(c: Config, s: State, e: Event, w: WA.Wallet)
    requires Inv(c, s) && Safe(c, s, w)
    ensures Past(Apply(c, s, e), w).windows >= Past(s, w).windows
    ensures Past(Apply(c, s, e), w).windows == Past(s, w).windows ==> Safe(c, Apply(c, s, e), w)
  {
    EventKeepsInv(c, s, e);
    if e.Tick? || e.Evict? || e.Arrive? {
      QuietKeepsSafe(c, s, e, w);
    } else if e.i < |s.requests| {
      assert RequestOk(c, s.requests[e.i]);
      hide Inv, Safe, StepOf, RequestStep, RequestOk;
      var s' := RequestStep(c, s, e.i, e);
      RequestStepIsStep(c, s, e.i, e);
      WindowsOfStep(c, s, s', e.i, w);
      if Past(s', w).windows == Past(s, w).windows {
        StepKeepsSafe(c, s, s', e.i, w);
      }
    }
  }

  lemma WindowsNeverClose(c: Config, s: State, e: Event, w: WA.Wallet)
    requires Inv(c, s)
    ensures Past(Apply(c, s, e), w).windows >= Past(s, w).windows
  {
    if !e.Tick? && !e.Evict? && !e.Arrive? && e.i < |s.requests| {
      assert RequestOk(c, s.requests[e.i]);
      hide Inv, StepOf, RequestStep, RequestOk;
      RequestStepIsStep(c, s, e.i, e);
      WindowsOfStep(c, s, RequestStep(c, s, e.i, e), e.i, w);
    }
  }

  lemma {:induction false} WindowsNeverCloseInRuns(c: Config, s: State, events: seq<Event>, w: WA.Wallet)
    requires Inv(c, s)
    ensures Past(Run(c, s, events), w).windows >= Past(s, w).windows
    decreases events
  {
    hide Apply, Inv;
    if events != [] {
      WindowsNeverClose(c, s, events[0], w);
      EventKeepsInv(c, s, events[0]);
      WindowsNeverCloseInRuns(c, Apply(c, s, events[0]), events[1..], w);
    }
  }

  lemma {:induction false} SafeRunsStayWithinCap(c: Config, s: State, events: seq<Event>, w: WA.Wallet)
    requires Inv(c, s) && Safe(c, s, w) && InWindow(c, s, events, w)
    ensures SlotsHeld(Run(c, s, events), w) <= c.limits.maxAttempts
    decreases events
  {
    if events != [] {
      hide Apply, Inv, Safe;
      var s1 := Apply(c, s, events[0]);
      EventKeepsInv(c, s, events[0]);
      EventKeepsSafe(c, s, events[0], w);
      WindowsNeverCloseInRuns(c, s1, events[1..], w);
      SafeRunsStayWithinCap(c, s1, events[1..], w);
    }
  }

  // --- States from which a run exceeds the cap ---

  lemma {:induction false} RunOfConcat(c: Config, s: State, before: seq<Event>, after: seq<Event>)
    ensures Run(c, s, before + after) == Run(c, Run(c, s, before), after)
    decreases before
  {
    hide Apply;
    if before == [] {
      assert before + after == after;
    } else {
      assert (before + after)[1..] == before[1..] + after;
      RunOfConcat(c, Apply(c, s, before[0]), before[1..], after);
    }
  }

  // One more attempt in a live window below the cap.
  lemma OneMoreAttempt(c: Config, s: State, w: WA.Wallet)
    requires Live(c, s, w) && s.wallets[w].attempts < c.limits.maxAttempts
    ensures var s' := Run(c, s, [Arrive(ValidateFeatures, "", w), RecordAttempt(|s.requests|)]);
            && Live(c, s', w) && s'.wallets[w].attempts == s.wallets[w].attempts + 1 && Past(s', w) == Past(s, w)
            && |s'.requests| > |s.requests| && (forall i | 0 <= i < |s.requests| :: s'.requests[i] == s.requests[i])
  {
    var arrive, record := Arrive(ValidateFeatures, "", w), RecordAttempt(|s.requests|);
    var s1 := Apply(c, s, arrive);
    assert [arrive, record][1..] == [record] && [record][1..] == [];
    assert Run(c, s1, [record]) == Apply(c, s1, record) by {
      assert Run(c, Apply(c, s1, record), []) == Apply(c, s1, record);
    }
  }

  // Attempts up to the cap, in the same window and without touching the requests there are.
  lemma FillWindow(c: Config, s: State, w: WA.Wallet) returns (events: seq<Event>)
    requires Live(c, s, w) && s.wallets[w].attempts <= c.limits.maxAttempts
    ensures var s' := Run(c, s, events);
            && Live(c, s', w) && s'.wallets[w].attempts == c.limits.maxAttempts && Past(s', w) == Past(s, w)
            && |s'.requests| >= |s.requests| && (forall i | 0 <= i < |s.requests| :: s'.requests[i] == s.requests[i])
    decreases c.limits.maxAttempts - s.wallets[w].attempts
  {
    if s.wallets[w].attempts == c.limits.maxAttempts {
      events := [];
    } else {
      var first := [Arrive(ValidateFeatures, "", w), RecordAttempt(|s.requests|)];
      OneMoreAttempt(c, s, w);
      hide Run;
      var rest := FillWindow(c, Run(c, s, first), w);
      RunOfConcat(c, s, first, rest);
      events := first + rest;
    }
  }

  // A request on its way to return its slot: the stores its wallet sees are as they were.
  ghost predicate OnItsWay(c: Config, s: State, s': State, i: nat)
    requires i < |s.requests|
  {
    && i < |s'.requests| && s'.wallets == s.wallets && s'.history == s.history && s'.now == s.now
    && s'.requests[i].wallet == s.requests[i].wallet && s'.requests[i].slot == s.requests[i].slot
    && RequestOk(c, s'.requests[i]) && s'.requests[i].slot.Some?
  }

  predicate Leaving(pc: Pc) {
    pc == ReturningQuota(true) || pc.ReturningSlot?
  }

  lemma DeductOnTheWay(c: Config, s: State, s': State, i: nat)
    requires i < |s.requests| && OnItsWay(c, s, s', i) && !s'.requests[i].pc.Done? && !s'.requests[i].pc.Answered?
    ensures var t := Apply(c, s', Deduct(i));
            && OnItsWay(c, s, t, i)
            && (t.requests[i].pc.Guarded? || t.requests[i].pc.Identified? || Leaving(t.requests[i].pc))
  {
    hide Settle;
  }

  lemma LeaveOnTheWay(c: Config, s: State, s': State, i: nat)
    requires i < |s.requests| && OnItsWay(c, s, s', i)
    requires var pc := s'.requests[i].pc; pc.Guarded? || pc.Identified? || Leaving(pc)
    ensures var t := Apply(c, s', LeaveEarly(i)); OnItsWay(c, s, t, i) && Leaving(t.requests[i].pc)
  {
    hide Settle;
    MovedStaysOk(c, s'.requests[i], LeaveEarly(i));
  }

  lemma ReturnQuotaOnTheWay(c: Config, s: State, s': State, i: nat)
    requires i < |s.requests| && OnItsWay(c, s, s', i) && Leaving(s'.requests[i].pc)
    ensures var t := Apply(c, s', ReturnQuota(i)); OnItsWay(c, s, t, i) && t.requests[i].pc.ReturningSlot?
  {
    hide Settle;
  }

  lemma SettleOnTheWay(c: Config, s: State, i: nat, local: LocalRisks)
    requires i < |s.requests| && OnItsWay(c, s, s, i) && !s.requests[i].pc.Done?
    requires var r := s.requests[i];
             r.pc.Answered? ==>
               Settle(r.endpoint, c.scoring, r.pc.reply, local, r.pc.writesBaseline).returned != Nothing
    ensures var t := Apply(c, s, SettleReply(i, local));
            OnItsWay(c, s, t, i) && !t.requests[i].pc.Done? && !t.requests[i].pc.Answered?
  {
    hide Settle;
    MovedStaysOk(c, s.requests[i], SettleReply(i, local));
  }

  // The events that take a request from wherever it is to the return of its slot; those it is not
  // ready for change nothing.
  lemma WayToReturn(c: Config, s: State, i: nat, local: LocalRisks) returns (events: seq<Event>)
    requires i < |s.requests| && OnItsWay(c, s, s, i) && !s.requests[i].pc.Done?
    requires var r := s.requests[i];
             r.pc.Answered? ==>
               Settle(r.endpoint, c.scoring, r.pc.reply, local, r.pc.writesBaseline).returned != Nothing
    ensures var s' := Run(c, s, events); OnItsWay(c, s, s', i) && s'.requests[i].pc.ReturningSlot?
  {
    hide Settle, Apply, RequestOk;
    var e1, e2, e3, e4 := SettleReply(i, local), Deduct(i), LeaveEarly(i), ReturnQuota(i);
    SettleOnTheWay(c, s, i, local);
    DeductOnTheWay(c, s, Apply(c, s, e1), i);
    LeaveOnTheWay(c, s, Apply(c, Apply(c, s, e1), e2), i);
    ReturnQuotaOnTheWay(c, s, Apply(c, Apply(c, Apply(c, s, e1), e2), e3), i);
    RunThenApply(c, s, [], e1);
    RunThenApply(c, s, [] + [e1], e2);
    RunThenApply(c, s, [] + [e1] + [e2], e3);
    RunThenApply(c, s, [] + [e1] + [e2] + [e3], e4);
    events := [] + [e1] + [e2] + [e3] + [e4];
  }

  // With an earlier slot that may come back, a live window at its cap can be left with its counter
  // one lower and one slot more than it shows.
  lemma EarlierComesBack(c: Config, s: State, w: WA.Wallet, i: nat) returns (events: seq<Event>)
    requires Inv(c, s) && i < |s.requests| && Earlier(c, s, w, i)
    requires Live(c, s, w) && s.wallets[w].attempts == c.limits.maxAttempts
    ensures var s' := Run(c, s, events);
            && Live(c, s', w) && s'.wallets[w].attempts < c.limits.maxAttempts
            && Past(s', w).windows == Past(s, w).windows && Past(s', w).surplus == Past(s, w).surplus + 1
  {
    var r := s.requests[i];
    assert RequestOk(c, r);
    var local := if r.pc.Answered? then ReturningRisks(c, r) else LocalRisks(NonFinite, NonFinite);
    hide Settle;
    assert OnItsWay(c, s, s, i);
    var way := WayToReturn(c, s, i, local);
    var s1 := Run(c, s, way);
    RunThenApply(c, s, way, ReturnSlot(i));
    hide Run;
    events := way + [ReturnSlot(i)];
  }

  ghost function ReturningRisks(c: Config, r: Request): (local: LocalRisks)
    requires MayReturn(c, r) && r.pc.Answered?
    ensures Settle(r.endpoint, c.scoring, r.pc.reply, local, r.pc.writesBaseline).returned != Nothing
  {
    var local :| Settle(r.endpoint, c.scoring, r.pc.reply, local, r.pc.writesBaseline).returned != Nothing;
    local
  }

  // --- Main result ---

  // In a live window the cap holds, whatever happens before the window ends, exactly if there is no
  // surplus and no attempt of an earlier window that may still come back. In a window that has
  // ended it holds exactly if it holds now.
  lemma CapHoldsExactly(c: Config, integrators: map<IT.ApiKey, nat>, s: State, w: WA.Wallet)
    requires Reachable(c, integrators, s) && w in s.wallets
    ensures CapHolds(c, s, w) <==>
            if Live(c, s, w) then Past(s, w).surplus == 0 && !EarlierMayReturn(c, s, w)
            else SlotsHeld(s, w) <= c.limits.maxAttempts
  {
    ReachableInv(c, integrators, s);
    WalletCap(c, integrators, s, w);
    hide Reachable, Inv;
    if Safe(c, s, w) {
      forall events | InWindow(c, s, events, w) ensures SlotsHeld(Run(c, s, events), w) <= c.limits.maxAttempts {
        SafeRunsStayWithinCap(c, s, events, w);
      }
    } else {
      var events := RunPastCap(c, s, w);
    }
  }

  lemma RunPastCap(c: Config, s: State, w: WA.Wallet) returns (events: seq<Event>)
    requires Inv(c, s) && w in s.wallets && !Safe(c, s, w)
    ensures InWindow(c, s, events, w) && SlotsHeld(Run(c, s, events), w) > c.limits.maxAttempts
  {
    assert WalletOk(c, s, w);
    if !Live(c, s, w) || SlotsHeld(s, w) > c.limits.maxAttempts {
      events := [];
    } else {
      events := FillWindow(c, s, w);
      var s1 := Run(c, s, events);
      RunKeepsInv(c, s, events);
      assert WalletOk(c, s1, w);
      if Past(s, w).surplus == 0 {
        var i :| 0 <= i < |s.requests| && Earlier(c, s, w, i);
        var back := EarlierComesBack(c, s1, w, i);
        RunOfConcat(c, s, events, back);
        var s2 := Run(c, s1, back);
        RunKeepsInv(c, s1, back);
        assert WalletOk(c, s2, w);
        var more := FillWindow(c, s2, w);
        RunOfConcat(c, s, events + back, more);
        RunKeepsInv(c, s2, more);
        assert WalletOk(c, Run(c, s2, more), w);
        events := events + back + more;
      }
    }
  }
}
