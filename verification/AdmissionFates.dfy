// What each decisive step of a handler means for the budgets in the end, whatever else happens
// before the request is finished: the fate of a request is the one its step decides, on every
// continuation of every reachable state.
module AdmissionFates {
  import opened Results
  import opened ScoringPolicy
  import opened Replies
  import opened Admission
  import opened AdmissionInvariant
  import opened AdmissionProofs
  import opened AdmissionTheorems
  import WA = WalletAttempts
  import IT = IntegratorTracker

  // --- A request that has ended stays ended the same way ---

  predicate SameRequest(s: State, s': State, i: nat)
    requires i < |s.requests|
  {
    && i < |s'.requests| && s'.requests[i].endpoint == s.requests[i].endpoint
    && s'.requests[i].wallet == s.requests[i].wallet && s'.requests[i].key == s.requests[i].key
  }

  predicate Ended(pc: Pc) {
    pc.ReturningQuota? || pc.ReturningSlot? || pc.Done?
  }

  // An event of another request, or of none, leaves it alone.
  predicate Targets(e: Event, i: nat) {
    !e.Tick? && !e.Evict? && !e.Arrive? && e.i == i
  }

  lemma OthersLeaveRequestAlone(c: Config, s: State, e: Event, i: nat)
    requires i < |s.requests| && !Targets(e, i)
    ensures var s' := Apply(c, s, e); i < |s'.requests| && s'.requests[i] == s.requests[i]
  {
    hide WA.RecordAnswer, WA.Recorded, WA.Live, WA.Refunded, IT.CanDeduct, IT.AfterDeduct, IT.AfterRefund, Moved,
      HistoryAfterReturn;
  }

  lemma EndingAfter(c: Config, s: State, e: Event, i: nat)
    requires i < |s.requests| && Ended(s.requests[i].pc)
    ensures var s' := Apply(c, s, e);
            SameRequest(s, s', i) && Ended(s'.requests[i].pc) && s'.requests[i].ending == s.requests[i].ending
  {
    if Targets(e, i) {
      hide WA.RecordAnswer, WA.Recorded, WA.Live, WA.Refunded, IT.CanDeduct, IT.AfterDeduct, IT.AfterRefund, Settle,
        StepRecord, StepDeduct, HistoryAfterReturn;
    } else {
      OthersLeaveRequestAlone(c, s, e, i);
      hide Apply;
    }
  }

  lemma {:induction false} EndingIsFinal(c: Config, s: State, events: seq<Event>, i: nat)
    requires i < |s.requests| && Ended(s.requests[i].pc)
    ensures var s' := Run(c, s, events);
            SameRequest(s, s', i) && Ended(s'.requests[i].pc) && s'.requests[i].ending == s.requests[i].ending
    decreases events
  {
    if events != [] {
      hide Apply;
      EndingAfter(c, s, events[0], i);
      EndingIsFinal(c, Apply(c, s, events[0]), events[1..], i);
    }
  }

  lemma {:induction false} ReachableRun(c: Config, integrators: map<IT.ApiKey, nat>, s: State, events: seq<Event>)
    requires Reachable(c, integrators, s)
    ensures Reachable(c, integrators, Run(c, s, events))
    decreases events
  {
    hide Reachable, Apply;
    if events != [] {
      ReachableNext(c, integrators, s, events[0]);
      ReachableRun(c, integrators, Apply(c, s, events[0]), events[1..]);
    }
  }

  // A request that has ended is done after the returns it still owes.
  lemma EndedCanFinish(c: Config, s: State, i: nat)
    requires i < |s.requests| && Ended(s.requests[i].pc)
    ensures var s' := Run(c, s, [ReturnQuota(i), ReturnSlot(i)]); i < |s'.requests| && s'.requests[i].pc.Done?
  {
    var s1 := Apply(c, s, ReturnQuota(i));
    assert [ReturnQuota(i), ReturnSlot(i)][1..] == [ReturnSlot(i)] && [ReturnSlot(i)][1..] == [];
    assert Run(c, s, [ReturnQuota(i), ReturnSlot(i)]) == Run(c, s1, [ReturnSlot(i)]);
    assert Run(c, s1, [ReturnSlot(i)]) == Apply(c, s1, ReturnSlot(i));
    hide WA.Refunded, IT.AfterRefund, HistoryAfterReturn;
  }

  // The request in the state that a step and a continuation lead to.
  function Later(c: Config, s: State, e: Event, events: seq<Event>): State {
    Run(c, Apply(c, s, e), events)
  }

  // A step that ends a request decides what a finished request holds.
  lemma StepDecides(c: Config, integrators: map<IT.ApiKey, nat>, s: State, e: Event, events: seq<Event>, i: nat)
    requires Reachable(c, integrators, s) && i < |s.requests|
    requires var s1 := Apply(c, s, e); SameRequest(s, s1, i) && Ended(s1.requests[i].pc)
    ensures var s1, s' := Apply(c, s, e), Later(c, s, e, events);
            && SameRequest(s, s', i) && Ended(s'.requests[i].pc)
            && s'.requests[i].ending == s1.requests[i].ending
    ensures Reachable(c, integrators, Later(c, s, e, events))
  {
    hide Reachable, Apply;
    ReachableNext(c, integrators, s, e);
    ReachableRun(c, integrators, Apply(c, s, e), events);
    EndingIsFinal(c, Apply(c, s, e), events, i);
  }

  // --- Admission ---

  // A validation request takes a slot of its wallet's current window if its attempt is allowed, and
  // ends without one otherwise.
  lemma AttemptDecides(c: Config, s: State, i: nat)
    requires i < |s.requests| && s.requests[i].pc.Arrived? && !s.requests[i].endpoint.Verify?
    ensures var r, s1 := s.requests[i], Apply(c, s, RecordAttempt(i));
            && i < |s1.requests|
            && s1.requests[i] ==
               if WA.RecordAnswer(c.limits, s.wallets, r.wallet, s.now).Allowed?
               then r.(pc := SlotTaken, slot := Some(Past(s1, r.wallet).windows))
               else r.(pc := Done, ending := Refused)
  {
    hide WA.RecordAnswer, WA.Recorded, WA.Live;
  }

  // A /verify request takes one unit of its key's quota if there is one, and ends without one otherwise.
  lemma DeductionDecides(c: Config, s: State, i: nat)
    requires i < |s.requests| && s.requests[i].pc.Arrived? && s.requests[i].endpoint.Verify?
    ensures var r, s1 := s.requests[i], Apply(c, s, Deduct(i));
            && i < |s1.requests|
            && s1.requests[i] ==
               if IT.CanDeduct(s.quotas, r.key) then r.(pc := Deducted, quotaHeld := true)
               else r.(pc := Done, ending := Refused)
  {
    hide IT.CanDeduct, IT.AfterDeduct;
  }

  // An eviction keeps exactly the wallets with a live window or attempts on record, as they are, and
  // changes no answer.
  lemma EvictionOnlyForgets(c: Config, s: State, w: WA.Wallet)
    ensures var wallets := Apply(c, s, Evict).wallets;
            && (w in wallets <==>
                  w in s.wallets && (WA.Live(c.limits, s.wallets, w, s.now) || s.wallets[w].attempts > 0))
            && (w in wallets ==> wallets[w] == s.wallets[w])
            && WA.RecordAnswer(c.limits, wallets, w, s.now) == WA.RecordAnswer(c.limits, s.wallets, w, s.now)
            && WA.CheckAnswer(c.limits, wallets, w, s.now) == WA.CheckAnswer(c.limits, s.wallets, w, s.now)
  {
  }

  // --- /verify ---

  // An accepted proof is billed, a failed submission is refunded, and a dropped one is billed; each of
  // the three ends the request.
  lemma SubmissionDecides(
      c: Config, integrators: map<IT.ApiKey, nat>, s: State, i: nat, accepted: bool, events: seq<Event>)
    requires Reachable(c, integrators, s) && i < |s.requests| && s.requests[i].pc.Submitting?
    ensures var s' := Later(c, s, SubmitProof(i, accepted), events);
            && SameRequest(s, s', i) && Ended(s'.requests[i].pc)
            && (s'.requests[i].pc.Done? ==> (s'.requests[i].quotaHeld <==> accepted) && s'.requests[i].slot.None?)
    ensures var s' := Later(c, s, Drop(i), events);
            && SameRequest(s, s', i) && Ended(s'.requests[i].pc)
            && (s'.requests[i].pc.Done? ==> s'.requests[i].quotaHeld)
  {
    StepDecides(c, integrators, s, SubmitProof(i, accepted), events, i);
    StepDecides(c, integrators, s, Drop(i), events, i);
    hide Apply, Run, Reachable;
    Finished(c, integrators, Later(c, s, SubmitProof(i, accepted), events), i);
    Finished(c, integrators, Later(c, s, Drop(i), events), i);
  }

  // A first verification is registered and billed without a proof, an ill-shaped proof is refunded,
  // and a well-shaped one goes to submission.
  lemma ClassificationDecides(
      c: Config, integrators: map<IT.ApiKey, nat>, s: State, i: nat, first: bool, wellShaped: bool, events: seq<Event>)
    requires Reachable(c, integrators, s) && i < |s.requests| && s.requests[i].pc.Deducted?
    ensures var s1 := Apply(c, s, ClassifyProof(i, first, wellShaped));
            var s' := Later(c, s, ClassifyProof(i, first, wellShaped), events);
            if !first && wellShaped then
              s1.requests == s.requests[i := s.requests[i].(pc := Submitting)]
            else
              && SameRequest(s, s', i) && Ended(s'.requests[i].pc)
              && (s'.requests[i].pc.Done? ==>
                    && (s'.requests[i].quotaHeld <==> first) && s'.requests[i].slot.None?
                    && (s'.requests[i].ending.Registered? <==> first))
  {
    if first || !wellShaped {
      StepDecides(c, integrators, s, ClassifyProof(i, first, wellShaped), events, i);
      hide Run, Reachable;
      Finished(c, integrators, Later(c, s, ClassifyProof(i, first, wellShaped), events), i);
    }
  }

  // What a finished request holds, by its ending.
  lemma Finished(c: Config, integrators: map<IT.ApiKey, nat>, s: State, i: nat)
    requires Reachable(c, integrators, s) && i < |s.requests|
    ensures var r := s.requests[i];
            r.pc.Done? ==>
              match r.ending
              case Settled(reply, local, writes) =>
                && (r.quotaHeld <==> VerdictRendered(r.endpoint, reply))
                && (r.slot.Some? <==>
                      FailureRendered(r.endpoint, c.scoring, reply, local) && !QualityRetry(r.endpoint, reply, writes))
              case Dropped(late) => (r.quotaHeld <==> late) && (r.slot.Some? <==> late && !r.endpoint.Verify?)
              case Registered => r.quotaHeld && r.slot.None?
              case Submitted => r.quotaHeld && r.slot.None?
              case _ => !r.quotaHeld && r.slot.None?
  {
    hide Reachable;
    if s.requests[i].pc.Done? {
      ExactSettlement(c, integrators, s, i);
    }
  }

  // --- The validation handlers ---

  // Leaving early or dropping the future while the guard is armed returns both budgets.
  lemma GuardedExitReturnsBoth(
      c: Config, integrators: map<IT.ApiKey, nat>, s: State, i: nat, e: Event, events: seq<Event>)
    requires Reachable(c, integrators, s) && i < |s.requests|
    requires s.requests[i].pc.Guarded? || s.requests[i].pc.Identified?
    requires e == LeaveEarly(i) || e == Drop(i)
    ensures var s' := Later(c, s, e, events);
            && SameRequest(s, s', i) && Ended(s'.requests[i].pc)
            && (s'.requests[i].pc.Done? ==> !s'.requests[i].quotaHeld && s'.requests[i].slot.None?)
  {
    StepDecides(c, integrators, s, e, events, i);
    hide Run, Reachable;
    Finished(c, integrators, Later(c, s, e, events), i);
  }

  // So does an identity for which /validate-features would write a baseline; any other goes on.
  lemma IdentityDecides(
      c: Config, integrators: map<IT.ApiKey, nat>, s: State, i: nat, writes: bool, events: seq<Event>)
    requires Reachable(c, integrators, s) && i < |s.requests| && s.requests[i].pc.Guarded?
    ensures var s1, s' := Apply(c, s, ReadIdentity(i, writes)), Later(c, s, ReadIdentity(i, writes), events);
            if s.requests[i].endpoint.ValidateFeatures? && writes then
              && SameRequest(s, s', i) && Ended(s'.requests[i].pc)
              && (s'.requests[i].pc.Done? ==> !s'.requests[i].quotaHeld && s'.requests[i].slot.None?)
            else
              s1.requests == s.requests[i := s.requests[i].(pc := Identified(writes))]
  {
    if s.requests[i].endpoint.ValidateFeatures? && writes {
      StepDecides(c, integrators, s, ReadIdentity(i, writes), events, i);
      hide Run, Reachable;
      Finished(c, integrators, Later(c, s, ReadIdentity(i, writes), events), i);
    }
  }

  // The request is about to settle this reply, has settled it, or was dropped reading it.
  predicate SettlesReply(r: Request, reply: Reply, writes: bool) {
    || r.pc == Answered(writes, reply)
    || (Ended(r.pc) && r.ending.Settled? && r.ending.reply == reply && r.ending.writesBaseline == writes)
    || (Ended(r.pc) && r.ending == Dropped(true) && r.endpoint.ValidateFeatures? && AwaitsBody(reply.status))
  }

  lemma {:induction false} SettlesReplyForever(
      c: Config, s: State, events: seq<Event>, i: nat, reply: Reply, writes: bool)
    requires i < |s.requests| && SettlesReply(s.requests[i], reply, writes)
    ensures var s' := Run(c, s, events); SameRequest(s, s', i) && SettlesReply(s'.requests[i], reply, writes)
    decreases events
  {
    if events != [] {
      SettlesReplyAfter(c, s, events[0], i, reply, writes);
      hide Apply, SettlesReply;
      SettlesReplyForever(c, Apply(c, s, events[0]), events[1..], i, reply, writes);
    }
  }

  lemma SettlesReplyAfter(c: Config, s: State, e: Event, i: nat, reply: Reply, writes: bool)
    requires i < |s.requests| && SettlesReply(s.requests[i], reply, writes)
    ensures var s' := Apply(c, s, e); SameRequest(s, s', i) && SettlesReply(s'.requests[i], reply, writes)
  {
    if Ended(s.requests[i].pc) {
      EndingAfter(c, s, e, i);
      hide Apply;
    } else if Targets(e, i) {
      hide StepRecord, StepDeduct, StepReturnQuota, StepReturnSlot, Settle;
    } else {
      OthersLeaveRequestAlone(c, s, e, i);
      hide Apply;
    }
  }

  // The reply that is forwarded is the one that decides: unless the future is dropped while that
  // reply's body is read, quota stays spent exactly if it renders a verdict.
  lemma ForwardedReplyDecides(
      c: Config, integrators: map<IT.ApiKey, nat>, s: State, i: nat, reply: Reply, events: seq<Event>)
    requires Reachable(c, integrators, s) && i < |s.requests| && s.requests[i].pc.Identified?
    ensures var s1 := Apply(c, s, Forward(i, reply));
            s1.requests == s.requests[i := s.requests[i].(pc := Answered(s.requests[i].pc.writesBaseline, reply))]
    ensures var s' := Later(c, s, Forward(i, reply), events);
            && SameRequest(s, s', i)
            && var r := s'.requests[i];
            r.pc.Done? ==>
              if r.ending.Dropped? then
                r.endpoint.ValidateFeatures? && AwaitsBody(reply.status) && r.quotaHeld && r.slot.Some?
              else r.ending.Settled? && (r.quotaHeld <==> VerdictRendered(r.endpoint, reply))
  {
    var s1 := Apply(c, s, Forward(i, reply));
    SettlesReplyForever(c, s1, events, i, reply, s.requests[i].pc.writesBaseline);
    ReachableNext(c, integrators, s, Forward(i, reply));
    ReachableRun(c, integrators, s1, events);
    hide Run, Reachable, VerdictRendered;
    Finished(c, integrators, Run(c, s1, events), i);
  }

  // With the risks the service adds, it decides the slot as well.
  lemma SettledReplyDecides(
      c: Config, integrators: map<IT.ApiKey, nat>, s: State, i: nat, local: LocalRisks, events: seq<Event>)
    requires Reachable(c, integrators, s) && i < |s.requests| && s.requests[i].pc.Answered?
    ensures var reply, writes := s.requests[i].pc.reply, s.requests[i].pc.writesBaseline;
            var s' := Later(c, s, SettleReply(i, local), events);
            && SameRequest(s, s', i) && Ended(s'.requests[i].pc)
            && var r := s'.requests[i];
            r.pc.Done? ==>
              && (r.quotaHeld <==> VerdictRendered(r.endpoint, reply))
              && (r.slot.Some? <==>
                    FailureRendered(r.endpoint, c.scoring, reply, local) && !QualityRetry(r.endpoint, reply, writes))
  {
    hide Settle;
    StepDecides(c, integrators, s, SettleReply(i, local), events, i);
    hide Run, Reachable, VerdictRendered, FailureRendered, QualityRetry;
    Finished(c, integrators, Later(c, s, SettleReply(i, local), events), i);
  }

  // Admission: a refused request holds nothing in the end, an admitted one both budgets for now.
  lemma AdmissionDecides(c: Config, integrators: map<IT.ApiKey, nat>, s: State, i: nat, events: seq<Event>)
    requires Reachable(c, integrators, s) && i < |s.requests| && s.requests[i].pc.SlotTaken?
    ensures var r, s1, s' := s.requests[i], Apply(c, s, Deduct(i)), Later(c, s, Deduct(i), events);
            if IT.CanDeduct(s.quotas, r.key) then
              s1.requests == s.requests[i := r.(pc := Guarded, quotaHeld := true)] && r.slot.Some?
            else
              && SameRequest(s, s', i) && Ended(s'.requests[i].pc)
              && (s'.requests[i].pc.Done? ==> !s'.requests[i].quotaHeld && s'.requests[i].slot.None?)
  {
    ReachableInv(c, integrators, s);
    assert RequestOk(c, s.requests[i]);
    hide Inv, RequestOk;
    if !IT.CanDeduct(s.quotas, s.requests[i].key) {
      StepDecides(c, integrators, s, Deduct(i), events, i);
      assert Apply(c, s, Deduct(i)).requests[i].ending == Refused;
      hide Run, Reachable;
      Finished(c, integrators, Later(c, s, Deduct(i), events), i);
    }
  }

  // The statuses whose body is read are exactly those on which the body can make a difference.
  lemma BodyMattersExactly(c: Config, status: nat, local: LocalRisks)
    ensures AwaitsBody(status) <==>
            exists a, b ::
              Settle(ValidateFeatures, c.scoring, Reply(status, a), local, false)
              != Settle(ValidateFeatures, c.scoring, Reply(status, b), local, false)
  {
    var risks := ValidatorRisks(NonFinite, NonFinite, NonFinite);
    var body := Payload(Some(SuccessBody(true, risks)), Some(ErrorBody(None, None)), None, None);
    hide Score;
    if AwaitsBody(status) {
      assert Settle(ValidateFeatures, c.scoring, Reply(status, None), local, false).returned == Both;
      assert Settle(ValidateFeatures, c.scoring, Reply(status, Some(body)), local, false).returned != Both;
    }
  }
}
