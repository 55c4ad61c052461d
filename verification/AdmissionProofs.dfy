// The ledger invariant is kept by every event, hence by every run.
module AdmissionProofs {
  import opened Results
  import opened ScoringPolicy
  import opened Replies
  import opened Admission
  import opened AdmissionInvariant
  import WA = WalletAttempts
  import IT = IntegratorTracker

  // A holder is counted, so the refund it makes is never saturated.
  lemma {:induction false} HolderIsCounted(rs: seq<Request>, i: nat)
    requires i < |rs|
    ensures rs[i].quotaHeld ==> QuotaHolders(rs, rs[i].key) >= 1
    ensures rs[i].slot.Some? ==> SlotHolders(rs, rs[i].wallet, rs[i].slot.value) >= 1
  {
    if i > 0 {
      HolderIsCounted(rs[1..], i - 1);
    }
  }

  // What a request's step may do to the quotas: nothing, deduct once, or return what it holds.
  predicate QuotaMove(s: State, s': State, r: Request, r': Request) {
    && r'.key == r.key
    && (|| (s'.quotas == s.quotas && r'.quotaHeld == r.quotaHeld)
        || (!r.quotaHeld && r'.quotaHeld && IT.CanDeduct(s.quotas, r.key)
            && s'.quotas == IT.AfterDeduct(s.quotas, r.key))
        || (r.quotaHeld && !r'.quotaHeld && s'.quotas == IT.AfterRefund(s.quotas, r.key)))
  }

  lemma QuotasKept(s: State, s': State, i: nat, r': Request)
    requires QuotasOk(s) && i < |s.requests| && s'.requests == s.requests[i := r']
    requires QuotaMove(s, s', s.requests[i], r')
    ensures QuotasOk(s')
  {
    var r := s.requests[i];
    HolderIsCounted(s.requests, i);
    assert QuotaOk(s, r.key);
    forall key
      ensures QuotaOk(s', key)
    {
      HoldersAfterUpdate(s.requests, i, r', key, 0, 0);
      assert QuotaOk(s, key);
    }
  }

  lemma WalletsUntouched(c: Config, s: State, s': State, i: nat, r': Request)
    requires WalletsOk(c, s) && i < |s.requests| && s'.requests == s.requests[i := r']
    requires s'.wallets == s.wallets && s'.history == s.history
    requires r'.wallet == s.requests[i].wallet && r'.slot == s.requests[i].slot
    ensures WalletsOk(c, s')
  {
    forall w | w in s'.wallets
      ensures WalletOk(c, s', w)
    {
      HoldersAfterUpdate(s.requests, i, r', "", w, Past(s, w).windows);
      assert WalletOk(c, s, w);
    }
  }

  lemma RequestsKept(c: Config, s: State, s': State, i: nat, r': Request)
    requires RequestsOk(c, s) && i < |s.requests| && s'.requests == s.requests[i := r']
    requires RequestOk(c, r') && SlotOk(s', r')
    requires forall w :: Past(s, w).windows <= Past(s', w).windows
    ensures RequestsOk(c, s')
  {
    hide RequestOk;
  }

  // A step that moves one program counter without touching a store.
  lemma QuietStep(c: Config, s: State, i: nat, r': Request)
    requires Inv(c, s) && i < |s.requests| && RequestOk(c, r')
    requires var r := s.requests[i];
             r'.key == r.key && r'.wallet == r.wallet && r'.quotaHeld == r.quotaHeld && r'.slot == r.slot
    ensures Inv(c, Put(s, i, r'))
  {
    hide RequestOk;
    var s' := Put(s, i, r');
    assert SlotOk(s, s.requests[i]);
    QuotasKept(s, s', i, r');
    WalletsUntouched(c, s, s', i, r');
    RequestsKept(c, s, s', i, r');
  }

  lemma DeductKeepsInv(c: Config, s: State, i: nat)
    requires Inv(c, s) && i < |s.requests|
    requires var r := s.requests[i]; r.pc.SlotTaken? || (r.pc.Arrived? && r.endpoint.Verify?)
    ensures Inv(c, StepDeduct(s, i))
  {
    var s', r := StepDeduct(s, i), s.requests[i];
    var r' := s'.requests[i];
    assert RequestOk(c, r) && SlotOk(s, r);
    assert RequestOk(c, r');
    hide RequestOk;
    QuotasKept(s, s', i, r');
    WalletsUntouched(c, s, s', i, r');
    RequestsKept(c, s, s', i, r');
  }

  lemma ReturnQuotaKeepsInv(c: Config, s: State, i: nat, slotToo: bool)
    requires Inv(c, s) && i < |s.requests| && s.requests[i].pc == ReturningQuota(slotToo)
    ensures Inv(c, StepReturnQuota(s, i, slotToo))
  {
    hide Settle;
    var s', r := StepReturnQuota(s, i, slotToo), s.requests[i];
    var r' := s'.requests[i];
    assert RequestOk(c, r) && SlotOk(s, r);
    assert RequestOk(c, r');
    hide RequestOk;
    QuotasKept(s, s', i, r');
    WalletsUntouched(c, s, s', i, r');
    RequestsKept(c, s, s', i, r');
  }

  // A recording touches one wallet, and stays within the cap.
  lemma RecordedWallet(limits: WA.Limits, m: WA.Store, v: WA.Wallet, now: nat, w: WA.Wallet)
    requires w in m ==> m[w].attempts <= limits.maxAttempts
    ensures var m' := WA.Recorded(limits, m, v, now);
            && (w in m' <==> w == v || w in m)
            && (w != v && w in m ==> m'[w] == m[w])
            && (w == v ==>
                  && m'[w].attempts <= limits.maxAttempts
                  && m'[w].attempts == (if WA.Live(limits, m, v, now) then m[v].attempts else 0)
                                       + B(WA.RecordAnswer(limits, m, v, now).Allowed?))
  {
  }

  lemma WindowOpensEmpty(c: Config, s: State, w: WA.Wallet)
    requires RequestsOk(c, s)
    ensures SlotHolders(s.requests, w, Past(s, w).windows + 1) == 0
  {
    hide RequestOk;
    forall j | 0 <= j < |s.requests|
      ensures !HoldsSlot(s.requests[j], w, Past(s, w).windows + 1)
    {
      assert SlotOk(s, s.requests[j]);
    }
    NoHoldersOfUnopenedWindow(s.requests, w, Past(s, w).windows + 1);
  }

  lemma RecordLeavesOthers(c: Config, s: State, i: nat, w: WA.Wallet)
    requires i < |s.requests| && w != s.requests[i].wallet
    ensures var s' := StepRecord(c, s, i);
            && (w in s'.wallets <==> w in s.wallets) && (w in s.wallets ==> s'.wallets[w] == s.wallets[w])
            && |s'.requests| == |s.requests| && s'.requests == s.requests[i := s'.requests[i]]
            && s'.requests[i].wallet != w
            && Past(s', w) == Past(s, w)
  {
    hide WA.RecordAnswer, WA.Live;
  }

  lemma RecordKeepsOtherWallet(c: Config, s: State, i: nat, w: WA.Wallet)
    requires WalletsOk(c, s) && i < |s.requests|
    requires w in StepRecord(c, s, i).wallets && w != s.requests[i].wallet
    ensures WalletOk(c, StepRecord(c, s, i), w)
  {
    hide StepRecord, Past, SlotHolders, QuotaHolders;
    var s' := StepRecord(c, s, i);
    RecordLeavesOthers(c, s, i, w);
    assert WalletOk(c, s, w);
    HoldersAfterUpdate(s.requests, i, s'.requests[i], "", w, Past(s, w).windows);
  }

  // What a recording does to the history of the wallet it records.
  lemma RecordHistory(c: Config, s: State, i: nat)
    requires i < |s.requests|
    ensures var s', v := StepRecord(c, s, i), s.requests[i].wallet;
            var live := WA.Live(c.limits, s.wallets, v, s.now);
            && s'.wallets == WA.Recorded(c.limits, s.wallets, v, s.now)
            && |s'.requests| == |s.requests| && s'.requests == s.requests[i := s'.requests[i]]
            && s'.requests[i].wallet == v
            && Past(s', v) == (if live then Past(s, v) else History(Past(s, v).windows + 1, 0, 0))
            && s'.requests[i].slot == (if WA.RecordAnswer(c.limits, s.wallets, v, s.now).Allowed?
                                       then Some(Past(s', v).windows) else s.requests[i].slot)
  {
    hide WA.Recorded, WA.RecordAnswer, WA.Live;
  }

  lemma RecordKeepsOwnWallet(c: Config, s: State, i: nat)
    requires RequestsOk(c, s) && WalletsOk(c, s) && i < |s.requests| && s.requests[i].slot.None?
    ensures var v := s.requests[i].wallet;
            v in StepRecord(c, s, i).wallets && WalletOk(c, StepRecord(c, s, i), v)
  {
    hide RequestOk, WA.Recorded, WA.RecordAnswer, RequestsOk, SlotHolders, QuotaHolders, StepRecord;
    var s', v := StepRecord(c, s, i), s.requests[i].wallet;
    assert v in s.wallets ==> WalletOk(c, s, v);
    hide WalletsOk, Past;
    RecordHistory(c, s, i);
    RecordedWallet(c.limits, s.wallets, v, s.now, v);
    HoldersAfterUpdate(s.requests, i, s'.requests[i], "", v, Past(s', v).windows);
    WindowOpensEmpty(c, s, v);
  }

  lemma RecordKeepsInv(c: Config, s: State, i: nat)
    requires Inv(c, s) && i < |s.requests| && s.requests[i].pc.Arrived? && !s.requests[i].endpoint.Verify?
    ensures Inv(c, StepRecord(c, s, i))
  {
    var s', r := StepRecord(c, s, i), s.requests[i];
    var r' := s'.requests[i];
    assert WA.RecordAnswer(c.limits, s.wallets, r.wallet, s.now).Allowed? ==> c.limits.maxAttempts >= 1;
    hide WA.RecordAnswer, WA.Recorded, WA.Live;
    assert RequestOk(c, r);
    assert RequestOk(c, r');
    hide RequestOk, WalletOk, QuotasOk;
    QuotasKept(s, s', i, r');
    RequestsKept(c, s, s', i, r');
    forall w | w in s'.wallets
      ensures WalletOk(c, s', w)
    {
      if w == r.wallet {
        RecordKeepsOwnWallet(c, s, i);
      } else {
        RecordKeepsOtherWallet(c, s, i, w);
      }
    }
  }

  lemma ReturnSlotKeepsWallet(c: Config, s: State, i: nat, w: WA.Wallet)
    requires RequestsOk(c, s) && WalletsOk(c, s) && i < |s.requests| && s.requests[i].slot.Some?
    requires w in StepReturnSlot(s, i).wallets
    ensures WalletOk(c, StepReturnSlot(s, i), w)
  {
    hide RequestOk;
    var s', r := StepReturnSlot(s, i), s.requests[i];
    assert SlotOk(s, r);
    HolderIsCounted(s.requests, i);
    HoldersAfterUpdate(s.requests, i, s'.requests[i], "", w, Past(s, w).windows);
    assert WalletOk(c, s, w);
  }

  lemma ReturnSlotKeepsInv(c: Config, s: State, i: nat)
    requires Inv(c, s) && i < |s.requests| && s.requests[i].pc.ReturningSlot?
    ensures Inv(c, StepReturnSlot(s, i))
  {
    hide Settle, WA.Refunded;
    var s', r := StepReturnSlot(s, i), s.requests[i];
    var r' := s'.requests[i];
    assert RequestOk(c, r);
    assert RequestOk(c, r');
    hide RequestOk, WalletOk, QuotasOk;
    QuotasKept(s, s', i, r');
    RequestsKept(c, s, s', i, r');
    forall w | w in s'.wallets
      ensures WalletOk(c, s', w)
    {
      ReturnSlotKeepsWallet(c, s, i, w);
    }
  }

  lemma ArrivalKeepsInv(c: Config, s: State, endpoint: Endpoint, key: IT.ApiKey, wallet: WA.Wallet)
    requires Inv(c, s)
    ensures Inv(c, Apply(c, s, Arrive(endpoint, key, wallet)))
  {
    var s' := Apply(c, s, Arrive(endpoint, key, wallet));
    var r := s'.requests[|s.requests|];
    assert RequestOk(c, r) && SlotOk(s', r);
    hide RequestOk;
    forall k
      ensures QuotaOk(s', k)
    {
      HoldersAfterArrival(s.requests, r, k, 0, 0);
      assert QuotaOk(s, k);
    }
    forall w | w in s'.wallets
      ensures WalletOk(c, s', w)
    {
      HoldersAfterArrival(s.requests, r, "", w, Past(s, w).windows);
      assert WalletOk(c, s, w);
    }
    forall j | 0 <= j < |s'.requests|
      ensures RequestOk(c, s'.requests[j]) && SlotOk(s', s'.requests[j])
    {
      if j < |s.requests| {
        assert SlotOk(s, s.requests[j]);
      }
    }
  }

  // Time passing and eviction only drop wallet entries.
  lemma EvictionKeepsInv(c: Config, s: State, s': State)
    requires Inv(c, s)
    requires s'.requests == s.requests && s'.quotas == s.quotas
    requires s'.history == s.history
    requires forall w | w in s'.wallets :: w in s.wallets && s'.wallets[w] == s.wallets[w]
    ensures Inv(c, s')
  {
    hide RequestOk;
    forall key
      ensures QuotaOk(s', key)
    {
      assert QuotaOk(s, key);
    }
    forall w | w in s'.wallets
      ensures WalletOk(c, s', w)
    {
      assert WalletOk(c, s, w);
    }
    forall j | 0 <= j < |s.requests|
      ensures SlotOk(s', s'.requests[j]) && RequestOk(c, s'.requests[j])
    {
      assert SlotOk(s, s.requests[j]);
    }
  }

  lemma MovedStaysOk(c: Config, r: Request, e: Event)
    requires RequestOk(c, r)
    ensures var r' := Moved(c, r, e);
            && RequestOk(c, r')
            && r'.key == r.key && r'.wallet == r.wallet && r'.quotaHeld == r.quotaHeld && r'.slot == r.slot
  {
    hide Settle;
  }

  lemma RequestStepKeepsInv(c: Config, s: State, i: nat, e: Event)
    requires Inv(c, s) && i < |s.requests|
    ensures Inv(c, RequestStep(c, s, i, e))
  {
    var r := s.requests[i];
    assert RequestOk(c, r);
    hide RequestOk, QuotasOk, WalletsOk, StepRecord, StepDeduct, StepReturnQuota, StepReturnSlot, Moved;
    if e.RecordAttempt? {
      if r.pc.Arrived? && !r.endpoint.Verify? {
        RecordKeepsInv(c, s, i);
      }
    } else if e.Deduct? {
      if r.pc.SlotTaken? || (r.pc.Arrived? && r.endpoint.Verify?) {
        DeductKeepsInv(c, s, i);
      }
    } else if e.ReturnQuota? {
      if r.pc.ReturningQuota? {
        ReturnQuotaKeepsInv(c, s, i, r.pc.slotToo);
      }
    } else if e.ReturnSlot? {
      if r.pc.ReturningSlot? {
        ReturnSlotKeepsInv(c, s, i);
      }
    } else {
      MovedStaysOk(c, r, e);
      QuietStep(c, s, i, Moved(c, r, e));
    }
  }

  lemma EventKeepsInv(c: Config, s: State, e: Event)
    requires Inv(c, s)
    ensures Inv(c, Apply(c, s, e))
  {
    hide Inv, RequestStep;
    match e
    case Tick(_) => EvictionKeepsInv(c, s, Apply(c, s, e));
    case Evict => EvictionKeepsInv(c, s, Apply(c, s, e));
    case Arrive(endpoint, key, wallet) => ArrivalKeepsInv(c, s, endpoint, key, wallet);
    case _ =>
      if e.i < |s.requests| {
        RequestStepKeepsInv(c, s, e.i, e);
      }
  }
}
