// What every reachable state of the admission ledger satisfies, whatever the interleaving.
module AdmissionInvariant {
  import opened Results
  import opened ScoringPolicy
  import opened Replies
  import opened Admission
  import WA = WalletAttempts
  import IT = IntegratorTracker

  function B(b: bool): nat {
    if b then 1 else 0
  }

  predicate HoldsQuota(r: Request, key: IT.ApiKey) {
    r.quotaHeld && r.key == key
  }

  predicate HoldsSlot(r: Request, w: WA.Wallet, window: nat) {
    r.slot == Some(window) && r.wallet == w
  }

  // The requests holding a deduction from one key.
  function QuotaHolders(rs: seq<Request>, key: IT.ApiKey): nat {
    if rs == [] then 0 else B(HoldsQuota(rs[0], key)) + QuotaHolders(rs[1..], key)
  }

  // The requests holding a slot recorded in one window of one wallet.
  function SlotHolders(rs: seq<Request>, w: WA.Wallet, window: nat): nat {
    if rs == [] then 0 else B(HoldsSlot(rs[0], w, window)) + SlotHolders(rs[1..], w, window)
  }

  // The slots recorded in a wallet's current window and not returned.
  function SlotsHeld(s: State, w: WA.Wallet): nat {
    SlotHolders(s.requests, w, Past(s, w).windows)
  }

  lemma {:induction false} HoldersAfterUpdate(
      rs: seq<Request>, i: nat, r: Request, key: IT.ApiKey, w: WA.Wallet, window: nat)
    requires i < |rs|
    ensures QuotaHolders(rs[i := r], key) + B(HoldsQuota(rs[i], key)) == QuotaHolders(rs, key) + B(HoldsQuota(r, key))
    ensures SlotHolders(rs[i := r], w, window) + B(HoldsSlot(rs[i], w, window))
            == SlotHolders(rs, w, window) + B(HoldsSlot(r, w, window))
  {
    if i == 0 {
      assert rs[0 := r][1..] == rs[1..];
    } else {
      assert rs[i := r][1..] == rs[1..][i - 1 := r];
      HoldersAfterUpdate(rs[1..], i - 1, r, key, w, window);
    }
  }

  lemma {:induction false} HoldersAfterArrival(rs: seq<Request>, r: Request, key: IT.ApiKey, w: WA.Wallet, window: nat)
    ensures QuotaHolders(rs + [r], key) == QuotaHolders(rs, key) + B(HoldsQuota(r, key))
    ensures SlotHolders(rs + [r], w, window) == SlotHolders(rs, w, window) + B(HoldsSlot(r, w, window))
  {
    if rs == [] {
      assert rs + [r] == [r];
    } else {
      assert (rs + [r])[1..] == rs[1..] + [r];
      HoldersAfterArrival(rs[1..], r, key, w, window);
    }
  }

  lemma {:induction false} NoHoldersOfUnopenedWindow(rs: seq<Request>, w: WA.Wallet, window: nat)
    requires forall i | 0 <= i < |rs| :: !HoldsSlot(rs[i], w, window)
    ensures SlotHolders(rs, w, window) == 0
  {
    if rs != [] {
      NoHoldersOfUnopenedWindow(rs[1..], w, window);
    }
  }

  function Returned(c: Config, r: Request): Return
    requires r.ending.Settled?
  {
    Settle(r.endpoint, c.scoring, r.ending.reply, r.ending.local, r.ending.writesBaseline).returned
  }

  // What one request holds, and why, at each point of its handler.
  predicate RequestOk(c: Config, r: Request) {
    var slotHeld := r.slot.Some?;
    var untouched := r.quotaReturns == 0 && r.slotReturns == 0;
    && (r.ending.Settled? ==> !r.endpoint.Verify?)
    && (slotHeld ==> c.limits.maxAttempts >= 1)
    && match r.pc
       case Arrived => r.ending.Running? && !r.quotaHeld && !slotHeld && untouched
       case SlotTaken => r.ending.Running? && !r.endpoint.Verify? && !r.quotaHeld && slotHeld && untouched
       case Guarded => r.ending.Running? && !r.endpoint.Verify? && r.quotaHeld && slotHeld && untouched
       case Identified(writes) =>
         r.ending.Running? && !r.endpoint.Verify? && r.quotaHeld && slotHeld && untouched
         && (r.endpoint.ValidateFeatures? ==> !writes)
       case Answered(writes, _) =>
         r.ending.Running? && !r.endpoint.Verify? && r.quotaHeld && slotHeld && untouched
         && (r.endpoint.ValidateFeatures? ==> !writes)
       case Deducted => r.ending.Running? && r.endpoint.Verify? && r.quotaHeld && !slotHeld && untouched
       case Submitting => r.ending.Running? && r.endpoint.Verify? && r.quotaHeld && !slotHeld && untouched
       case ReturningQuota(slotToo) =>
         && r.quotaHeld && slotHeld == slotToo == !r.endpoint.Verify? && untouched
         && (r.ending.NoVerdict? || (slotToo && r.ending == Dropped(false))
             || (r.ending.Settled? && Returned(c, r) == Both))
       case ReturningSlot =>
         && !r.endpoint.Verify? && slotHeld && r.slotReturns == 0
         && r.quotaReturns == B(!r.quotaHeld && !r.ending.Refused?)
         && ((!r.quotaHeld && (r.ending.Refused? || r.ending.NoVerdict? || r.ending == Dropped(false)))
             || (r.ending.Settled? && Returned(c, r) == if r.quotaHeld then SlotOnly else Both))
       case Done =>
         && r.quotaReturns <= 1 && r.slotReturns <= 1
         && (r.quotaHeld ==> r.quotaReturns == 0) && (slotHeld ==> r.slotReturns == 0)
         && match r.ending
            case Running => false
            case Refused => !r.quotaHeld && !slotHeld && r.quotaReturns == 0
            case NoVerdict => !r.quotaHeld && !slotHeld && r.quotaReturns == 1
            case Dropped(late) =>
              r.quotaHeld == late && slotHeld == (late && !r.endpoint.Verify?) && r.quotaReturns == B(!late)
              && (late ==> !r.endpoint.ValidateSession?) && (r.endpoint.Verify? ==> late)
            case Settled(_, _, _) =>
              r.quotaHeld == (Returned(c, r) != Both) && slotHeld == (Returned(c, r) == Nothing)
              && r.quotaReturns == B(!r.quotaHeld)
            case Registered => r.endpoint.Verify? && r.quotaHeld && !slotHeld
            case Submitted => r.endpoint.Verify? && r.quotaHeld && !slotHeld
  }

  predicate SlotOk(s: State, r: Request) {
    r.slot.Some? ==> r.slot.value <= Past(s, r.wallet).windows
  }

  // used counts the current holders, and never passes a finite quota.
  predicate QuotaOk(s: State, key: IT.ApiKey) {
    var holders := QuotaHolders(s.requests, key);
    if key in s.quotas
    then s.quotas[key].used == holders && (s.quotas[key].quota > 0 ==> holders <= s.quotas[key].quota)
    else holders == 0
  }

  // attempts never exceeds the cap, and falls short of the slots held in the current window by
  // exactly the surplus, which is at most the straddling refunds of this window.
  predicate WalletOk(c: Config, s: State, w: WA.Wallet)
    requires w in s.wallets
  {
    var attempts, past := s.wallets[w].attempts, Past(s, w);
    && attempts <= c.limits.maxAttempts && past.surplus <= past.straddles
    && SlotsHeld(s, w) == attempts + past.surplus
  }

  ghost predicate RequestsOk(c: Config, s: State) {
    forall i | 0 <= i < |s.requests| :: RequestOk(c, s.requests[i]) && SlotOk(s, s.requests[i])
  }

  ghost predicate QuotasOk(s: State) {
    forall key :: QuotaOk(s, key)
  }

  ghost predicate WalletsOk(c: Config, s: State) {
    forall w | w in s.wallets :: WalletOk(c, s, w)
  }

  ghost predicate Inv(c: Config, s: State) {
    RequestsOk(c, s) && QuotasOk(s) && WalletsOk(c, s)
  }
}
