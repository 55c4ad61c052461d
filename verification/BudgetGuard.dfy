// Taking the two budgets and giving them back, as one request does it on the shared stores
// (src/validation/handler.rs:400-437, 625-653, 1298-1301). The ledger interleaves the same store
// operations; here they run in one piece.
module BudgetGuard {
  import opened Results
  import WA = WalletAttempts
  import IT = IntegratorTracker

  datatype AdmissionError = WalletRateLimited(retryAfterSecs: nat) | InsufficientQuota

  method RefundInfrastructureFailure(
      tracker: IT.Tracker, attempts: WA.WalletAttemptTracker, key: IT.ApiKey, wallet: WA.Wallet)
    modifies tracker, attempts
    ensures tracker.state == IT.AfterRefund(old(tracker.state), key)
    ensures attempts.state == WA.Refunded(old(attempts.state), wallet)
  {
    tracker.Refund(key);
    attempts.RefundOnSuccess(wallet);
  }

  // Both budgets are taken, or none: a wallet over its cap costs no quota, and a key without quota
  // costs the wallet nothing.
  method AdmitAttempt(
      tracker: IT.Tracker, attempts: WA.WalletAttemptTracker, key: IT.ApiKey, wallet: WA.Wallet, now: nat)
    returns (r: Result<nat, AdmissionError>)
    modifies tracker, attempts
    ensures r.Ok? <==>
            && WA.RecordAnswer(attempts.limits, old(attempts.state), wallet, now).Allowed?
            && IT.CanDeduct(old(tracker.state), key)
    ensures r.Ok? ==>
              && r.value == IT.GetRemaining(tracker.state, key)
              && tracker.state == IT.AfterDeduct(old(tracker.state), key)
              && attempts.state == WA.Recorded(attempts.limits, old(attempts.state), wallet, now)
    ensures r.Err? ==>
              && tracker.state == old(tracker.state)
              && Untouched(attempts.limits, old(attempts.state), attempts.state, wallet, now)
    ensures r.Err? && r.error.WalletRateLimited? <==>
            WA.RecordAnswer(attempts.limits, old(attempts.state), wallet, now).RetryAfter?
    ensures r.Err? && r.error.WalletRateLimited? ==>
              WA.RecordAnswer(attempts.limits, old(attempts.state), wallet, now)
                  == WA.RetryAfter(r.error.retryAfterSecs)
  {
    var answer := attempts.CheckAndRecordAttempt(wallet, now);
    if answer.RetryAfter? {
      return Err(WalletRateLimited(answer.secs));
    }
    var deduction := tracker.CheckAndDeduct(key);
    match deduction {
      case Deducted(remaining) => return Ok(remaining);
      case InsufficientQuota =>
        attempts.RefundOnSuccess(wallet);
        return Err(InsufficientQuota);
    }
  }

  function QuotasAfter(refund: bool, q: IT.Quotas, key: IT.ApiKey): IT.Quotas {
    if refund then IT.AfterRefund(q, key) else q
  }

  function WalletsAfter(refund: bool, m: WA.Store, w: WA.Wallet): WA.Store {
    if refund then WA.Refunded(m, w) else m
  }

  // The store is as before, except that the wallet's window is the one live now.
  predicate Untouched(limits: WA.Limits, m: WA.Store, m': WA.Store, w: WA.Wallet, now: nat) {
    m' == m[w := WA.Opened(limits, m, w, now)]
  }

  // Holds a request's two charges until the validator has answered. Every way out of the handler
  // ends in OnDrop, the two explicit ones included.
  class PreForwardBudgetGuard {
    const tracker: IT.Tracker
    const attempts: WA.WalletAttemptTracker
    const key: IT.ApiKey
    const wallet: WA.Wallet
    var refundPending: bool

    constructor (tracker: IT.Tracker, attempts: WA.WalletAttemptTracker, key: IT.ApiKey, wallet: WA.Wallet)
      ensures this.tracker == tracker && this.attempts == attempts && this.key == key && this.wallet == wallet
      ensures refundPending
    {
      this.tracker, this.attempts, this.key, this.wallet := tracker, attempts, key, wallet;
      refundPending := true;
    }

    method RefundOnce()
      modifies this, tracker, attempts
      ensures !refundPending
      ensures tracker.state == QuotasAfter(old(refundPending), old(tracker.state), key)
      ensures attempts.state == WalletsAfter(old(refundPending), old(attempts.state), wallet)
    {
      if refundPending {
        RefundInfrastructureFailure(tracker, attempts, key, wallet);
        refundPending := false;
      }
    }

    method OnDrop()
      modifies this, tracker, attempts
      ensures !refundPending
      ensures tracker.state == QuotasAfter(old(refundPending), old(tracker.state), key)
      ensures attempts.state == WalletsAfter(old(refundPending), old(attempts.state), wallet)
    {
      RefundOnce();
    }

    // refund: an explicit return of the charges, and then the drop, which returns nothing more.
    method Refund()
      modifies this, tracker, attempts
      ensures !refundPending
      ensures tracker.state == QuotasAfter(old(refundPending), old(tracker.state), key)
      ensures attempts.state == WalletsAfter(old(refundPending), old(attempts.state), wallet)
    {
      RefundOnce();
      OnDrop();
    }

    // validator_reached: the charges stay, whatever is dropped afterwards.
    method ValidatorReached()
      modifies this, tracker, attempts
      ensures !refundPending
      ensures tracker.state == old(tracker.state) && attempts.state == old(attempts.state)
    {
      refundPending := false;
      OnDrop();
    }
  }

  // How a handler leaves the part its guard covers.
  datatype Exit = Early | Explicit | Reached

  // A request from admission to the end of its guard: unless the validator was reached, the quota
  // table is as before and the wallet has the attempts it had in its window.
  method AdmittedSpan(
      tracker: IT.Tracker, attempts: WA.WalletAttemptTracker, key: IT.ApiKey, wallet: WA.Wallet, now: nat, exit: Exit)
    returns (admitted: bool)
    modifies tracker, attempts
    ensures !admitted || !exit.Reached? ==>
              && tracker.state == old(tracker.state)
              && Untouched(attempts.limits, old(attempts.state), attempts.state, wallet, now)
    ensures admitted && exit.Reached? ==>
              && key in old(tracker.state) && key in tracker.state && wallet in attempts.state
              && tracker.state[key].used == old(tracker.state)[key].used + 1
              && attempts.state[wallet].attempts
                 == WA.Opened(attempts.limits, old(attempts.state), wallet, now).attempts + 1
  {
    var r := AdmitAttempt(tracker, attempts, key, wallet, now);
    if r.Err? {
      return false;
    }
    RefundUndoesAdmission(attempts.limits, old(attempts.state), wallet, now, old(tracker.state), key);
    var guard := new PreForwardBudgetGuard(tracker, attempts, key, wallet);
    match exit {
      case Early => guard.OnDrop();
      case Explicit => guard.Refund();
      case Reached => guard.ValidatorReached();
    }
    return true;
  }

  // The refund is the exact inverse of the admission, on every other wallet and key too.
  lemma RefundUndoesAdmission(limits: WA.Limits, m: WA.Store, w: WA.Wallet, now: nat, q: IT.Quotas, key: IT.ApiKey)
    requires WA.RecordAnswer(limits, m, w, now).Allowed? && IT.CanDeduct(q, key)
    ensures IT.AfterRefund(IT.AfterDeduct(q, key), key) == q
    ensures Untouched(limits, m, WA.Refunded(WA.Recorded(limits, m, w, now), w), w, now)
    ensures WA.CheckAnswer(limits, WA.Refunded(WA.Recorded(limits, m, w, now), w), w, now)
            == WA.CheckAnswer(limits, m, w, now)
  {
    assert q[key := q[key]] == q;
  }
}
