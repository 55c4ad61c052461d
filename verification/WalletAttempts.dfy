// The per-wallet attempt cap of src/integrator/wallet_attempts.rs: one anchored window per
// wallet, refunds that saturate at zero, and eviction of idle expired entries.
module WalletAttempts {
  import opened Clock

  type Wallet = nat
  type u8 = n: nat | n < 256

  datatype Limits = Limits(maxAttempts: u8, window: nat)

  datatype WalletState = WalletState(attempts: u8, windowStart: nat)

  type Store = map<Wallet, WalletState>

  datatype Answer = Allowed | RetryAfter(secs: nat)

  predicate Live(limits: Limits, m: Store, w: Wallet, now: nat) {
    w in m && Since(now, m[w].windowStart) < limits.window
  }

  // The entry a recording sees: the stored one, or a window opened now.
  function Opened(limits: Limits, m: Store, w: Wallet, now: nat): WalletState {
    if Live(limits, m, w, now) then m[w] else WalletState(0, now)
  }

  function Capped(limits: Limits, s: WalletState, now: nat): Answer {
    if s.attempts >= limits.maxAttempts
    then RetryAfter(AsSecs(SaturatingSub(limits.window, Since(now, s.windowStart))))
    else Allowed
  }

  function RecordAnswer(limits: Limits, m: Store, w: Wallet, now: nat): Answer {
    Capped(limits, Opened(limits, m, w, now), now)
  }

  function Recorded(limits: Limits, m: Store, w: Wallet, now: nat): Store {
    var s := Opened(limits, m, w, now);
    m[w := if RecordAnswer(limits, m, w, now).Allowed? then s.(attempts := s.attempts + 1) else s]
  }

  function CheckAnswer(limits: Limits, m: Store, w: Wallet, now: nat): Answer {
    if Live(limits, m, w, now) then Capped(limits, m[w], now) else Allowed
  }

  function Refunded(m: Store, w: Wallet): Store {
    if w in m then m[w := m[w].(attempts := SaturatingSub(m[w].attempts, 1))] else m
  }

  function Evicted(limits: Limits, m: Store, now: nat): Store {
    map w | w in m && (Live(limits, m, w, now) || m[w].attempts > 0) :: m[w]
  }

  class WalletAttemptTracker {
    var state: Store
    const limits: Limits

    constructor (limits: Limits)
      ensures this.limits == limits && state == map[]
    {
      this.limits := limits;
      state := map[];
    }

    method CheckAndRecordAttempt(wallet: Wallet, now: nat) returns (answer: Answer)
      modifies this
      ensures answer == RecordAnswer(limits, old(state), wallet, now)
      ensures state == Recorded(limits, old(state), wallet, now)
    {
      var entry := if wallet in state then state[wallet] else WalletState(0, now);
      if Since(now, entry.windowStart) >= limits.window {
        entry := WalletState(0, now);
      }
      if entry.attempts >= limits.maxAttempts {
        var elapsed := Since(now, entry.windowStart);
        state := state[wallet := entry];
        return RetryAfter(AsSecs(SaturatingSub(limits.window, elapsed)));
      }
      entry := entry.(attempts := entry.attempts + 1);
      state := state[wallet := entry];
      return Allowed;
    }

    method Check(wallet: Wallet, now: nat) returns (answer: Answer)
      ensures answer == CheckAnswer(limits, state, wallet, now)
    {
      if wallet !in state {
        return Allowed;
      }
      var elapsed := Since(now, state[wallet].windowStart);
      if elapsed < limits.window && state[wallet].attempts >= limits.maxAttempts {
        return RetryAfter(AsSecs(SaturatingSub(limits.window, elapsed)));
      }
      return Allowed;
    }

    method RefundOnSuccess(wallet: Wallet)
      modifies this
      ensures state == Refunded(old(state), wallet)
    {
      if wallet in state {
        var attempts := state[wallet].attempts;
        state := state[wallet := state[wallet].(attempts := if attempts > 0 then attempts - 1 else 0)];
      }
    }

    method EvictExpired(now: nat)
      modifies this
      ensures state == Evicted(limits, old(state), now)
      ensures forall w :: w in state <==>
                w in old(state) && (Live(limits, old(state), w, now) || old(state)[w].attempts > 0)
      ensures forall w | w in state :: state[w] == old(state)[w]
    {
      state := map w | w in state && (Since(now, state[w].windowStart) < limits.window || state[w].attempts > 0)
          :: state[w];
    }
  }

  // check answers as check_and_record_attempt would exactly when the cap allows an attempt at
  // all, or the wallet already has a live window: with a cap of 0 it lets an unseen wallet through.
  lemma CheckAgreesWithRecord(limits: Limits, m: Store, w: Wallet, now: nat)
    ensures CheckAnswer(limits, m, w, now) == RecordAnswer(limits, m, w, now)
            <==> limits.maxAttempts >= 1 || Live(limits, m, w, now)
  {
  }

  // The retry value rounds the wait down to whole seconds: with no call in between, the wallet is
  // refused until that many seconds have passed and admitted once one more second has.
  lemma RetryValueIsTight(limits: Limits, m: Store, w: Wallet, now: nat, later: nat)
    requires Live(limits, m, w, now) && m[w].windowStart <= now <= later && limits.maxAttempts >= 1
    requires RecordAnswer(limits, m, w, now).RetryAfter?
    ensures var secs := RecordAnswer(limits, m, w, now).secs;
            && (later < now + secs * SECOND ==> RecordAnswer(limits, m, w, later).RetryAfter?)
            && (later >= now + (secs + 1) * SECOND ==> RecordAnswer(limits, m, w, later).Allowed?)
            && (RecordAnswer(limits, m, w, later).Allowed? <==> later >= m[w].windowStart + limits.window)
  {
    var wait := SaturatingSub(limits.window, Since(now, m[w].windowStart));
    AsSecsAtMost(wait, AsSecs(wait));
  }


  datatype Op = RecordOp(wallet: Wallet) | CheckOp(wallet: Wallet) | RefundOp(wallet: Wallet) | EvictOp

  function After(limits: Limits, m: Store, c: Call<Op>): Store {
    match c.op
    case RecordOp(w) => Recorded(limits, m, w, c.now)
    case CheckOp(_) => m
    case RefundOp(w) => Refunded(m, w)
    case EvictOp => Evicted(limits, m, c.now)
  }

  // What the caller of one operation sees. Refunds and evictions return nothing it reads.
  function Seen(limits: Limits, m: Store, c: Call<Op>): seq<Answer> {
    match c.op
    case RecordOp(w) => [RecordAnswer(limits, m, w, c.now)]
    case CheckOp(w) => [CheckAnswer(limits, m, w, c.now)]
    case RefundOp(_) => []
    case EvictOp => []
  }

  function Answers(limits: Limits, m: Store, run: seq<Call<Op>>): seq<Answer>
    decreases run
  {
    if run == [] then [] else Seen(limits, m, run[0]) + Answers(limits, After(limits, m, run[0]), run[1..])
  }

  predicate IsEviction(op: Op) {
    op.EvictOp?
  }

  // No entry, or one that neither blocks nor can come to matter again.
  predicate Idle(limits: Limits, m: Store, w: Wallet, now: nat) {
    w !in m || (m[w].attempts == 0 && !Live(limits, m, w, now))
  }

  ghost predicate Similar(limits: Limits, now: nat, a: Store, b: Store) {
    forall w :: (Idle(limits, a, w, now) && Idle(limits, b, w, now)) || (w in a && w in b && a[w] == b[w])
  }

  lemma SimilarLater(limits: Limits, now: nat, later: nat, a: Store, b: Store)
    requires now <= later && Similar(limits, now, a, b)
    ensures Similar(limits, later, a, b)
  {
    forall w
      ensures (Idle(limits, a, w, later) && Idle(limits, b, w, later)) || (w in a && w in b && a[w] == b[w])
    {
      assert (Idle(limits, a, w, now) && Idle(limits, b, w, now)) || (w in a && w in b && a[w] == b[w]);
    }
  }

  lemma SimilarStep(limits: Limits, a: Store, b: Store, c: Call<Op>)
    requires Similar(limits, c.now, a, b)
    ensures Seen(limits, a, c) == Seen(limits, b, c)
    ensures Similar(limits, c.now, After(limits, a, c), After(limits, b, c))
    ensures c.op.EvictOp? ==> Similar(limits, c.now, After(limits, a, c), b)
  {
    if !c.op.EvictOp? {
      var v := c.op.wallet;
      assert (Idle(limits, a, v, c.now) && Idle(limits, b, v, c.now)) || (v in a && v in b && a[v] == b[v]);
    }
    forall w
      ensures var a', b' := After(limits, a, c), After(limits, b, c);
              (Idle(limits, a', w, c.now) && Idle(limits, b', w, c.now)) || (w in a' && w in b' && a'[w] == b'[w])
      ensures var a' := After(limits, a, c);
              c.op.EvictOp? ==>
                || (Idle(limits, a', w, c.now) && Idle(limits, b, w, c.now))
                || (w in a' && w in b && a'[w] == b[w])
    {
      assert (Idle(limits, a, w, c.now) && Idle(limits, b, w, c.now)) || (w in a && w in b && a[w] == b[w]);
    }
  }

  lemma {:induction false} SimilarRuns(limits: Limits, start: nat, a: Store, b: Store, run: seq<Call<Op>>)
    requires Similar(limits, start, a, b) && ClockNeverRunsBack(start, run)
    ensures Answers(limits, a, run) == Answers(limits, b, Without(run, IsEviction))
    decreases run
  {
    if run != [] {
      var c := run[0];
      SimilarLater(limits, start, c.now, a, b);
      SimilarStep(limits, a, b, c);
      var rest := Without(run[1..], IsEviction);
      if c.op.EvictOp? {
        SimilarRuns(limits, c.now, After(limits, a, c), b, run[1..]);
        assert Without(run, IsEviction) == rest;
      } else {
        SimilarRuns(limits, c.now, After(limits, a, c), After(limits, b, c), run[1..]);
        assert Without(run, IsEviction) == [c] + rest;
        assert ([c] + rest)[1..] == rest;
      }
    }
  }

  // Eviction is unobservable: whatever evictions a run contains, every answer is the one the run
  // gives without them. So two runs that differ only in evictions answer alike.
  lemma EvictionUnobservable(limits: Limits, m: Store, run: seq<Call<Op>>, other: seq<Call<Op>>)
    requires ClockNeverRunsBack(0, run) && ClockNeverRunsBack(0, other)
    requires Without(run, IsEviction) == Without(other, IsEviction)
    ensures Answers(limits, m, run) == Answers(limits, m, other)
  {
    SimilarRuns(limits, 0, m, m, run);
    SimilarRuns(limits, 0, m, m, other);
  }
}
