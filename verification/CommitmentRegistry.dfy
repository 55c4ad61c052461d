// Seen commitments per API key (src/relayer/commitment_registry.rs) and the first-verification
// rule that rests on them (src/relayer/handler.rs:107-139).
module CommitmentRegistry {
  import opened Clock

  type ApiKey = string
  type Commitment = nat

  const MAX_COMMITMENTS_PER_KEY: nat := 10_000
  const ENTRY_TTL_SECS: nat := 3600

  datatype Entry = Entry(commitments: set<Commitment>, lastActivity: nat)

  type Entries = map<ApiKey, Entry>

  function SetOf(m: Entries, key: ApiKey): set<Commitment> {
    if key in m then m[key].commitments else {}
  }

  predicate Known(m: Entries, key: ApiKey, c: Commitment) {
    c in SetOf(m, key)
  }

  // A new commitment finds a full set: the set is emptied before it is added.
  predicate ClearsFullSet(m: Entries, key: ApiKey, c: Commitment) {
    !Known(m, key, c) && |SetOf(m, key)| >= MAX_COMMITMENTS_PER_KEY
  }

  function Recorded(m: Entries, key: ApiKey, c: Commitment, now: nat): Entries {
    m[key := Entry((if ClearsFullSet(m, key, c) then {} else SetOf(m, key)) + {c}, now)]
  }

  predicate Stale(e: Entry, now: nat) {
    AsSecs(Since(now, e.lastActivity)) >= ENTRY_TTL_SECS
  }

  function Evicted(m: Entries, now: nat): Entries {
    map key | key in m && !Stale(m[key], now) :: m[key]
  }

  ghost predicate WithinCap(m: Entries) {
    forall key | key in m :: |m[key].commitments| <= MAX_COMMITMENTS_PER_KEY
  }

  class Registry {
    var entries: Entries

    constructor ()
      ensures entries == map[] && WithinCap(entries)
    {
      entries := map[];
    }

    method CheckAndRecord(key: ApiKey, commitment: Commitment, now: nat) returns (known: bool)
      requires WithinCap(entries)
      modifies this
      ensures known == Known(old(entries), key, commitment)
      ensures entries == Recorded(old(entries), key, commitment, now)
      ensures WithinCap(entries)
    {
      var entry := if key in entries then entries[key] else Entry({}, now);
      entry := entry.(lastActivity := now);
      if commitment in entry.commitments {
        entries := entries[key := entry];
        assert entry.commitments == entry.commitments + {commitment};
        return true;
      }
      if |entry.commitments| >= MAX_COMMITMENTS_PER_KEY {
        entry := entry.(commitments := {});
      }
      entry := entry.(commitments := entry.commitments + {commitment});
      entries := entries[key := entry];
      return false;
    }

    method EvictStale(now: nat)
      requires WithinCap(entries)
      modifies this
      ensures entries == Evicted(old(entries), now)
      ensures WithinCap(entries)
    {
      entries := map key | key in entries
          && AsSecs(Since(now, entries[key].lastActivity)) < ENTRY_TTL_SECS :: entries[key];
    }
  }

  // claimsFirst is is_first_verification of the request.
  datatype Op = Verify(key: ApiKey, commitment: Commitment, claimsFirst: bool) | Evict

  function After(m: Entries, c: Call<Op>): Entries {
    match c.op
    case Verify(key, commitment, _) => Recorded(m, key, commitment, c.now)
    case Evict => Evicted(m, c.now)
  }

  function StateAt(run: seq<Call<Op>>, k: nat): Entries
    requires k <= |run|
  {
    if k == 0 then map[] else After(StateAt(run, k - 1), run[k - 1])
  }

  predicate Concerns(run: seq<Call<Op>>, k: nat, key: ApiKey)
    requires k < |run|
  {
    run[k].op.Verify? && run[k].op.key == key
  }

  // The call is classified as a first verification, which needs no proof.
  predicate ProofFree(run: seq<Call<Op>>, k: nat, key: ApiKey, c: Commitment)
    requires k < |run|
  {
    Concerns(run, k, key) && run[k].op.commitment == c && run[k].op.claimsFirst && !Known(StateAt(run, k), key, c)
  }

  lemma {:induction false} EveryReachableSetWithinCap(run: seq<Call<Op>>, k: nat)
    requires k <= |run|
    ensures WithinCap(StateAt(run, k))
  {
    if k > 0 {
      EveryReachableSetWithinCap(run, k - 1);
    }
  }

  // A registered key was last active at its latest call.
  lemma {:induction false} LastActivity(run: seq<Call<Op>>, k: nat, key: ApiKey)
    requires Timed(run) && k <= |run|
    ensures key in StateAt(run, k) ==>
              forall x | 0 <= x < k && Concerns(run, x, key) :: run[x].now <= StateAt(run, k)[key].lastActivity
    decreases k
  {
    if k > 0 {
      LastActivity(run, k - 1, key);
    }
  }

  // What can make a registry forget a commitment: a full set cleared by another new one, or an
  // eviction that comes at least 3600 seconds after every earlier call of the key.
  predicate ForgetsAt(run: seq<Call<Op>>, x: nat, key: ApiKey)
    requires x < |run|
  {
    || (Concerns(run, x, key) && ClearsFullSet(StateAt(run, x), key, run[x].op.commitment))
    || (run[x].op.Evict?
        && forall y | 0 <= y < x && Concerns(run, y, key) :: run[x].now - run[y].now >= ENTRY_TTL_SECS * SECOND)
  }

  // A commitment recorded at call i is known until something forgets it.
  lemma {:induction false} KnownUntilForgotten(run: seq<Call<Op>>, i: nat, k: nat, key: ApiKey)
    requires Timed(run) && i < k <= |run| && Concerns(run, i, key)
    requires !Known(StateAt(run, k), key, run[i].op.commitment)
    ensures exists x :: i < x < k && ForgetsAt(run, x, key)
    decreases k
  {
    var c := run[i].op.commitment;
    if k > i + 1 {
      var s, call := StateAt(run, k - 1), run[k - 1];
      if !Known(s, key, c) {
        KnownUntilForgotten(run, i, k - 1, key);
      } else {
        if call.op.Evict? {
          AsSecsAtMost(Since(call.now, s[key].lastActivity), ENTRY_TTL_SECS);
          LastActivity(run, k - 1, key);
        }
        assert ForgetsAt(run, k - 1, key);
      }
    }
  }

  // Two proof-free registrations of one commitment under one key are separated by a clear of a
  // full set or by an eviction after at least an idle hour.
  lemma ProofFreeRepliesAreSeparated(run: seq<Call<Op>>, i: nat, j: nat, key: ApiKey, c: Commitment)
    requires Timed(run) && i < j < |run|
    requires ProofFree(run, i, key, c) && ProofFree(run, j, key, c)
    ensures exists x :: i < x < j && ForgetsAt(run, x, key)
  {
    KnownUntilForgotten(run, i, j, key);
  }

  // --- When nothing is forgotten ---

  // The commitments that the calls of a key have named before call k.
  function Named(run: seq<Call<Op>>, k: nat, key: ApiKey): set<Commitment>
    requires k <= |run|
  {
    set x | 0 <= x < k && Concerns(run, x, key) :: run[x].op.commitment
  }

  // Some call of the key, from i on, comes less than an hour before the eviction x.
  predicate RecentlyActive(run: seq<Call<Op>>, i: nat, x: nat, key: ApiKey)
    requires x < |run|
  {
    exists y | i <= y < x :: Concerns(run, y, key) && run[x].now - run[y].now < ENTRY_TTL_SECS * SECOND
  }

  lemma SubsetSize(a: set<Commitment>, b: set<Commitment>)
    requires a <= b
    ensures |a| <= |b|
  {
    assert a + (b - a) == b;
    assert |a + (b - a)| == |a| + |b - a|;
  }

  lemma {:induction false} HeldWereNamed(run: seq<Call<Op>>, k: nat, key: ApiKey)
    requires k <= |run|
    ensures SetOf(StateAt(run, k), key) <= Named(run, k, key)
    decreases k
  {
    if k > 0 {
      HeldWereNamed(run, k - 1, key);
      assert Named(run, k - 1, key) <= Named(run, k, key);
      if Concerns(run, k - 1, key) {
        assert run[k - 1].op.commitment in Named(run, k, key);
      }
    }
  }

  // While a key's calls name at most ten thousand commitments and no eviction finds it idle for an
  // hour, everything it has recorded stays known.
  lemma KnownWhileFewAndActive(run: seq<Call<Op>>, i: nat, k: nat, key: ApiKey)
    requires Timed(run) && i < k <= |run| && Concerns(run, i, key)
    requires |Named(run, k, key)| <= 10_000
    requires forall x | i < x < k && run[x].op.Evict? :: RecentlyActive(run, i, x, key)
    ensures Known(StateAt(run, k), key, run[i].op.commitment)
  {
    if !Known(StateAt(run, k), key, run[i].op.commitment) {
      KnownUntilForgotten(run, i, k, key);
      var x :| i < x < k && ForgetsAt(run, x, key);
      assert !run[x].op.Evict?;
      var held, added := SetOf(StateAt(run, x), key), run[x].op.commitment;
      HeldWereNamed(run, x, key);
      assert Named(run, x, key) <= Named(run, k, key) && added in Named(run, k, key);
      assert |held + {added}| == |held| + 1;
      SubsetSize(held + {added}, Named(run, k, key));
      assert false;
    }
  }

  // --- When something is forgotten ---

  lemma {:induction false} LastActivityIsACall(run: seq<Call<Op>>, k: nat, key: ApiKey)
    requires k <= |run| && key in StateAt(run, k)
    ensures exists y :: 0 <= y < k && Concerns(run, y, key) && run[y].now == StateAt(run, k)[key].lastActivity
    decreases k
  {
    if Concerns(run, k - 1, key) {
    } else {
      LastActivityIsACall(run, k - 1, key);
    }
  }

  // An eviction that comes an hour after every call of a key drops all it has recorded.
  lemma IdleKeysAreForgotten(run: seq<Call<Op>>, x: nat, key: ApiKey)
    requires x < |run| && run[x].op.Evict?
    requires forall y | 0 <= y < x && Concerns(run, y, key) :: run[x].now - run[y].now >= 3600 * SECOND
    ensures SetOf(StateAt(run, x + 1), key) == {}
  {
    if key in StateAt(run, x) {
      LastActivityIsACall(run, x, key);
      AsSecsAtMost(Since(run[x].now, StateAt(run, x)[key].lastActivity), 3600);
    }
  }
}
