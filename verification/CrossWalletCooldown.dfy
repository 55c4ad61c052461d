// The cross-wallet cooldown of src/auth/cross_wallet_cooldown.rs. A client footprint is its
// salted fingerprint; each one tracks the wallet it last verified and when.
module CrossWalletCooldown {
  import opened Clock

  type Fingerprint = nat

  const MAX_TRACKED_FINGERPRINTS: nat := 50_000

  datatype Tracked = Tracked(wallet: string, seen: nat)

  type Store = map<Fingerprint, Tracked>

  datatype Answer = Allowed | Active(secs: nat)

  // The over-capacity valve: an untracked footprint is let through and not tracked.
  predicate Valve(m: Store, fp: Fingerprint) {
    fp !in m && |m| >= MAX_TRACKED_FINGERPRINTS
  }

  function Cooled(d: nat, m: Store, fp: Fingerprint, wallet: string, now: nat): Answer {
    if fp !in m || m[fp].wallet == wallet || Since(now, m[fp].seen) >= d then Allowed
    else
      var remaining := AsSecs(SaturatingSub(d, Since(now, m[fp].seen)));
      Active(if remaining >= 1 then remaining else 1)
  }

  function Checked(d: nat, m: Store, fp: Fingerprint, wallet: string, now: nat): Store {
    if Valve(m, fp) || Cooled(d, m, fp, wallet, now).Active? then m else m[fp := Tracked(wallet, now)]
  }

  function Evicted(d: nat, m: Store, now: nat): Store {
    map fp | fp in m && Since(now, m[fp].seen) < d :: m[fp]
  }

  class CrossWalletCooldownTracker {
    var cooldowns: Store
    const cooldownDuration: nat

    constructor (cooldownSecs: nat)
      ensures cooldownDuration == cooldownSecs * SECOND && cooldowns == map[]
    {
      cooldownDuration := cooldownSecs * SECOND;
      cooldowns := map[];
    }

    method CheckCooldown(fp: Fingerprint, wallet: string, now: nat) returns (answer: Answer)
      modifies this
      ensures answer == Cooled(cooldownDuration, old(cooldowns), fp, wallet, now)
      ensures cooldowns == Checked(cooldownDuration, old(cooldowns), fp, wallet, now)
    {
      if fp !in cooldowns && |cooldowns| >= MAX_TRACKED_FINGERPRINTS {
        return Allowed;
      }
      if fp !in cooldowns {
        cooldowns := cooldowns[fp := Tracked(wallet, now)];
      }
      var entry := cooldowns[fp];
      if entry.wallet == wallet {
        cooldowns := cooldowns[fp := Tracked(entry.wallet, now)];
        return Allowed;
      }
      var elapsed := Since(now, entry.seen);
      if elapsed >= cooldownDuration {
        cooldowns := cooldowns[fp := Tracked(wallet, now)];
        return Allowed;
      }
      var remaining := AsSecs(SaturatingSub(cooldownDuration, elapsed));
      return Active(if remaining > 1 then remaining else 1);
    }

    method EvictStale(now: nat)
      modifies this
      ensures cooldowns == Evicted(cooldownDuration, old(cooldowns), now)
      ensures forall fp :: fp in cooldowns <==>
                fp in old(cooldowns) && Since(now, old(cooldowns)[fp].seen) < cooldownDuration
      ensures forall fp | fp in cooldowns :: cooldowns[fp] == old(cooldowns)[fp]
    {
      cooldowns := map fp | fp in cooldowns && Since(now, cooldowns[fp].seen) < cooldownDuration :: cooldowns[fp];
    }
  }

  datatype Op = Check(fp: Fingerprint, wallet: string) | Evict

  function After(d: nat, m: Store, c: Call<Op>): Store {
    match c.op
    case Check(fp, wallet) => Checked(d, m, fp, wallet, c.now)
    case Evict => Evicted(d, m, c.now)
  }

  function Seen(d: nat, m: Store, c: Call<Op>): seq<Answer> {
    match c.op
    case Check(fp, wallet) => [Cooled(d, m, fp, wallet, c.now)]
    case Evict => []
  }

  function Answers(d: nat, m: Store, run: seq<Call<Op>>): seq<Answer>
    decreases run
  {
    if run == [] then [] else Seen(d, m, run[0]) + Answers(d, After(d, m, run[0]), run[1..])
  }

  predicate IsEviction(op: Op) {
    op.Evict?
  }

  // The run without evictions never meets the valve.
  predicate BelowCap(d: nat, m: Store, run: seq<Call<Op>>)
    decreases run
  {
    run != [] ==> (run[0].op.Check? ==> !Valve(m, run[0].op.fp)) && BelowCap(d, After(d, m, run[0]), run[1..])
  }

  // a is b with some cooled-down footprints missing.
  ghost predicate Thinned(d: nat, now: nat, a: Store, b: Store) {
    && a.Keys <= b.Keys
    && forall fp | fp in b :: if fp in a then a[fp] == b[fp] else Since(now, b[fp].seen) >= d
  }

  lemma {:induction false} SubsetSize(a: set<Fingerprint>, b: set<Fingerprint>)
    requires a <= b
    ensures |a| <= |b| && (a != b ==> |a| < |b|)
    decreases a
  {
    if a != {} {
      var x :| x in a;
      SubsetSize(a - {x}, b - {x});
    }
  }

  lemma ThinnedBelowValve(a: Store, b: Store, fp: Fingerprint, t: Tracked)
    requires a.Keys <= b.Keys && |b| <= MAX_TRACKED_FINGERPRINTS && !Valve(b, fp)
    ensures !Valve(a, fp)
    ensures |b[fp := t]| <= MAX_TRACKED_FINGERPRINTS
  {
    SubsetSize(a.Keys, b.Keys);
    assert |a| == |a.Keys| && |b| == |b.Keys|;
    if fp !in a && fp in b {
      assert a.Keys != b.Keys;
    }
    assert b[fp := t].Keys == b.Keys + {fp};
    assert fp in b ==> b.Keys + {fp} == b.Keys;
    assert |b[fp := t]| == |b[fp := t].Keys|;
  }

  lemma ThinnedCheck(d: nat, a: Store, b: Store, fp: Fingerprint, wallet: string, now: nat)
    requires Thinned(d, now, a, b) && |b| <= MAX_TRACKED_FINGERPRINTS && !Valve(b, fp)
    ensures Cooled(d, a, fp, wallet, now) == Cooled(d, b, fp, wallet, now)
    ensures Thinned(d, now, Checked(d, a, fp, wallet, now), Checked(d, b, fp, wallet, now))
    ensures |Checked(d, b, fp, wallet, now)| <= MAX_TRACKED_FINGERPRINTS
  {
    ThinnedBelowValve(a, b, fp, Tracked(wallet, now));
    hide Valve;
    assert Cooled(d, a, fp, wallet, now) == Cooled(d, b, fp, wallet, now);
    hide Cooled;
  }

  lemma ThinnedStep(d: nat, a: Store, b: Store, c: Call<Op>)
    requires Thinned(d, c.now, a, b) && |b| <= MAX_TRACKED_FINGERPRINTS
    requires c.op.Check? ==> !Valve(b, c.op.fp)
    ensures Seen(d, a, c) == Seen(d, b, c)
    ensures c.op.Check? ==>
              && Thinned(d, c.now, After(d, a, c), After(d, b, c))
              && |After(d, b, c)| <= MAX_TRACKED_FINGERPRINTS
    ensures c.op.Evict? ==> Thinned(d, c.now, After(d, a, c), b)
  {
    if c.op.Check? {
      hide Checked, Cooled, Thinned;
      ThinnedCheck(d, a, b, c.op.fp, c.op.wallet, c.now);
    }
  }

  lemma {:induction false} ThinnedRuns(d: nat, start: nat, a: Store, b: Store, run: seq<Call<Op>>)
    requires Thinned(d, start, a, b) && |b| <= MAX_TRACKED_FINGERPRINTS
    requires ClockNeverRunsBack(start, run) && BelowCap(d, b, Without(run, IsEviction))
    ensures Answers(d, a, run) == Answers(d, b, Without(run, IsEviction))
    decreases run
  {
    if run != [] {
      var c, rest := run[0], Without(run[1..], IsEviction);
      assert Thinned(d, c.now, a, b);
      if c.op.Evict? {
        assert Without(run, IsEviction) == rest;
        ThinnedStep(d, a, b, c);
        ThinnedRuns(d, c.now, After(d, a, c), b, run[1..]);
      } else {
        assert Without(run, IsEviction) == [c] + rest && ([c] + rest)[1..] == rest;
        ThinnedStep(d, a, b, c);
        ThinnedRuns(d, c.now, After(d, a, c), After(d, b, c), run[1..]);
      }
    }
  }

  // Below the tracking cap, eviction never changes an answer.
  lemma EvictionUnobservable(d: nat, run: seq<Call<Op>>, other: seq<Call<Op>>)
    requires ClockNeverRunsBack(0, run) && ClockNeverRunsBack(0, other)
    requires Without(run, IsEviction) == Without(other, IsEviction) && BelowCap(d, map[], Without(run, IsEviction))
    ensures Answers(d, map[], run) == Answers(d, map[], other)
  {
    ThinnedRuns(d, 0, map[], map[], run);
    ThinnedRuns(d, 0, map[], map[], other);
  }

  // --- Whole runs ---

  function StateAt(d: nat, m: Store, run: seq<Call<Op>>, k: nat): Store
    requires k <= |run|
  {
    if k == 0 then m else After(d, StateAt(d, m, run, k - 1), run[k - 1])
  }

  // --- At the cap, evictions are seen ---

  // An eviction that takes anything makes room for a new footprint.
  lemma EvictionMakesRoom(d: nat, m: Store, now: nat, fp: Fingerprint)
    requires |m| == MAX_TRACKED_FINGERPRINTS && fp !in m
    ensures Valve(Evicted(d, m, now), fp) <==> forall k | k in m :: Since(now, m[k].seen) < d
  {
    var kept := Evicted(d, m, now);
    if k :| k in m && Since(now, m[k].seen) >= d {
      assert k in m.Keys && k !in kept.Keys && kept.Keys <= m.Keys;
      SubsetSize(kept.Keys, m.Keys);
      assert |kept| == |kept.Keys| && |m| == |m.Keys|;
    } else {
      assert kept == m;
    }
  }

  // A new footprint seen twice at once, with two wallets: the second is turned away exactly if the
  // first was tracked.
  lemma TwoWalletsAtOnce(d: nat, m: Store, fp: Fingerprint, first: string, second: string, now: nat)
    requires fp !in m && first != second && d > 0
    ensures var answers := Answers(d, m, [Call(now, Check(fp, first)), Call(now, Check(fp, second))]);
            |answers| == 2 && answers[0] == Allowed && (answers[1].Active? <==> !Valve(m, fp))
  {
    var one, two := Call(now, Check(fp, first)), Call(now, Check(fp, second));
    assert [one, two][1..] == [two] && [two][1..] == [];
    assert Answers(d, After(d, m, one), [two]) == Seen(d, After(d, m, one), two) + [];
  }

  // With the store full, an eviction just before changes what a new footprint is answered exactly
  // if it evicts anything: the footprint is then tracked, and its second wallet turned away.
  lemma EvictionSeenAtCap(d: nat, m: Store, fp: Fingerprint, first: string, second: string, now: nat)
    requires |m| == MAX_TRACKED_FINGERPRINTS && fp !in m && first != second && d > 0
    ensures var checks := [Call(now, Check(fp, first)), Call(now, Check(fp, second))];
            Answers(d, m, [Call(now, Evict)] + checks) != Answers(d, m, checks)
            <==> exists k :: k in m && Since(now, m[k].seen) >= d
  {
    var checks := [Call(now, Check(fp, first)), Call(now, Check(fp, second))];
    var kept := Evicted(d, m, now);
    assert ([Call(now, Evict)] + checks)[1..] == checks;
    assert Answers(d, m, [Call(now, Evict)] + checks) == [] + Answers(d, kept, checks);
    EvictionMakesRoom(d, m, now, fp);
    TwoWalletsAtOnce(d, m, fp, first, second, now);
    TwoWalletsAtOnce(d, kept, fp, first, second, now);
    if forall k | k in m :: Since(now, m[k].seen) < d {
      assert kept == m;
    }
    hide Answers;
  }

  // What the first call of a footprint at the start leaves, and the store after k of them.
  function Opening(fp: Fingerprint): Tracked {
    Tracked("a", 0)
  }

  function Filled(k: nat): Store {
    map fp: nat | 0 <= fp < k :: Opening(fp)
  }

  lemma {:induction false} FilledSize(k: nat)
    ensures |Filled(k)| == k
  {
    if k > 0 {
      FilledSize(k - 1);
      assert Filled(k) == Filled(k - 1)[k - 1 := Opening(k - 1)];
    }
  }

  function Openings(n: nat): seq<Call<Op>> {
    seq(n, fp requires 0 <= fp < n => Call(0, Check(fp, "a")))
  }

  lemma {:induction false} FillsUp(d: nat, n: nat, k: nat)
    requires k <= n <= MAX_TRACKED_FINGERPRINTS
    ensures StateAt(d, map[], Openings(n), k) == Filled(k)
    decreases k
  {
    if k > 0 {
      FillsUp(d, n, k - 1);
      FilledSize(k - 1);
      assert Filled(k) == Filled(k - 1)[k - 1 := Opening(k - 1)];
    }
  }

  // Such a store is reached: a run of one call for each of the footprints that fill it, all of them
  // evictable after the cooldown.
  lemma FullStoreIsReached(d: nat)
    ensures exists run: seq<Call<Op>> ::
              var m := StateAt(d, map[], run, |run|);
              Timed(run) && |m| == MAX_TRACKED_FINGERPRINTS && forall fp | fp in m :: Since(d, m[fp].seen) >= d
  {
    var n :| n == MAX_TRACKED_FINGERPRINTS;
    FillsUp(d, n, n);
    FilledSize(n);
    assert |Openings(n)| == n;
    var m := StateAt(d, map[], Openings(n), n);
    assert Timed(Openings(n)) && |m| == n && forall fp | fp in m :: Since(d, m[fp].seen) >= d;
  }

  // --- What decides the next acceptance ---

  predicate IsCheck(run: seq<Call<Op>>, k: nat, fp: Fingerprint)
    requires k < |run|
  {
    run[k].op.Check? && run[k].op.fp == fp
  }

  predicate Accepted(d: nat, m: Store, run: seq<Call<Op>>, k: nat, fp: Fingerprint)
    requires k < |run|
  {
    IsCheck(run, k, fp) && Cooled(d, StateAt(d, m, run, k), fp, run[k].op.wallet, run[k].now).Allowed?
  }

  // Tracked as left, or cooled down since.
  predicate Remembers(d: nat, s: Store, fp: Fingerprint, t: Tracked, now: nat) {
    if fp in s then s[fp] == t else Since(now, t.seen) >= d
  }

  lemma RemembersAfter(d: nat, s: Store, c: Call<Op>, fp: Fingerprint, t: Tracked, before: nat)
    requires Remembers(d, s, fp, t, before) && t.seen <= before <= c.now
    requires c.op.Check? && c.op.fp == fp ==> Cooled(d, s, fp, c.op.wallet, c.now).Active?
    ensures Remembers(d, After(d, s, c), fp, t, c.now)
  {
    hide Valve;
  }

  // Between two accepted checks of a footprint, it stays tracked since the first, or has been
  // evicted after cooling down.
  lemma {:induction false} TrackedSince(d: nat, m: Store, run: seq<Call<Op>>, i: nat, k: nat, fp: Fingerprint)
    requires Timed(run) && i < k <= |run|
    requires Accepted(d, m, run, i, fp) && !Valve(StateAt(d, m, run, i), fp)
    requires forall x | i < x < k :: !Accepted(d, m, run, x, fp)
    ensures Remembers(d, StateAt(d, m, run, k), fp, Tracked(run[i].op.wallet, run[i].now), run[k - 1].now)
    decreases k
  {
    if k > i + 1 {
      TrackedSince(d, m, run, i, k - 1, fp);
      assert !Accepted(d, m, run, k - 1, fp);
      var s, c := StateAt(d, m, run, k - 1), run[k - 1];
      assert StateAt(d, m, run, k) == After(d, s, c);
      assert run[i].now <= run[k - 2].now <= c.now;
      hide StateAt, Valve, Remembers, After;
      RemembersAfter(d, s, c, fp, Tracked(run[i].op.wallet, run[i].now), run[k - 2].now);
    }
  }

  // The next check of a footprint is accepted exactly when it names the same wallet or comes at
  // least a cooldown later, whatever rejections and evictions happen in between.
  lemma CooldownDecides(d: nat, m: Store, run: seq<Call<Op>>, i: nat, j: nat, fp: Fingerprint)
    requires Timed(run) && i < j < |run|
    requires Accepted(d, m, run, i, fp) && !Valve(StateAt(d, m, run, i), fp)
    requires IsCheck(run, j, fp)
    requires forall x | i < x < j :: !Accepted(d, m, run, x, fp)
    ensures Accepted(d, m, run, j, fp) <==> run[j].op.wallet == run[i].op.wallet || run[j].now - run[i].now >= d
  {
    TrackedSince(d, m, run, i, j, fp);
    assert run[j - 1].now <= run[j].now && run[i].now <= run[j].now;
  }

  // The wait reported to another wallet is what is left in whole seconds, but at least one: with no
  // call in between it is refused until then, unless that is the least wait, and let through once one
  // more second has passed.
  lemma ReportedWaitIsTight(d: nat, m: Store, fp: Fingerprint, wallet: string, now: nat, later: nat)
    requires fp in m && m[fp].seen <= now <= later && Cooled(d, m, fp, wallet, now).Active?
    ensures var secs := Cooled(d, m, fp, wallet, now).secs;
            && secs >= 1
            && (secs >= 2 && later < now + secs * SECOND ==> Cooled(d, m, fp, wallet, later).Active?)
            && (later >= now + (secs + 1) * SECOND ==> Cooled(d, m, fp, wallet, later).Allowed?)
            && (Cooled(d, m, fp, wallet, later).Allowed? <==> later >= m[fp].seen + d)
  {
    var wait := SaturatingSub(d, Since(now, m[fp].seen));
    AsSecsAtMost(wait, AsSecs(wait));
  }
}
