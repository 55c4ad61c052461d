// What callers of the nonce registry can observe: eviction only ever changes which error a
// failed consume reports, the legacy calls see one overwritable slot per wallet, and the exact
// calls see a flat table of (wallet, nonce) pairs (src/challenge/registry.rs:72-199).
module RegistryRefinement {
  import opened Results
  import opened Clock
  import opened ChallengeRegistry

  // --- Eviction ---

  // What an answer says once the reason of a failed consume is forgotten.
  datatype Observation = SawIssue | SawPeek(challenge: Option<Challenge>) | SawConsume(ok: bool)

  function Observe(a: Answer): Observation {
    match a
    case IssuedNonce => SawIssue
    case Peeked(challenge) => SawPeek(challenge)
    case ConsumedAs(verdict) => SawConsume(verdict.Ok?)
  }

  function Observations(answers: seq<Answer>): seq<Observation> {
    seq(|answers|, i requires 0 <= i < |answers| => Observe(answers[i]))
  }

  predicate IsEviction(op: Op) {
    op.Evict?
  }

  function FreshEntry(ttl: nat, m: Entries, w: Wallet, n: Nonce, now: nat): Option<NonceEntry> {
    if w in m && n in m[w].byNonce && Fresh(ttl, m[w].byNonce[n], now) then Some(m[w].byNonce[n]) else None
  }

  function FreshPointer(ttl: nat, m: Entries, w: Wallet, now: nat): Option<Nonce> {
    if w in m && m[w].current.Some? && FreshEntry(ttl, m, w, m[w].current.value, now).Some? then m[w].current else None
  }

  // The same fresh entries, and the same pointers to fresh entries.
  ghost predicate Similar(ttl: nat, now: nat, a: Entries, b: Entries) {
    && (forall w, n :: FreshEntry(ttl, a, w, n, now) == FreshEntry(ttl, b, w, n, now))
    && (forall w :: FreshPointer(ttl, a, w, now) == FreshPointer(ttl, b, w, now))
  }

  // Entries only ever go stale.
  lemma StaleStaysStale(ttl: nat, e: NonceEntry, now: nat, later: nat)
    requires now <= later && Fresh(ttl, e, later)
    ensures Fresh(ttl, e, now)
  {
    AsSecsAtMost(Since(now, e.issuedAt), ttl);
    AsSecsAtMost(Since(later, e.issuedAt), ttl);
  }

  lemma SimilarLater(ttl: nat, now: nat, later: nat, a: Entries, b: Entries)
    requires now <= later && Similar(ttl, now, a, b)
    ensures Similar(ttl, later, a, b)
  {
    forall w: Wallet, n: Nonce
      ensures FreshEntry(ttl, a, w, n, later) == FreshEntry(ttl, b, w, n, later)
    {
      FreshLater(ttl, a, w, n, now, later);
      FreshLater(ttl, b, w, n, now, later);
      assert FreshEntry(ttl, a, w, n, now) == FreshEntry(ttl, b, w, n, now);
    }
    forall w: Wallet
      ensures FreshPointer(ttl, a, w, later) == FreshPointer(ttl, b, w, later)
    {
      PointerLater(ttl, a, w, now, later);
      PointerLater(ttl, b, w, now, later);
      assert FreshPointer(ttl, a, w, now) == FreshPointer(ttl, b, w, now);
    }
  }

  // A fresh entry later is the fresh entry now, if still young enough.
  lemma FreshLater(ttl: nat, m: Entries, w: Wallet, n: Nonce, now: nat, later: nat)
    requires now <= later
    ensures var e := FreshEntry(ttl, m, w, n, now);
            FreshEntry(ttl, m, w, n, later) == if e.Some? && Fresh(ttl, e.value, later) then e else None
  {
    if w in m && n in m[w].byNonce && Fresh(ttl, m[w].byNonce[n], later) {
      StaleStaysStale(ttl, m[w].byNonce[n], now, later);
    }
  }

  lemma PointerLater(ttl: nat, m: Entries, w: Wallet, now: nat, later: nat)
    requires now <= later
    ensures var p := FreshPointer(ttl, m, w, now);
            FreshPointer(ttl, m, w, later)
            == if p.Some? && FreshEntry(ttl, m, w, p.value, later).Some? then p else None
  {
    if w in m && m[w].current.Some? {
      FreshLater(ttl, m, w, m[w].current.value, now, later);
    }
  }

  // How each operation moves the fresh entries and pointers.
  lemma FreshAfter(ttl: nat, m: Entries, c: Call<Op>, w: Wallet, n: Nonce)
    ensures var e, e' := FreshEntry(ttl, m, w, n, c.now), FreshEntry(ttl, After(ttl, m, c), w, n, c.now);
            match c.op
            case Issue(v, k, challenge) =>
              e' == if v == w && k == n && FreshEntry(ttl, m, v, k, c.now).None?
                  then Some(NonceEntry(challenge, c.now)) else e
            case ConsumePointer(v, k) =>
              e' == if v == w && k == n && FreshPointer(ttl, m, v, c.now) == Some(k) then None else e
            case ConsumeNonce(v, k) => e' == if v == w && k == n then None else e
            case _ => e' == e
  {
    match c.op
    case ConsumePointer(v, k) => FreshAfterConsume(ttl, m, v, k, true, c.now, w, n);
    case ConsumeNonce(v, k) => FreshAfterConsume(ttl, m, v, k, false, c.now, w, n);
    case Evict => FreshAfterEvict(ttl, m, c.now, w, n);
    case _ =>
  }

  lemma FreshAfterConsume(ttl: nat, m: Entries, v: Wallet, k: Nonce, legacy: bool, now: nat, w: Wallet, n: Nonce)
    ensures FreshEntry(ttl, Consumed(m, v, k, legacy), w, n, now)
            == if v == w && k == n && (legacy ==> FreshPointer(ttl, m, v, now) == Some(k)) then None
               else FreshEntry(ttl, m, w, n, now)
  {
    if v == w && w in m {
      assert n in (m[w].byNonce - {k}) <==> n in m[w].byNonce && n != k;
    }
  }

  lemma FreshAfterEvict(ttl: nat, m: Entries, now: nat, w: Wallet, n: Nonce)
    ensures FreshEntry(ttl, Evicted(ttl, m, now), w, n, now) == FreshEntry(ttl, m, w, n, now)
  {
    if w in m && n in m[w].byNonce && Fresh(ttl, m[w].byNonce[n], now) {
      assert n in Pruned(ttl, m[w], now).byNonce;
    }
  }

  lemma PointerAfter(ttl: nat, m: Entries, c: Call<Op>, w: Wallet)
    ensures var p, p' := FreshPointer(ttl, m, w, c.now), FreshPointer(ttl, After(ttl, m, c), w, c.now);
            match c.op
            case Issue(v, k, _) => p' == if v == w && FreshEntry(ttl, m, v, k, c.now).None? then Some(k) else p
            case ConsumePointer(v, k) => p' == if v == w && p == Some(k) then None else p
            case ConsumeNonce(v, k) => p' == if v == w && p == Some(k) then None else p
            case _ => p' == p
  {
    if w in m && m[w].current.Some? {
      var n := m[w].current.value;
      match c.op
      case ConsumePointer(v, k) => FreshAfterConsume(ttl, m, v, k, true, c.now, w, n);
      case ConsumeNonce(v, k) => FreshAfterConsume(ttl, m, v, k, false, c.now, w, n);
      case Evict => FreshAfterEvict(ttl, m, c.now, w, n);
      case _ =>
    }
  }

  lemma SeenFromFresh(ttl: nat, m: Entries, c: Call<Op>)
    ensures var now := c.now;
            Observations(Seen(ttl, m, c)) ==
            match c.op
            case Issue(w, n, _) => if FreshEntry(ttl, m, w, n, now).None? then [SawIssue] else []
            case PeekPointer(w) =>
              var p := FreshPointer(ttl, m, w, now);
              [SawPeek(if p.Some? && FreshEntry(ttl, m, w, p.value, now).Some?
                       then Some(FreshEntry(ttl, m, w, p.value, now).value.challenge) else None)]
            case PeekNonce(w, n) =>
              var e := FreshEntry(ttl, m, w, n, now);
              [SawPeek(if e.Some? then Some(e.value.challenge) else None)]
            case ConsumePointer(w, n) => [SawConsume(FreshPointer(ttl, m, w, now) == Some(n))]
            case ConsumeNonce(w, n) => [SawConsume(FreshEntry(ttl, m, w, n, now).Some?)]
            case Evict => []
  {
  }

  lemma SimilarStep(ttl: nat, a: Entries, b: Entries, c: Call<Op>)
    requires Similar(ttl, c.now, a, b)
    ensures Observations(Seen(ttl, a, c)) == Observations(Seen(ttl, b, c))
    ensures Similar(ttl, c.now, After(ttl, a, c), After(ttl, b, c))
    ensures c.op.Evict? ==> Similar(ttl, c.now, After(ttl, a, c), b)
  {
    hide After, Seen, FreshEntry, FreshPointer;
    SeenFromFresh(ttl, a, c);
    SeenFromFresh(ttl, b, c);
    forall w: Wallet, n: Nonce
      ensures FreshEntry(ttl, After(ttl, a, c), w, n, c.now) == FreshEntry(ttl, After(ttl, b, c), w, n, c.now)
      ensures c.op.Evict? ==> FreshEntry(ttl, After(ttl, a, c), w, n, c.now) == FreshEntry(ttl, b, w, n, c.now)
    {
      FreshAfter(ttl, a, c, w, n);
      FreshAfter(ttl, b, c, w, n);
    }
    forall w: Wallet
      ensures FreshPointer(ttl, After(ttl, a, c), w, c.now) == FreshPointer(ttl, After(ttl, b, c), w, c.now)
      ensures c.op.Evict? ==> FreshPointer(ttl, After(ttl, a, c), w, c.now) == FreshPointer(ttl, b, w, c.now)
    {
      PointerAfter(ttl, a, c, w);
      PointerAfter(ttl, b, c, w);
    }
  }

  lemma ObservationsOfConcat(s: seq<Answer>, t: seq<Answer>)
    ensures Observations(s + t) == Observations(s) + Observations(t)
  {
  }

  lemma {:induction false} SimilarRuns(ttl: nat, start: nat, a: Entries, b: Entries, run: seq<Call<Op>>)
    requires Similar(ttl, start, a, b) && ClockNeverRunsBack(start, run)
    ensures Observations(Answers(ttl, a, run)) == Observations(Answers(ttl, b, Without(run, IsEviction)))
    decreases run
  {
    if run != [] {
      hide Similar, After, Seen, Observations;
      var c, rest := run[0], Without(run[1..], IsEviction);
      SimilarLater(ttl, start, c.now, a, b);
      SimilarStep(ttl, a, b, c);
      ObservationsOfConcat(Seen(ttl, a, c), Answers(ttl, After(ttl, a, c), run[1..]));
      if c.op.Evict? {
        SimilarRuns(ttl, c.now, After(ttl, a, c), b, run[1..]);
        assert Without(run, IsEviction) == rest;
        EvictIsSilent(ttl, a, c);
      } else {
        SimilarRuns(ttl, c.now, After(ttl, a, c), After(ttl, b, c), run[1..]);
        assert Without(run, IsEviction) == [c] + rest && ([c] + rest)[1..] == rest;
        ObservationsOfConcat(Seen(ttl, b, c), Answers(ttl, After(ttl, b, c), rest));
      }
    }
  }

  lemma EvictIsSilent(ttl: nat, m: Entries, c: Call<Op>)
    requires c.op.Evict?
    ensures Observations(Seen(ttl, m, c)) == []
  {
  }

  // Inserting or removing evictions anywhere never changes a peek or whether a consume succeeds.
  lemma EvictionHidesOnlyErrors(ttl: nat, m: Entries, run: seq<Call<Op>>, other: seq<Call<Op>>)
    requires ClockNeverRunsBack(0, run) && ClockNeverRunsBack(0, other)
    requires Without(run, IsEviction) == Without(other, IsEviction)
    ensures Observations(Answers(ttl, m, run)) == Observations(Answers(ttl, m, other))
  {
    SimilarRuns(ttl, 0, m, m, run);
    SimilarRuns(ttl, 0, m, m, other);
  }

  // The error itself does change, exactly when the eviction takes what the error was about: the
  // entry the legacy pointer names, the entry consumed, or for an unknown nonce the whole wallet.
  lemma EvictionChangesTheError(ttl: nat, m: Entries, w: Wallet, n: Nonce, legacy: bool, now: nat)
    requires WellFormed(m)
    ensures ConsumeVerdict(ttl, Evicted(ttl, m, now), w, n, legacy, now) != ConsumeVerdict(ttl, m, w, n, legacy, now)
            <==> w in m
                 && if legacy then m[w].current.Some? && !Fresh(ttl, m[w].byNonce[m[w].current.value], now)
                    else if n in m[w].byNonce then !Fresh(ttl, m[w].byNonce[n], now)
                    else forall k | k in m[w].byNonce :: !Fresh(ttl, m[w].byNonce[k], now)
  {
    if w in m {
      var live := Pruned(ttl, m[w], now).byNonce;
      assert forall k | k in m[w].byNonce && Fresh(ttl, m[w].byNonce[k], now) :: k in live;
    }
  }

  // Such a store is reached: one issue, and the time it takes to go stale.
  lemma ExpiredReadsAsUnknown(challenge: Challenge)
    ensures var issue, evict := Call(0, Issue(1, 2, challenge)), Call(2 * SECOND, Evict);
            var consume := Call(2 * SECOND, ConsumeNonce(1, 2));
            && Answers(0, map[], [issue, consume]) == [IssuedNonce, ConsumedAs(Err(Expired))]
            && Answers(0, map[], [issue, evict, consume]) == [IssuedNonce, ConsumedAs(Err(NotFound))]
  {
    var issue, evict := Call(0, Issue(1, 2, challenge)), Call(2 * SECOND, Evict);
    var consume := Call(2 * SECOND, ConsumeNonce(1, 2));
    var m := After(0, map[], issue);
    var wc := WalletChallenges(Some(2), map[2 := NonceEntry(challenge, 0)]);
    assert m == map[1 := wc];
    assert Pruned(0, wc, 2 * SECOND).byNonce == map[];
    assert After(0, m, evict) == map[];
    assert Seen(0, m, consume) == [ConsumedAs(Err(Expired))];
    assert Answers(0, m, [consume]) == [ConsumedAs(Err(Expired))] + [];
    assert Answers(0, map[], [consume]) == [ConsumedAs(Err(NotFound))] + [];
    assert Answers(0, m, [evict, consume]) == [] + Answers(0, map[], [consume]);
    assert [issue, consume][1..] == [consume] && [issue, evict, consume][1..] == [evict, consume];
    assert [evict, consume][1..] == [consume] && [consume][1..] == [];
  }

  // --- The legacy calls: one overwritable slot per wallet ---

  datatype Slot = Slot(nonce: Nonce, entry: NonceEntry)

  type Slots = map<Wallet, Slot>

  function SlotView(m: Entries): Slots {
    map w | w in m && m[w].current.Some? && m[w].current.value in m[w].byNonce
      :: Slot(m[w].current.value, m[w].byNonce[m[w].current.value])
  }

  function SlotAfter(ttl: nat, s: Slots, c: Call<Op>): Slots {
    match c.op
    case Issue(w, n, challenge) => s[w := Slot(n, NonceEntry(challenge, c.now))]
    case ConsumePointer(w, n) => if w in s && s[w].nonce == n then s - {w} else s
    case Evict => map w | w in s && Fresh(ttl, s[w].entry, c.now) :: s[w]
    case _ => s
  }

  function SlotSeen(ttl: nat, s: Slots, c: Call<Op>): seq<Answer> {
    match c.op
    case Issue(_, _, _) => [IssuedNonce]
    case PeekPointer(w) => [Peeked(if w in s then IfFresh(ttl, s[w].entry, c.now) else None)]
    case ConsumePointer(w, n) =>
      [ConsumedAs(if w !in s then Err(NotFound)
                  else if s[w].nonce != n then Err(NonceMismatch)
                  else if Fresh(ttl, s[w].entry, c.now) then Ok(())
                  else Err(Expired))]
    case _ => []
  }

  function SlotAnswers(ttl: nat, s: Slots, run: seq<Call<Op>>): seq<Answer>
    decreases run
  {
    if run == [] then [] else SlotSeen(ttl, s, run[0]) + SlotAnswers(ttl, SlotAfter(ttl, s, run[0]), run[1..])
  }

  // Only legacy calls, and only draws the issue loop would accept.
  predicate LegacyRun(ttl: nat, m: Entries, run: seq<Call<Op>>)
    decreases run
  {
    run != [] ==>
      && !run[0].op.PeekNonce? && !run[0].op.ConsumeNonce?
      && (run[0].op.Issue? ==> CanIssue(ttl, m, run[0].op.wallet, run[0].op.nonce, run[0].now))
      && LegacyRun(ttl, After(ttl, m, run[0]), run[1..])
  }

  lemma SlotStep(ttl: nat, m: Entries, c: Call<Op>)
    requires WellFormed(m) && !c.op.PeekNonce? && !c.op.ConsumeNonce?
    requires c.op.Issue? ==> CanIssue(ttl, m, c.op.wallet, c.op.nonce, c.now)
    ensures Seen(ttl, m, c) == SlotSeen(ttl, SlotView(m), c)
    ensures SlotView(After(ttl, m, c)) == SlotAfter(ttl, SlotView(m), c)
  {
    var s', spec := SlotView(After(ttl, m, c)), SlotAfter(ttl, SlotView(m), c);
    forall w: Wallet
      ensures (w in s' <==> w in spec) && (w in s' ==> s'[w] == spec[w])
    {
      SlotOfWallet(ttl, m, c, w);
    }
  }

  function SlotIn(s: Slots, w: Wallet): Option<Slot> {
    if w in s then Some(s[w]) else None
  }

  lemma SlotOfWallet(ttl: nat, m: Entries, c: Call<Op>, w: Wallet)
    requires WellFormed(m) && !c.op.PeekNonce? && !c.op.ConsumeNonce?
    requires c.op.Issue? ==> CanIssue(ttl, m, c.op.wallet, c.op.nonce, c.now)
    ensures SlotIn(SlotView(After(ttl, m, c)), w) == SlotIn(SlotAfter(ttl, SlotView(m), c), w)
  {
    match c.op
    case Issue(_, _, _) =>
    case ConsumePointer(v, k) => SlotAfterConsume(m, v, k, w);
    case Evict => SlotAfterEvict(ttl, m, c.now, w);
    case _ =>
  }

  lemma SlotAfterConsume(m: Entries, v: Wallet, k: Nonce, w: Wallet)
    requires WellFormed(m)
    ensures SlotIn(SlotView(Consumed(m, v, k, true)), w)
            == if v == w && w in SlotView(m) && SlotView(m)[w].nonce == k then None else SlotIn(SlotView(m), w)
  {
  }

  lemma SlotAfterEvict(ttl: nat, m: Entries, now: nat, w: Wallet)
    requires WellFormed(m)
    ensures SlotIn(SlotView(Evicted(ttl, m, now)), w)
            == if w in SlotView(m) && Fresh(ttl, SlotView(m)[w].entry, now) then SlotIn(SlotView(m), w) else None
  {
    if w in m && m[w].current.Some? && Fresh(ttl, m[w].byNonce[m[w].current.value], now) {
      assert m[w].current.value in Pruned(ttl, m[w], now).byNonce;
    }
  }

  // Legacy-only runs answer, errors included, as a single overwritable slot per wallet would.
  lemma {:induction false} LegacyRunsSeeOneSlot(ttl: nat, m: Entries, run: seq<Call<Op>>)
    requires WellFormed(m) && LegacyRun(ttl, m, run)
    ensures Answers(ttl, m, run) == SlotAnswers(ttl, SlotView(m), run)
    decreases run
  {
    if run != [] {
      hide WellFormed, SlotView, SlotSeen, SlotAfter, Seen, After;
      SlotStep(ttl, m, run[0]);
      StepStaysWellFormed(ttl, m, run[0]);
      LegacyRunsSeeOneSlot(ttl, After(ttl, m, run[0]), run[1..]);
    }
  }

  // --- All calls together: a flat table, and one pointer a wallet ---

  type Table = map<(Wallet, Nonce), NonceEntry>

  // Nothing is ever pruned: an entry leaves the table by its own consume only, and a pointer moves
  // by an issue only.
  datatype Spec = Spec(table: Table, pointers: map<Wallet, Nonce>)

  function FreshIn(ttl: nat, f: Spec, w: Wallet, n: Nonce, now: nat): Option<NonceEntry> {
    if (w, n) in f.table && Fresh(ttl, f.table[(w, n)], now) then Some(f.table[(w, n)]) else None
  }

  function PointedIn(ttl: nat, f: Spec, w: Wallet, now: nat): Option<Nonce> {
    if w in f.pointers && FreshIn(ttl, f, w, f.pointers[w], now).Some? then Some(f.pointers[w]) else None
  }

  // An exact consume takes the entry it names; a legacy one only if that is the current one.
  function SpecAfter(ttl: nat, f: Spec, c: Call<Op>): Spec {
    match c.op
    case Issue(w, n, challenge) =>
      if FreshIn(ttl, f, w, n, c.now).Some? then f
      else Spec(f.table[(w, n) := NonceEntry(challenge, c.now)], f.pointers[w := n])
    case ConsumeNonce(w, n) => f.(table := f.table - {(w, n)})
    case ConsumePointer(w, n) => if PointedIn(ttl, f, w, c.now) == Some(n) then f.(table := f.table - {(w, n)}) else f
    case _ => f
  }

  function Show(e: Option<NonceEntry>): Observation {
    SawPeek(if e.Some? then Some(e.value.challenge) else None)
  }

  function SpecSeen(ttl: nat, f: Spec, c: Call<Op>): seq<Observation> {
    match c.op
    case Issue(w, n, _) => if FreshIn(ttl, f, w, n, c.now).Some? then [] else [SawIssue]
    case PeekNonce(w, n) => [Show(FreshIn(ttl, f, w, n, c.now))]
    case PeekPointer(w) => [Show(if w in f.pointers then FreshIn(ttl, f, w, f.pointers[w], c.now) else None)]
    case ConsumeNonce(w, n) => [SawConsume(FreshIn(ttl, f, w, n, c.now).Some?)]
    case ConsumePointer(w, n) => [SawConsume(PointedIn(ttl, f, w, c.now) == Some(n))]
    case Evict => []
  }

  function SpecObservations(ttl: nat, f: Spec, run: seq<Call<Op>>): seq<Observation>
    decreases run
  {
    if run == [] then [] else SpecSeen(ttl, f, run[0]) + SpecObservations(ttl, SpecAfter(ttl, f, run[0]), run[1..])
  }

  // The store and the specification have the same fresh entries and the same fresh pointers.
  ghost predicate Matches(ttl: nat, now: nat, m: Entries, f: Spec) {
    && (forall w, n :: FreshEntry(ttl, m, w, n, now) == FreshIn(ttl, f, w, n, now))
    && (forall w :: FreshPointer(ttl, m, w, now) == PointedIn(ttl, f, w, now))
  }

  lemma FreshInAfter(ttl: nat, f: Spec, c: Call<Op>, w: Wallet, n: Nonce)
    ensures var e, e' := FreshIn(ttl, f, w, n, c.now), FreshIn(ttl, SpecAfter(ttl, f, c), w, n, c.now);
            match c.op
            case Issue(v, k, challenge) =>
              e' == if v == w && k == n && e.None? then Some(NonceEntry(challenge, c.now)) else e
            case ConsumePointer(v, k) =>
              e' == if v == w && k == n && PointedIn(ttl, f, v, c.now) == Some(k) then None else e
            case ConsumeNonce(v, k) => e' == if v == w && k == n then None else e
            case _ => e' == e
  {
  }

  lemma PointedInAfter(ttl: nat, f: Spec, c: Call<Op>, w: Wallet)
    ensures var p, p' := PointedIn(ttl, f, w, c.now), PointedIn(ttl, SpecAfter(ttl, f, c), w, c.now);
            match c.op
            case Issue(v, k, _) => p' == if v == w && FreshIn(ttl, f, v, k, c.now).None? then Some(k) else p
            case ConsumePointer(v, k) => p' == if v == w && p == Some(k) then None else p
            case ConsumeNonce(v, k) => p' == if v == w && p == Some(k) then None else p
            case _ => p' == p
  {
  }

  lemma SpecStep(ttl: nat, m: Entries, f: Spec, c: Call<Op>)
    requires Matches(ttl, c.now, m, f)
    ensures Observations(Seen(ttl, m, c)) == SpecSeen(ttl, f, c)
    ensures Matches(ttl, c.now, After(ttl, m, c), SpecAfter(ttl, f, c))
  {
    SeenFromFresh(ttl, m, c);
    hide After, Seen, FreshEntry, FreshPointer, SpecAfter, Observations;
    forall w: Wallet, n: Nonce
      ensures FreshEntry(ttl, After(ttl, m, c), w, n, c.now) == FreshIn(ttl, SpecAfter(ttl, f, c), w, n, c.now)
    {
      FreshAfter(ttl, m, c, w, n);
      FreshInAfter(ttl, f, c, w, n);
    }
    forall w: Wallet
      ensures FreshPointer(ttl, After(ttl, m, c), w, c.now) == PointedIn(ttl, SpecAfter(ttl, f, c), w, c.now)
    {
      PointerAfter(ttl, m, c, w);
      PointedInAfter(ttl, f, c, w);
    }
  }

  lemma MatchesLater(ttl: nat, now: nat, later: nat, m: Entries, f: Spec)
    requires now <= later && Matches(ttl, now, m, f)
    ensures Matches(ttl, later, m, f)
  {
    forall w: Wallet, n: Nonce
      ensures FreshEntry(ttl, m, w, n, later) == FreshIn(ttl, f, w, n, later)
    {
      FreshLater(ttl, m, w, n, now, later);
      if (w, n) in f.table && Fresh(ttl, f.table[(w, n)], later) {
        StaleStaysStale(ttl, f.table[(w, n)], now, later);
      }
    }
    forall w: Wallet
      ensures FreshPointer(ttl, m, w, later) == PointedIn(ttl, f, w, later)
    {
      PointerLater(ttl, m, w, now, later);
      if w in f.pointers && FreshIn(ttl, f, w, f.pointers[w], later).Some? {
        StaleStaysStale(ttl, f.table[(w, f.pointers[w])], now, later);
      }
    }
  }

  // Every run, of exact and legacy calls and evictions in any order, peeks, issues and consumes as
  // the table with its pointers does.
  lemma {:induction false} RunsSeeTableAndPointers(ttl: nat, start: nat, m: Entries, f: Spec, run: seq<Call<Op>>)
    requires Matches(ttl, start, m, f) && ClockNeverRunsBack(start, run)
    ensures Observations(Answers(ttl, m, run)) == SpecObservations(ttl, f, run)
    decreases run
  {
    if run != [] {
      hide Matches, After, SpecAfter, Seen, SpecSeen, Observations;
      var c := run[0];
      MatchesLater(ttl, start, c.now, m, f);
      SpecStep(ttl, m, f, c);
      ObservationsOfConcat(Seen(ttl, m, c), Answers(ttl, After(ttl, m, c), run[1..]));
      RunsSeeTableAndPointers(ttl, c.now, After(ttl, m, c), SpecAfter(ttl, f, c), run[1..]);
    }
  }

  // The empty store matches the empty table, so every run of the service is such a run.
  lemma EmptyMatches(ttl: nat, now: nat)
    ensures Matches(ttl, now, map[], Spec(map[], map[]))
  {
  }

  // A call that may touch this entry of the table.
  predicate NamesEntry(c: Call<Op>, w: Wallet, n: Nonce) {
    match c.op
    case Issue(v, k, _) => v == w && k == n
    case ConsumeNonce(v, k) => v == w && k == n
    case ConsumePointer(v, k) => v == w && k == n
    case _ => false
  }

  function SpecRun(ttl: nat, f: Spec, run: seq<Call<Op>>): Spec
    decreases run
  {
    if run == [] then f else SpecRun(ttl, SpecAfter(ttl, f, run[0]), run[1..])
  }

  // Later issues, other nonces, moves of the pointer and evictions leave an entry alone.
  lemma {:induction false} OthersLeaveEntryAlone(ttl: nat, f: Spec, run: seq<Call<Op>>, w: Wallet, n: Nonce)
    requires forall i | 0 <= i < |run| :: !NamesEntry(run[i], w, n)
    ensures (w, n) in SpecRun(ttl, f, run).table <==> (w, n) in f.table
    ensures (w, n) in f.table ==> SpecRun(ttl, f, run).table[(w, n)] == f.table[(w, n)]
    decreases run
  {
    if run != [] {
      assert !NamesEntry(run[0], w, n);
      OthersLeaveEntryAlone(ttl, SpecAfter(ttl, f, run[0]), run[1..], w, n);
    }
  }
}
