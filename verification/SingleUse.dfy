// A nonce and the upstream forwards it can support, over every interleaving of the peek, the
// identity read, the consume and the forward of any number of requests, with issues, evictions
// and legacy consumes in between (src/validation/handler.rs:887-904, 998-1003, 1047).
module SingleUse {
  import opened Results
  import opened Clock
  import opened ChallengeRegistry

  const NORMALIZED_TOUCH_PROJECTION_VERSION: nat := 2

  datatype Pc =
    | Arrived
    | PhrasePeeked(phrase: Option<string>)
    | Identified(phrase: Option<string>)
    | ConsumedNonce(phrase: Option<string>, at: nat)
    | Forwarded(phrase: Option<string>, at: nat)
    | Gone

  // nonce is the one a verified wallet authorization names: projection 2 has one, others do not.
  // issuedFirst only records whether that nonce had been issued when the request peeked.
  datatype Request = Request(wallet: Wallet, projection: nat, nonce: Option<Nonce>, pc: Pc, issuedFirst: bool)

  datatype Config = Config(ttl: nat, challengeRequired: bool)

  // issued records every nonce ever issued, with what was bound to it.
  datatype State = State(now: nat, entries: Entries, issued: map<(Wallet, Nonce), NonceEntry>, requests: seq<Request>)

  datatype Event =
    | Tick(elapsed: nat)
    | EvictStale
    | IssueNonce(wallet: Wallet, nonce: Nonce, challenge: Challenge)
    | LegacyConsume(wallet: Wallet, nonce: Nonce)
    | Arrive(wallet: Wallet, projection: nat, nonce: Nonce)
    | Peek(i: nat)
    | ReadIdentity(i: nat)
    | ConsumeFor(i: nat)
    | Forward(i: nat)
    | Leave(i: nat)

  const EMPTY := State(0, map[], map[], [])

  function Put(s: State, i: nat, pc: Pc): State
    requires i < |s.requests|
  {
    s.(requests := s.requests[i := s.requests[i].(pc := pc)])
  }

  function StepPeek(c: Config, s: State, i: nat): State
    requires i < |s.requests|
  {
    var r := s.requests[i];
    var challenge := if r.nonce.Some? then PeekExact(c.ttl, s.entries, r.wallet, r.nonce.value, s.now)
                     else PeekLegacy(c.ttl, s.entries, r.wallet, s.now);
    var issuedFirst := r.nonce.Some? && (r.wallet, r.nonce.value) in s.issued;
    var pc := if c.challengeRequired && challenge.None? then Gone
              else PhrasePeeked(if challenge.Some? then Some(challenge.value.phrase) else None);
    s.(requests := s.requests[i := r.(pc := pc, issuedFirst := issuedFirst)])
  }

  function StepConsume(c: Config, s: State, i: nat, phrase: Option<string>): State
    requires i < |s.requests| && s.requests[i].nonce.Some?
  {
    var r := s.requests[i];
    var verdict := ConsumeVerdict(c.ttl, s.entries, r.wallet, r.nonce.value, false, s.now);
    var s' := s.(entries := Consumed(s.entries, r.wallet, r.nonce.value, false));
    if verdict.Ok? then Put(s', i, ConsumedNonce(phrase, s.now)) else Put(s', i, Gone)
  }

  function RequestStep(c: Config, s: State, i: nat, e: Event): State
    requires i < |s.requests|
  {
    var r := s.requests[i];
    match r.pc
    case Arrived => if e.Peek? then StepPeek(c, s, i) else s
    case PhrasePeeked(phrase) =>
      if e.ReadIdentity? then Put(s, i, Identified(phrase)) else if e.Leave? then Put(s, i, Gone) else s
    case Identified(phrase) =>
      if e.ConsumeFor? && r.nonce.Some? then StepConsume(c, s, i, phrase)
      else if e.Forward? && r.nonce.None? then Put(s, i, Forwarded(phrase, s.now))
      else if e.Leave? then Put(s, i, Gone)
      else s
    case ConsumedNonce(phrase, at) =>
      if e.Forward? then Put(s, i, Forwarded(phrase, at)) else if e.Leave? then Put(s, i, Gone) else s
    case _ => s
  }

  // Issued nonces are distinct: a nonce the wallet was ever given is not drawn again.
  function Apply(c: Config, s: State, e: Event): State {
    match e
    case Tick(elapsed) => s.(now := s.now + elapsed)
    case EvictStale => s.(entries := Evicted(c.ttl, s.entries, s.now))
    case IssueNonce(w, n, challenge) =>
      if (w, n) in s.issued || !CanIssue(c.ttl, s.entries, w, n, s.now) then s
      else s.(entries := Issued(c.ttl, s.entries, w, n, challenge, s.now),
              issued := s.issued[(w, n) := NonceEntry(challenge, s.now)])
    case LegacyConsume(w, n) => s.(entries := Consumed(s.entries, w, n, true))
    case Arrive(w, projection, n) =>
      var nonce := if projection == NORMALIZED_TOUCH_PROJECTION_VERSION then Some(n) else None;
      s.(requests := s.requests + [Request(w, projection, nonce, Arrived, false)])
    case _ => if e.i < |s.requests| then RequestStep(c, s, e.i, e) else s
  }

  function Run(c: Config, s: State, events: seq<Event>): State
    decreases events
  {
    if events == [] then s else Run(c, Apply(c, s, events[0]), events[1..])
  }

  predicate Used(r: Request) {
    r.nonce.Some? && (r.pc.ConsumedNonce? || r.pc.Forwarded?)
  }

  predicate Held(m: Entries, w: Wallet, n: Nonce) {
    w in m && n in m[w].byNonce
  }

  // Everything held was issued as it is held.
  ghost predicate HeldAsIssued(s: State) {
    forall w: Wallet, n: Nonce ::
      Held(s.entries, w, n) ==> (w, n) in s.issued && s.issued[(w, n)] == s.entries[w].byNonce[n]
  }

  // A nonce whose consume can no longer succeed, if it was ever issued.
  predicate Dead(c: Config, s: State, w: Wallet, n: Nonce) {
    !Held(s.entries, w, n) || !Fresh(c.ttl, s.entries[w].byNonce[n], s.now)
  }

  // The phrase peeked is the one bound at issue; where none was peeked, the nonce was not issued yet
  // or was past use.
  predicate PhraseOk(c: Config, s: State, r: Request, phrase: Option<string>)
    requires r.nonce.Some?
  {
    var k := (r.wallet, r.nonce.value);
    && (r.issuedFirst ==> k in s.issued)
    && if phrase.Some? then r.issuedFirst && phrase.value == s.issued[k].challenge.phrase
       else !c.challengeRequired && (r.issuedFirst ==> Dead(c, s, k.0, k.1))
  }

  predicate UsedOk(c: Config, s: State, r: Request, phrase: Option<string>, at: nat)
    requires r.nonce.Some?
  {
    var k := (r.wallet, r.nonce.value);
    && k in s.issued && !Held(s.entries, r.wallet, r.nonce.value)
    && phrase == (if r.issuedFirst then Some(s.issued[k].challenge.phrase) else None)
    && (c.challengeRequired ==> r.issuedFirst)
    && Since(at, s.issued[k].issuedAt) < (c.ttl + 1) * SECOND
  }

  predicate RequestOk(c: Config, s: State, r: Request) {
    && (r.projection == NORMALIZED_TOUCH_PROJECTION_VERSION <==> r.nonce.Some?)
    && (r.nonce.Some? ==>
          match r.pc
          case PhrasePeeked(phrase) => PhraseOk(c, s, r, phrase)
          case Identified(phrase) => PhraseOk(c, s, r, phrase)
          case ConsumedNonce(phrase, at) => UsedOk(c, s, r, phrase, at)
          case Forwarded(phrase, at) => UsedOk(c, s, r, phrase, at)
          case _ => true)
  }

  ghost predicate UsedOnce(s: State) {
    forall i, j | 0 <= i < j < |s.requests| && Used(s.requests[i]) && Used(s.requests[j]) ::
      s.requests[i].wallet != s.requests[j].wallet || s.requests[i].nonce != s.requests[j].nonce
  }

  ghost predicate Inv(c: Config, s: State) {
    && HeldAsIssued(s) && UsedOnce(s)
    && (forall i | 0 <= i < |s.requests| :: RequestOk(c, s, s.requests[i]))
  }

  // No operation but an issue adds to the store, and no issue touches another nonce.
  lemma NothingAppears(c: Config, s: State, w: Wallet, n: Nonce, v: Wallet, k: Nonce, legacy: bool)
    ensures Held(Evicted(c.ttl, s.entries, s.now), w, n) ==>
              Held(s.entries, w, n) && Evicted(c.ttl, s.entries, s.now)[w].byNonce[n] == s.entries[w].byNonce[n]
    ensures var m := Consumed(s.entries, v, k, legacy);
            Held(m, w, n) ==> Held(s.entries, w, n) && m[w].byNonce[n] == s.entries[w].byNonce[n]
    ensures !Held(Consumed(s.entries, v, k, false), v, k)
  {
  }

  // A store that only lost entries.
  lemma ShrinkKeepsInv(c: Config, s: State, m: Entries)
    requires Inv(c, s)
    requires forall w: Wallet, n: Nonce ::
               Held(m, w, n) ==> Held(s.entries, w, n) && m[w].byNonce[n] == s.entries[w].byNonce[n]
    ensures Inv(c, s.(entries := m))
  {
    var s' := s.(entries := m);
    forall i | 0 <= i < |s.requests|
      ensures RequestOk(c, s', s.requests[i])
    {
      assert RequestOk(c, s, s.requests[i]);
    }
  }

  lemma IssueKeepsInv(c: Config, s: State, w: Wallet, n: Nonce, challenge: Challenge)
    requires Inv(c, s) && (w, n) !in s.issued
    ensures Inv(c, Apply(c, s, IssueNonce(w, n, challenge)))
  {
    var s' := Apply(c, s, IssueNonce(w, n, challenge));
    forall v: Wallet, k: Nonce | Held(s'.entries, v, k)
      ensures (v, k) in s'.issued && s'.issued[(v, k)] == s'.entries[v].byNonce[k]
    {
      if v != w || k != n {
        assert Held(s.entries, v, k);
      }
    }
    forall i | 0 <= i < |s.requests|
      ensures RequestOk(c, s', s.requests[i])
    {
      var r := s.requests[i];
      assert RequestOk(c, s, r);
      if r.nonce.Some? && Held(s'.entries, r.wallet, r.nonce.value) && (r.wallet != w || r.nonce.value != n) {
        assert Held(s.entries, r.wallet, r.nonce.value);
      }
    }
  }

  // A request that moves without becoming used.
  lemma MoveKeepsInv(c: Config, s: State, i: nat, r: Request)
    requires Inv(c, s) && i < |s.requests| && RequestOk(c, s, r)
    requires r.wallet == s.requests[i].wallet && r.nonce == s.requests[i].nonce
    requires Used(r) ==> Used(s.requests[i])
    ensures Inv(c, s.(requests := s.requests[i := r]))
  {
    hide RequestOk, HeldAsIssued;
    var s' := s.(requests := s.requests[i := r]);
    forall j | 0 <= j < |s.requests|
      ensures RequestOk(c, s', s'.requests[j])
    {
      SameStores(c, s, s', s'.requests[j]);
    }
    SameHeld(s, s');
  }

  lemma SameStores(c: Config, s: State, s': State, r: Request)
    requires s.entries == s'.entries && s.issued == s'.issued && s.now == s'.now
    ensures RequestOk(c, s, r) <==> RequestOk(c, s', r)
  {
  }

  lemma SameHeld(s: State, s': State)
    requires s.entries == s'.entries && s.issued == s'.issued
    ensures HeldAsIssued(s) <==> HeldAsIssued(s')
  {
  }

  lemma PeekKeepsInv(c: Config, s: State, i: nat)
    requires Inv(c, s) && i < |s.requests| && s.requests[i].pc.Arrived?
    ensures Inv(c, StepPeek(c, s, i))
  {
    var s', r := StepPeek(c, s, i), s.requests[i];
    assert RequestOk(c, s, r);
    if r.nonce.Some? && Held(s.entries, r.wallet, r.nonce.value) {
      assert (r.wallet, r.nonce.value) in s.issued;
    }
    MoveKeepsInv(c, s, i, s'.requests[i]);
  }

  lemma ConsumeKeepsInv(c: Config, s: State, i: nat, phrase: Option<string>)
    requires Inv(c, s) && i < |s.requests| && s.requests[i].nonce.Some? && s.requests[i].pc == Identified(phrase)
    ensures Inv(c, StepConsume(c, s, i, phrase))
  {
    var s', r := StepConsume(c, s, i, phrase), s.requests[i];
    var w, n := r.wallet, r.nonce.value;
    var m := Consumed(s.entries, w, n, false);
    forall v: Wallet, k: Nonce
      ensures Held(m, v, k) ==> Held(s.entries, v, k) && m[v].byNonce[k] == s.entries[v].byNonce[k]
    {
      NothingAppears(c, s, v, k, w, n, false);
    }
    ShrinkKeepsInv(c, s, m);
    var s1 := s.(entries := m);
    NothingAppears(c, s, w, n, w, n, false);
    ConsumeSucceedsExactly(c.ttl, s.entries, w, n, false, s.now);
    assert RequestOk(c, s, r);
    if s'.requests[i].pc.Gone? {
      MoveKeepsInv(c, s1, i, r.(pc := Gone));
    } else {
      assert Held(s.entries, w, n);
      FirstUseKeepsInv(c, s, s1, i, phrase);
    }
  }

  // The first use of a nonce: while it was held, nobody had used it.
  lemma FirstUseKeepsInv(c: Config, s: State, s1: State, i: nat, phrase: Option<string>)
    requires Inv(c, s) && Inv(c, s1) && s1.requests == s.requests && s1.issued == s.issued && s1.now == s.now
    requires i < |s.requests| && s.requests[i].nonce.Some? && s.requests[i].pc == Identified(phrase)
    requires var r := s.requests[i];
             && Held(s.entries, r.wallet, r.nonce.value) && !Held(s1.entries, r.wallet, r.nonce.value)
             && Since(s.now, s.entries[r.wallet].byNonce[r.nonce.value].issuedAt) < (c.ttl + 1) * SECOND
             && !Dead(c, s, r.wallet, r.nonce.value)
    ensures Inv(c, Put(s1, i, ConsumedNonce(phrase, s.now)))
  {
    var s', r := Put(s1, i, ConsumedNonce(phrase, s.now)), s.requests[i];
    assert RequestOk(c, s1, r);
    assert RequestOk(c, s', s'.requests[i]);
    forall j | 0 <= j < |s.requests| && j != i && Used(s.requests[j])
      ensures s.requests[j].wallet != r.wallet || s.requests[j].nonce != r.nonce
    {
      assert RequestOk(c, s, s.requests[j]);
    }
    hide RequestOk, HeldAsIssued;
    forall j | 0 <= j < |s.requests|
      ensures RequestOk(c, s', s'.requests[j])
    {
      if j != i {
        SameStores(c, s1, s', s'.requests[j]);
      }
    }
    SameHeld(s1, s');
  }

  lemma RequestStepKeepsInv(c: Config, s: State, i: nat, e: Event)
    requires Inv(c, s) && i < |s.requests|
    ensures Inv(c, RequestStep(c, s, i, e))
  {
    var r := s.requests[i];
    assert RequestOk(c, s, r);
    if r.pc.Arrived? && e.Peek? {
      PeekKeepsInv(c, s, i);
    } else if r.pc.Identified? && e.ConsumeFor? && r.nonce.Some? {
      ConsumeKeepsInv(c, s, i, r.pc.phrase);
    } else {
      var s' := RequestStep(c, s, i, e);
      if s' != s {
        MoveKeepsInv(c, s, i, s'.requests[i]);
      }
    }
  }

  lemma EventKeepsInv(c: Config, s: State, e: Event)
    requires Inv(c, s)
    ensures Inv(c, Apply(c, s, e))
  {
    hide Inv, RequestStep, StepPeek, StepConsume, RequestOk;
    match e
    case Tick(_) => TickKeepsInv(c, s, e.elapsed);
    case EvictStale =>
      forall w: Wallet, n: Nonce
        ensures var m := Evicted(c.ttl, s.entries, s.now);
                Held(m, w, n) ==> Held(s.entries, w, n) && m[w].byNonce[n] == s.entries[w].byNonce[n]
      {
        NothingAppears(c, s, w, n, 0, 0, false);
      }
      ShrinkKeepsInv(c, s, Evicted(c.ttl, s.entries, s.now));
    case IssueNonce(w, n, challenge) =>
      if (w, n) !in s.issued {
        IssueKeepsInv(c, s, w, n, challenge);
      }
    case LegacyConsume(v, k) =>
      forall w: Wallet, n: Nonce
        ensures var m := Consumed(s.entries, v, k, true);
                Held(m, w, n) ==> Held(s.entries, w, n) && m[w].byNonce[n] == s.entries[w].byNonce[n]
      {
        NothingAppears(c, s, w, n, v, k, true);
      }
      ShrinkKeepsInv(c, s, Consumed(s.entries, v, k, true));
    case Arrive(w, projection, n) => ArriveKeepsInv(c, s, w, projection, n);
    case _ =>
      if e.i < |s.requests| {
        RequestStepKeepsInv(c, s, e.i, e);
      }
  }

  lemma TickKeepsInv(c: Config, s: State, elapsed: nat)
    requires Inv(c, s)
    ensures Inv(c, Apply(c, s, Tick(elapsed)))
  {
    var s' := Apply(c, s, Tick(elapsed));
    hide HeldAsIssued;
    SameHeld(s, s');
    forall j | 0 <= j < |s.requests|
      ensures RequestOk(c, s', s'.requests[j])
    {
      assert RequestOk(c, s, s.requests[j]);
    }
  }

  lemma ArriveKeepsInv(c: Config, s: State, w: Wallet, projection: nat, n: Nonce)
    requires Inv(c, s)
    ensures Inv(c, Apply(c, s, Arrive(w, projection, n)))
  {
    var s' := Apply(c, s, Arrive(w, projection, n));
    assert RequestOk(c, s', s'.requests[|s.requests|]);
    hide RequestOk, HeldAsIssued;
    SameHeld(s, s');
    forall j | 0 <= j < |s'.requests|
      ensures RequestOk(c, s', s'.requests[j])
    {
      SameStores(c, s, s', s'.requests[j]);
    }
  }

  lemma {:induction false} RunKeepsInv(c: Config, s: State, events: seq<Event>)
    requires Inv(c, s)
    ensures Inv(c, Run(c, s, events))
    decreases events
  {
    hide Inv, Apply;
    if events != [] {
      EventKeepsInv(c, s, events[0]);
      RunKeepsInv(c, Apply(c, s, events[0]), events[1..]);
    }
  }

  // Each issued nonce supports at most one projection-2 forward.
  lemma NonceForwardsOnce(c: Config, events: seq<Event>, i: nat, j: nat)
    requires var s := Run(c, EMPTY, events);
             && i < |s.requests| && j < |s.requests|
             && s.requests[i].projection == s.requests[j].projection == NORMALIZED_TOUCH_PROJECTION_VERSION
             && s.requests[i].pc.Forwarded? && s.requests[j].pc.Forwarded?
             && s.requests[i].wallet == s.requests[j].wallet && s.requests[i].nonce == s.requests[j].nonce
    ensures i == j
  {
    RunKeepsInv(c, EMPTY, events);
    var s := Run(c, EMPTY, events);
    assert RequestOk(c, s, s.requests[i]) && RequestOk(c, s, s.requests[j]);
  }

  // That forward was consumed less than ttl + 1 seconds after the nonce was issued, and carries the
  // phrase bound to it exactly if the nonce had been issued when the request peeked, as it must have
  // been where challenges are required.
  lemma ForwardCarriesIssuedPhrase(c: Config, events: seq<Event>, i: nat)
    requires var s := Run(c, EMPTY, events);
             && i < |s.requests| && s.requests[i].pc.Forwarded?
             && s.requests[i].projection == NORMALIZED_TOUCH_PROJECTION_VERSION
    ensures var s := Run(c, EMPTY, events);
            var r := s.requests[i];
            && r.nonce.Some? && (r.wallet, r.nonce.value) in s.issued
            && Since(r.pc.at, s.issued[(r.wallet, r.nonce.value)].issuedAt) < (c.ttl + 1) * SECOND
            && (r.pc.phrase == Some(s.issued[(r.wallet, r.nonce.value)].challenge.phrase) <==> r.issuedFirst)
            && (r.pc.phrase == None <==> !r.issuedFirst)
            && (c.challengeRequired ==> r.issuedFirst)
  {
    RunKeepsInv(c, EMPTY, events);
    var s := Run(c, EMPTY, events);
    assert RequestOk(c, s, s.requests[i]);
  }

  // An orderly request is served: if the store holds its nonce fresh, peek, identity, consume and
  // forward pass on the phrase bound to it, and use the nonce up.
  lemma OrderlyRequestIsForwarded(c: Config, s: State, i: nat)
    requires i < |s.requests| && s.requests[i].pc.Arrived? && s.requests[i].nonce.Some?
    requires PeekExact(c.ttl, s.entries, s.requests[i].wallet, s.requests[i].nonce.value, s.now).Some?
    ensures var r := s.requests[i];
            var phrase := PeekExact(c.ttl, s.entries, r.wallet, r.nonce.value, s.now).value.phrase;
            var s' := Run(c, s, [Peek(i), ReadIdentity(i), ConsumeFor(i), Forward(i)]);
            && |s'.requests| == |s.requests| && s'.requests[i].pc == Forwarded(Some(phrase), s.now)
            && !Held(s'.entries, r.wallet, r.nonce.value)
  {
    var r := s.requests[i];
    var phrase := Some(PeekExact(c.ttl, s.entries, r.wallet, r.nonce.value, s.now).value.phrase);
    var s1 := Apply(c, s, Peek(i));
    assert s1.requests[i].pc == PhrasePeeked(phrase);
    var s2 := Apply(c, s1, ReadIdentity(i));
    assert s2.requests[i].pc == Identified(phrase) && s2.entries == s.entries && s2.now == s.now;
    var s3 := Apply(c, s2, ConsumeFor(i));
    assert s3.requests[i].pc == ConsumedNonce(phrase, s.now) && !Held(s3.entries, r.wallet, r.nonce.value);
    UnfoldFour(c, s, Peek(i), ReadIdentity(i), ConsumeFor(i), Forward(i));
  }

  lemma UnfoldFour(c: Config, s: State, e1: Event, e2: Event, e3: Event, e4: Event)
    ensures Run(c, s, [e1, e2, e3, e4]) == Apply(c, Apply(c, Apply(c, Apply(c, s, e1), e2), e3), e4)
  {
    hide Apply;
    var s1 := Apply(c, s, e1);
    var s2 := Apply(c, s1, e2);
    var s3 := Apply(c, s2, e3);
    assert [e1, e2, e3, e4][1..] == [e2, e3, e4] && [e2, e3, e4][1..] == [e3, e4] && [e3, e4][1..] == [e4];
    assert Run(c, s, [e1, e2, e3, e4]) == Run(c, s1, [e2, e3, e4]);
    assert Run(c, s1, [e2, e3, e4]) == Run(c, s2, [e3, e4]);
    assert Run(c, s2, [e3, e4]) == Run(c, s3, [e4]);
    assert [e4][1..] == [];
  }

  // --- Requests without a nonce of their own ---

  // What a request peeked, it keeps: it carries this phrase, has been forwarded with it, or is gone.
  predicate Carries(s: State, i: nat, phrase: Option<string>) {
    && i < |s.requests|
    && match s.requests[i].pc
       case Arrived => false
       case PhrasePeeked(p) => p == phrase
       case Identified(p) => p == phrase
       case ConsumedNonce(p, _) => p == phrase
       case Forwarded(p, _) => p == phrase
       case Gone => true
  }

  lemma CarriesAfter(c: Config, s: State, e: Event, i: nat, phrase: Option<string>)
    requires Carries(s, i, phrase)
    ensures Carries(Apply(c, s, e), i, phrase)
  {
    hide Evicted, Consumed, Issued, CanIssue, ConsumeVerdict, PeekExact, PeekLegacy;
  }

  lemma {:induction false} CarriesForever(c: Config, s: State, events: seq<Event>, i: nat, phrase: Option<string>)
    requires Carries(s, i, phrase)
    ensures Carries(Run(c, s, events), i, phrase)
    decreases events
  {
    if events != [] {
      CarriesAfter(c, s, events[0], i, phrase);
      hide Carries, Apply;
      CarriesForever(c, Apply(c, s, events[0]), events[1..], i, phrase);
    }
  }

  // A request of another projection is forwarded, if at all, with the phrase its wallet's current
  // nonce had when it peeked: none if there was no fresh one, which required challenges refuse.
  lemma OtherProjectionsForwardTheCurrentPhrase(c: Config, before: seq<Event>, i: nat, after: seq<Event>)
    requires var s := Run(c, EMPTY, before);
             && i < |s.requests| && s.requests[i].pc.Arrived?
             && s.requests[i].projection != NORMALIZED_TOUCH_PROJECTION_VERSION
    ensures var s := Run(c, EMPTY, before);
            var current := PeekLegacy(c.ttl, s.entries, s.requests[i].wallet, s.now);
            var s' := Run(c, Apply(c, s, Peek(i)), after);
            && i < |s'.requests|
            && (s'.requests[i].pc.Forwarded? ==>
                  && s'.requests[i].pc.phrase == (if current.Some? then Some(current.value.phrase) else None)
                  && (c.challengeRequired ==> current.Some?))
  {
    var s := Run(c, EMPTY, before);
    RunKeepsInv(c, EMPTY, before);
    assert RequestOk(c, s, s.requests[i]);
    hide Run, Inv;
    PeekedPhraseIsForwarded(c, s, i, after);
  }

  lemma PeekedPhraseIsForwarded(c: Config, s: State, i: nat, events: seq<Event>)
    requires i < |s.requests| && s.requests[i].pc.Arrived? && s.requests[i].nonce.None?
    ensures var current := PeekLegacy(c.ttl, s.entries, s.requests[i].wallet, s.now);
            var s' := Run(c, Apply(c, s, Peek(i)), events);
            && i < |s'.requests|
            && (s'.requests[i].pc.Forwarded? ==>
                  && s'.requests[i].pc.phrase == (if current.Some? then Some(current.value.phrase) else None)
                  && (c.challengeRequired ==> current.Some?))
  {
    var current := PeekLegacy(c.ttl, s.entries, s.requests[i].wallet, s.now);
    var s1 := Apply(c, s, Peek(i));
    CarriesForever(c, s1, events, i, if current.Some? then Some(current.value.phrase) else None);
    if c.challengeRequired && current.None? {
      GoneForever(c, s1, events, i);
    }
  }

  lemma {:induction false} GoneForever(c: Config, s: State, events: seq<Event>, i: nat)
    requires i < |s.requests| && s.requests[i].pc.Gone?
    ensures var s' := Run(c, s, events); i < |s'.requests| && s'.requests[i].pc.Gone?
    decreases events
  {
    if events != [] {
      GoneAfter(c, s, events[0], i);
      hide Apply;
      GoneForever(c, Apply(c, s, events[0]), events[1..], i);
    }
  }

  lemma GoneAfter(c: Config, s: State, e: Event, i: nat)
    requires i < |s.requests| && s.requests[i].pc.Gone?
    ensures var s' := Apply(c, s, e); i < |s'.requests| && s'.requests[i].pc.Gone?
  {
    hide Evicted, Consumed, Issued, CanIssue, ConsumeVerdict, PeekExact, PeekLegacy;
  }

  // A request that names a nonce its wallet has been issued.
  predicate Names(s: State, i: nat, w: Wallet, n: Nonce, entry: NonceEntry) {
    && (w, n) in s.issued && s.issued[(w, n)] == entry && i < |s.requests|
    && var r := s.requests[i];
    && r.wallet == w && r.nonce == Some(n) && r.projection == NORMALIZED_TOUCH_PROJECTION_VERSION
    && (r.pc.Arrived? || r.pc.Gone? || r.issuedFirst)
  }

  lemma {:induction false} NamesForever(
      c: Config, s: State, events: seq<Event>, i: nat, w: Wallet, n: Nonce, entry: NonceEntry)
    requires Names(s, i, w, n, entry)
    ensures Names(Run(c, s, events), i, w, n, entry)
    decreases events
  {
    if events != [] {
      NamesAfter(c, s, events[0], i, w, n, entry);
      hide Names, Apply;
      NamesForever(c, Apply(c, s, events[0]), events[1..], i, w, n, entry);
    }
  }

  lemma NamesAfter(c: Config, s: State, e: Event, i: nat, w: Wallet, n: Nonce, entry: NonceEntry)
    requires Names(s, i, w, n, entry)
    ensures Names(Apply(c, s, e), i, w, n, entry)
  {
    hide Evicted, Consumed, Issued, CanIssue, ConsumeVerdict, PeekExact, PeekLegacy;
  }

  // Every request that names a nonce issued before it arrived is forwarded, if at all, with the
  // phrase bound to that nonce at issue, whether or not challenges are required.
  lemma NamedNonceForwardsItsPhrase(c: Config, before: seq<Event>, w: Wallet, n: Nonce, after: seq<Event>)
    requires (w, n) in Run(c, EMPTY, before).issued
    ensures var s := Run(c, EMPTY, before);
            var s' := Run(c, Apply(c, s, Arrive(w, NORMALIZED_TOUCH_PROJECTION_VERSION, n)), after);
            && |s'.requests| > |s.requests|
            && (s'.requests[|s.requests|].pc.Forwarded? ==>
                  s'.requests[|s.requests|].pc.phrase == Some(s.issued[(w, n)].challenge.phrase))
  {
    var arrive := Arrive(w, NORMALIZED_TOUCH_PROJECTION_VERSION, n);
    var s := Run(c, EMPTY, before);
    var s1 := Apply(c, s, arrive);
    var s', i := Run(c, s1, after), |s.requests|;
    RunKeepsInv(c, EMPTY, before);
    EventKeepsInv(c, s, arrive);
    RunKeepsInv(c, s1, after);
    NamesForever(c, s1, after, i, w, n, s.issued[(w, n)]);
    assert RequestOk(c, s', s'.requests[i]);
  }

  // The condition has both sides: without the requirement, a request that names a nonce before it is
  // drawn, and peeks before that too, is forwarded with no phrase.
  lemma NonceNamedBeforeItsDraw(ttl: nat, challenge: Challenge)
    ensures exists events: seq<Event> ::
              var s := Run(Config(ttl, false), EMPTY, events);
              |s.requests| == 1 && s.requests[0] == Request(1, 2, Some(5), Forwarded(None, 0), false)
  {
    var c := Config(ttl, false);
    var events := [Arrive(1, 2, 5), Peek(0), IssueNonce(1, 5, challenge), ReadIdentity(0), ConsumeFor(0), Forward(0)];
    UnfoldSix(c, EMPTY, events);
    PeekThenIssue(ttl, challenge);
    ConsumeThenForward(ttl, challenge);
    hide Apply;
    assert Run(c, EMPTY, events).requests == [Request(1, 2, Some(5), Forwarded(None, 0), false)];
  }

  function Late(challenge: Challenge, pc: Pc): State {
    State(0, map[1 := WalletChallenges(Some(5), map[5 := NonceEntry(challenge, 0)])],
          map[(1, 5) := NonceEntry(challenge, 0)], [Request(1, 2, Some(5), pc, false)])
  }

  lemma PeekThenIssue(ttl: nat, challenge: Challenge)
    ensures var c := Config(ttl, false);
            Apply(c, Apply(c, Apply(c, EMPTY, Arrive(1, 2, 5)), Peek(0)), IssueNonce(1, 5, challenge))
            == Late(challenge, PhrasePeeked(None))
  {
    var c := Config(ttl, false);
    assert Apply(c, EMPTY, Arrive(1, 2, 5)) == State(0, map[], map[], [Request(1, 2, Some(5), Arrived, false)]);
    var s := State(0, map[], map[], [Request(1, 2, Some(5), PhrasePeeked(None), false)]);
    assert Apply(c, State(0, map[], map[], [Request(1, 2, Some(5), Arrived, false)]), Peek(0)) == s;
    assert Pruned(ttl, Of(map[], 1), 0) == WalletChallenges(None, map[]);
  }

  lemma ConsumeThenForward(ttl: nat, challenge: Challenge)
    ensures var c := Config(ttl, false);
            Apply(c, Apply(c, Apply(c, Late(challenge, PhrasePeeked(None)), ReadIdentity(0)), ConsumeFor(0)),
                Forward(0)).requests
            == [Request(1, 2, Some(5), Forwarded(None, 0), false)]
  {
    var c := Config(ttl, false);
    assert Apply(c, Late(challenge, PhrasePeeked(None)), ReadIdentity(0)) == Late(challenge, Identified(None));
    var s := Apply(c, Late(challenge, Identified(None)), ConsumeFor(0));
    assert s.requests == [Request(1, 2, Some(5), ConsumedNonce(None, 0), false)];
  }

  lemma UnfoldSix(c: Config, s: State, events: seq<Event>)
    requires |events| == 6
    ensures Run(c, s, events)
            == Apply(c, Apply(c, Apply(c, Apply(c, Apply(c, Apply(c, s, events[0]), events[1]), events[2]),
                events[3]), events[4]), events[5])
  {
    hide Apply;
    var e1, e2, e3, e4, e5 := events[1..], events[2..], events[3..], events[4..], events[5..];
    assert e1[1..] == e2 && e2[1..] == e3 && e3[1..] == e4 && e4[1..] == e5 && e5[1..] == [];
    var s1 := Apply(c, s, events[0]);
    var s2 := Apply(c, s1, events[1]);
    var s3 := Apply(c, s2, events[2]);
    var s4 := Apply(c, s3, events[3]);
    assert Run(c, s, events) == Run(c, s1, e1) == Run(c, s2, e2) == Run(c, s3, e3) == Run(c, s4, e4);
    assert Run(c, s4, e4) == Run(c, Apply(c, s4, events[4]), e5);
    assert Run(c, Apply(c, s4, events[4]), e5) == Run(c, Apply(c, Apply(c, s4, events[4]), events[5]), []);
  }
}
