// The challenge nonce registry of src/challenge/registry.rs: per wallet, a map of issued nonces
// and a pointer to the latest one for clients that do not name a nonce.
module ChallengeRegistry {
  import opened Results
  import opened Clock

  type Wallet = nat
  type Nonce = nat

  datatype LissajousParams = LissajousParams(a: nat, b: nat, delta: real, points: nat, anchorX: nat, anchorY: nat)

  datatype Challenge = Challenge(phrase: string, curve: LissajousParams)

  datatype NonceEntry = NonceEntry(challenge: Challenge, issuedAt: nat)

  datatype WalletChallenges = WalletChallenges(current: Option<Nonce>, byNonce: map<Nonce, NonceEntry>)

  type Entries = map<Wallet, WalletChallenges>

  datatype ChallengeError = NotFound | NonceMismatch | Expired

  type Verdict = Result<(), ChallengeError>

  predicate Fresh(ttl: nat, e: NonceEntry, now: nat) {
    AsSecs(Since(now, e.issuedAt)) <= ttl
  }

  function Of(m: Entries, w: Wallet): WalletChallenges {
    if w in m then m[w] else WalletChallenges(None, map[])
  }

  function Pruned(ttl: nat, wc: WalletChallenges, now: nat): WalletChallenges {
    var live := map n | n in wc.byNonce && Fresh(ttl, wc.byNonce[n], now) :: wc.byNonce[n];
    WalletChallenges(if wc.current.Some? && wc.current.value !in live then None else wc.current, live)
  }

  // The nonce is not one the wallet still holds once stale entries are gone.
  predicate CanIssue(ttl: nat, m: Entries, w: Wallet, n: Nonce, now: nat) {
    n !in Pruned(ttl, Of(m, w), now).byNonce
  }

  function Issued(ttl: nat, m: Entries, w: Wallet, n: Nonce, challenge: Challenge, now: nat): Entries {
    var wc := Pruned(ttl, Of(m, w), now);
    m[w := WalletChallenges(Some(n), wc.byNonce[n := NonceEntry(challenge, now)])]
  }

  function IfFresh(ttl: nat, e: NonceEntry, now: nat): Option<Challenge> {
    if Fresh(ttl, e, now) then Some(e.challenge) else None
  }

  function PeekExact(ttl: nat, m: Entries, w: Wallet, n: Nonce, now: nat): Option<Challenge> {
    if w in m && n in m[w].byNonce then IfFresh(ttl, m[w].byNonce[n], now) else None
  }

  function PeekLegacy(ttl: nat, m: Entries, w: Wallet, now: nat): Option<Challenge> {
    if w in m && m[w].current.Some? then PeekExact(ttl, m, w, m[w].current.value, now) else None
  }

  // The order of the checks of consume.
  function ConsumeVerdict(ttl: nat, m: Entries, w: Wallet, n: Nonce, legacy: bool, now: nat): Verdict {
    if w !in m then Err(NotFound)
    else if legacy && m[w].current.None? then Err(NotFound)
    else if legacy && m[w].current.value != n then Err(NonceMismatch)
    else if n !in m[w].byNonce then Err(NonceMismatch)
    else if !Fresh(ttl, m[w].byNonce[n], now) then Err(Expired)
    else Ok(())
  }

  function Consumed(m: Entries, w: Wallet, n: Nonce, legacy: bool): Entries {
    if w !in m || n !in m[w].byNonce || (legacy && m[w].current != Some(n)) then m
    else
      var rest := m[w].byNonce - {n};
      if rest == map[] then m - {w}
      else m[w := WalletChallenges(if m[w].current == Some(n) then None else m[w].current, rest)]
  }

  function Evicted(ttl: nat, m: Entries, now: nat): Entries {
    map w | w in m && Pruned(ttl, m[w], now).byNonce != map[] :: Pruned(ttl, m[w], now)
  }

  // The legacy pointer is empty or names a live entry, and no wallet is empty.
  ghost predicate WellFormed(m: Entries) {
    forall w | w in m :: m[w].byNonce != map[] && (m[w].current.Some? ==> m[w].current.value in m[w].byNonce)
  }

  class ChallengeNonceRegistry {
    var entries: Entries
    const ttlSecs: nat

    constructor (ttlSecs: nat)
      ensures this.ttlSecs == ttlSecs && entries == map[] && WellFormed(entries)
    {
      this.ttlSecs := ttlSecs;
      entries := map[];
    }

    // draws are the random candidates; the loop stops at the first one not in use.
    method Issue(wallet: Wallet, challenge: Challenge, draws: seq<Nonce>, now: nat) returns (nonce: Nonce)
      requires WellFormed(entries)
      requires exists k | 0 <= k < |draws| :: CanIssue(ttlSecs, entries, wallet, draws[k], now)
      modifies this
      ensures CanIssue(ttlSecs, old(entries), wallet, nonce, now) && nonce in draws
      ensures entries == Issued(ttlSecs, old(entries), wallet, nonce, challenge, now)
      ensures WellFormed(entries)
    {
      var wc := Pruned(ttlSecs, if wallet in entries then entries[wallet] else WalletChallenges(None, map[]), now);
      var i := 0;
      while draws[i] in wc.byNonce
        invariant 0 <= i < |draws|
        invariant forall k | 0 <= k < i :: !CanIssue(ttlSecs, entries, wallet, draws[k], now)
        decreases |draws| - i
      {
        i := i + 1;
      }
      nonce := draws[i];
      wc := WalletChallenges(Some(nonce), wc.byNonce[nonce := NonceEntry(challenge, now)]);
      entries := entries[wallet := wc];
    }

    method PeekChallenge(wallet: Wallet, now: nat) returns (c: Option<Challenge>)
      ensures c == PeekLegacy(ttlSecs, entries, wallet, now)
    {
      if wallet !in entries || entries[wallet].current.None? {
        return None;
      }
      var nonce := entries[wallet].current.value;
      if nonce !in entries[wallet].byNonce {
        return None;
      }
      return IfFresh(ttlSecs, entries[wallet].byNonce[nonce], now);
    }

    method PeekExactChallenge(wallet: Wallet, nonce: Nonce, now: nat) returns (c: Option<Challenge>)
      ensures c == PeekExact(ttlSecs, entries, wallet, nonce, now)
    {
      if wallet !in entries || nonce !in entries[wallet].byNonce {
        return None;
      }
      return IfFresh(ttlSecs, entries[wallet].byNonce[nonce], now);
    }

    method Consume(wallet: Wallet, nonce: Nonce, requireCurrentLegacyNonce: bool, now: nat) returns (v: Verdict)
      requires WellFormed(entries)
      modifies this
      ensures v == ConsumeVerdict(ttlSecs, old(entries), wallet, nonce, requireCurrentLegacyNonce, now)
      ensures entries == Consumed(old(entries), wallet, nonce, requireCurrentLegacyNonce)
      ensures WellFormed(entries)
    {
      if wallet !in entries {
        return Err(NotFound);
      }
      var wc := entries[wallet];
      if requireCurrentLegacyNonce {
        if wc.current.None? {
          return Err(NotFound);
        } else if wc.current.value != nonce {
          return Err(NonceMismatch);
        }
      }
      if nonce !in wc.byNonce {
        return Err(NonceMismatch);
      }
      var entry := wc.byNonce[nonce];
      wc := wc.(byNonce := wc.byNonce - {nonce});
      if wc.current == Some(nonce) {
        wc := wc.(current := None);
      }
      if wc.byNonce == map[] {
        entries := entries - {wallet};
      } else {
        entries := entries[wallet := wc];
      }
      return if Fresh(ttlSecs, entry, now) then Ok(()) else Err(Expired);
    }

    method EvictStale(now: nat)
      requires WellFormed(entries)
      modifies this
      ensures entries == Evicted(ttlSecs, old(entries), now)
      ensures WellFormed(entries)
    {
      entries := map w | w in entries && Pruned(ttlSecs, entries[w], now).byNonce != map[]
          :: Pruned(ttlSecs, entries[w], now);
    }
  }

  datatype Op =
    | Issue(wallet: Wallet, nonce: Nonce, challenge: Challenge)
    | PeekPointer(wallet: Wallet)
    | PeekNonce(wallet: Wallet, nonce: Nonce)
    | ConsumePointer(wallet: Wallet, nonce: Nonce)
    | ConsumeNonce(wallet: Wallet, nonce: Nonce)
    | Evict

  datatype Answer = IssuedNonce | Peeked(challenge: Option<Challenge>) | ConsumedAs(verdict: Verdict)

  // A draw that is in use issues nothing: the loop of issue discards it.
  function After(ttl: nat, m: Entries, c: Call<Op>): Entries {
    match c.op
    case Issue(w, n, challenge) => if CanIssue(ttl, m, w, n, c.now) then Issued(ttl, m, w, n, challenge, c.now) else m
    case PeekPointer(_) => m
    case PeekNonce(_, _) => m
    case ConsumePointer(w, n) => Consumed(m, w, n, true)
    case ConsumeNonce(w, n) => Consumed(m, w, n, false)
    case Evict => Evicted(ttl, m, c.now)
  }

  function Seen(ttl: nat, m: Entries, c: Call<Op>): seq<Answer> {
    match c.op
    case Issue(w, n, _) => if CanIssue(ttl, m, w, n, c.now) then [IssuedNonce] else []
    case PeekPointer(w) => [Peeked(PeekLegacy(ttl, m, w, c.now))]
    case PeekNonce(w, n) => [Peeked(PeekExact(ttl, m, w, n, c.now))]
    case ConsumePointer(w, n) => [ConsumedAs(ConsumeVerdict(ttl, m, w, n, true, c.now))]
    case ConsumeNonce(w, n) => [ConsumedAs(ConsumeVerdict(ttl, m, w, n, false, c.now))]
    case Evict => []
  }

  function Run(ttl: nat, m: Entries, run: seq<Call<Op>>): Entries
    decreases run
  {
    if run == [] then m else Run(ttl, After(ttl, m, run[0]), run[1..])
  }

  function Answers(ttl: nat, m: Entries, run: seq<Call<Op>>): seq<Answer>
    decreases run
  {
    if run == [] then [] else Seen(ttl, m, run[0]) + Answers(ttl, After(ttl, m, run[0]), run[1..])
  }

  // Every reachable registry is well-formed.
  lemma {:induction false} RunsStayWellFormed(ttl: nat, m: Entries, run: seq<Call<Op>>)
    requires WellFormed(m)
    ensures WellFormed(Run(ttl, m, run))
    decreases run
  {
    if run != [] {
      StepStaysWellFormed(ttl, m, run[0]);
      RunsStayWellFormed(ttl, After(ttl, m, run[0]), run[1..]);
    }
  }

  lemma StepStaysWellFormed(ttl: nat, m: Entries, c: Call<Op>)
    requires WellFormed(m)
    ensures WellFormed(After(ttl, m, c))
  {
  }

  // A consume succeeds exactly on a held nonce that is less than ttl + 1 seconds old and, for
  // the legacy call, the current one.
  lemma ConsumeSucceedsExactly(ttl: nat, m: Entries, w: Wallet, n: Nonce, legacy: bool, now: nat)
    ensures ConsumeVerdict(ttl, m, w, n, legacy, now).Ok?
            <==> && w in m && n in m[w].byNonce
                 && Since(now, m[w].byNonce[n].issuedAt) < (ttl + 1) * SECOND
                 && (legacy ==> m[w].current == Some(n))
  {
    if w in m && n in m[w].byNonce {
      AsSecsAtMost(Since(now, m[w].byNonce[n].issuedAt), ttl);
    }
  }

  // After an issue the wallet holds the new nonce, current and fresh, and of its other nonces exactly
  // the fresh ones; other wallets are as they were.
  lemma IssueKeepsOnlyFresh(ttl: nat, m: Entries, w: Wallet, n: Nonce, challenge: Challenge, now: nat)
    requires CanIssue(ttl, m, w, n, now)
    ensures var m' := Issued(ttl, m, w, n, challenge, now);
            && w in m' && n in m'[w].byNonce && m'[w].byNonce[n] == NonceEntry(challenge, now)
            && PeekExact(ttl, m', w, n, now) == PeekLegacy(ttl, m', w, now) == Some(challenge)
            && (forall k :: k != n ==>
                  (k in m'[w].byNonce <==>
                     w in m && k in m[w].byNonce && AsSecs(Since(now, m[w].byNonce[k].issuedAt)) <= ttl))
            && (forall k | k != n && k in m'[w].byNonce :: m'[w].byNonce[k] == m[w].byNonce[k])
            && (forall v | v != w :: (v in m' <==> v in m) && (v in m ==> m'[v] == m[v]))
  {
  }

  // Why an exact consume fails.
  lemma ExactConsumeErrors(ttl: nat, m: Entries, w: Wallet, n: Nonce, now: nat)
    ensures var v := ConsumeVerdict(ttl, m, w, n, false, now);
            && (v == Err(NotFound) <==> w !in m)
            && (v == Err(NonceMismatch) <==> w in m && n !in m[w].byNonce)
            && (v == Err(Expired) <==>
                  w in m && n in m[w].byNonce && Since(now, m[w].byNonce[n].issuedAt) >= (ttl + 1) * SECOND)
  {
    if w in m && n in m[w].byNonce {
      AsSecsAtMost(Since(now, m[w].byNonce[n].issuedAt), ttl);
    }
  }
}
