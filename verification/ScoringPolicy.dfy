// The composite risk policy of src/validation/composite.rs, over exact arithmetic.
module ScoringPolicy {
  import opened Results

  const PARTS_PER_MILLION: nat := 1_000_000

  datatype PolicyError =
    | WeightOutOfRange
    | WeightBudgetMismatch
    | ThresholdOutOfRange
    | ThresholdOrderInvalid
    | FrictionThresholdUnreachable
    | RejectThresholdUnreachable

  datatype ScoringConfig = ScoringConfig(
    biometric: real, tts: real, automation: real, reputation: real, friction: real, reject: real)

  // The seven configured parts per million.
  datatype Ppm = Ppm(
    biometric: nat, tts: nat, unallocated: nat, automation: nat, reputation: nat, friction: nat, reject: nat)

  function Share(ppm: nat): real {
    ppm as real / 1000000.0
  }

  function FromPpm(p: Ppm): ScoringConfig {
    ScoringConfig(Share(p.biometric), Share(p.tts), Share(p.automation), Share(p.reputation), Share(p.friction),
                  Share(p.reject))
  }

  function TryNew(p: Ppm): Result<ScoringConfig, PolicyError> {
    if p.biometric > PARTS_PER_MILLION || p.tts > PARTS_PER_MILLION || p.unallocated > PARTS_PER_MILLION
       || p.automation > PARTS_PER_MILLION || p.reputation > PARTS_PER_MILLION then Err(WeightOutOfRange)
    else if p.biometric + p.tts + p.unallocated + p.automation + p.reputation != PARTS_PER_MILLION then
      Err(WeightBudgetMismatch)
    else if p.friction > PARTS_PER_MILLION || p.reject > PARTS_PER_MILLION then Err(ThresholdOutOfRange)
    else if p.friction >= p.reject then Err(ThresholdOrderInvalid)
    else
      var activeMaximum := PARTS_PER_MILLION - p.unallocated;
      if p.friction > activeMaximum then Err(FrictionThresholdUnreachable)
      else if p.reject >= activeMaximum then Err(RejectThresholdUnreachable)
      else Ok(FromPpm(p))
  }

  function DevelopmentDefault(): ScoringConfig {
    FromPpm(Ppm(200_000, 200_000, 200_000, 200_000, 200_000, 900_000, PARTS_PER_MILLION))
  }

  // An f64 component: a finite value, or NaN or an infinity.
  datatype Component = NonFinite | Value(value: real)

  datatype RiskComponents = RiskComponents(
    biometric: Component, tts: Component, temporal: Component, automation: Component, reputation: Component)

  function Bounded(c: Component): (r: real)
    ensures 0.0 <= r <= 1.0
  {
    if c.NonFinite? then 1.0 else if c.value < 0.0 then 0.0 else if c.value > 1.0 then 1.0 else c.value
  }

  function Score(config: ScoringConfig, c: RiskComponents): real {
    Weighted(config.biometric, Bounded(c.biometric)) + Weighted(config.tts, Bounded(c.tts))
    + Weighted(config.automation, Bounded(c.automation)) + Weighted(config.reputation, Bounded(c.reputation))
  }

  function Weighted(weight: real, risk: real): real {
    weight * risk
  }

  predicate Rejects(config: ScoringConfig, score: real) {
    score > config.reject
  }

  predicate RequiresFriction(config: ScoringConfig, score: real) {
    score >= config.friction
  }

  datatype Decision = Pass | Friction | Reject

  // The order in which score_success applies the two thresholds.
  function Decide(config: ScoringConfig, c: RiskComponents): Decision {
    var score := Score(config, c);
    if Rejects(config, score) then Reject
    else if RequiresFriction(config, score) then Friction
    else Pass
  }

  predicate Accepted(p: Ppm) {
    TryNew(p).Ok?
  }

  // The accepted policies: an exact weight budget and two ordered thresholds below the active
  // budget. The friction bound is implied by the other two.
  lemma AcceptedExactly(p: Ppm)
    ensures Accepted(p) <==>
            && p.biometric + p.tts + p.unallocated + p.automation + p.reputation == PARTS_PER_MILLION
            && p.friction < p.reject < p.biometric + p.tts + p.automation + p.reputation
  {
  }

  lemma WeightedBounds(w: real, r: real)
    requires w >= 0.0 && 0.0 <= r <= 1.0
    ensures 0.0 <= Weighted(w, r) <= w
  {
    WeightedOrder(w, 0.0, r);
    WeightedOrder(w, r, 1.0);
  }

  lemma WeightedOrder(w: real, r: real, r': real)
    requires w >= 0.0 && r <= r'
    ensures Weighted(w, r) <= Weighted(w, r')
    ensures Weighted(w, 0.0) == 0.0 && Weighted(w, 1.0) == w
  {
    var gap := r' - r;
    assert w * gap >= 0.0;
    assert w * r' == w * r + w * gap;
  }

  function ActiveMaximum(p: Ppm): real {
    1.0 - Share(p.unallocated)
  }

  lemma ScoreInRange(p: Ppm, c: RiskComponents)
    requires Accepted(p)
    ensures 0.0 <= Score(FromPpm(p), c) <= ActiveMaximum(p)
  {
    hide Weighted, Bounded;
    var config := FromPpm(p);
    WeightedBounds(config.biometric, Bounded(c.biometric));
    WeightedBounds(config.tts, Bounded(c.tts));
    WeightedBounds(config.automation, Bounded(c.automation));
    WeightedBounds(config.reputation, Bounded(c.reputation));
  }

  // Raising a risk, a non-finite value counting as the highest.
  predicate AtMost(a: Component, b: Component) {
    b.NonFinite? || (a.Value? && a.value <= b.value)
  }

  predicate NoRiskierThan(a: RiskComponents, b: RiskComponents) {
    AtMost(a.biometric, b.biometric) && AtMost(a.tts, b.tts) && AtMost(a.automation, b.automation)
    && AtMost(a.reputation, b.reputation)
  }

  function Severity(d: Decision): nat {
    match d
    case Pass => 0
    case Friction => 1
    case Reject => 2
  }

  // Raising any scored risk never yields a more lenient outcome, whatever the unscored temporal
  // component does.
  lemma RaisingRiskIsNeverLenient(p: Ppm, a: RiskComponents, b: RiskComponents)
    requires Accepted(p) && NoRiskierThan(a, b)
    ensures Score(FromPpm(p), a) <= Score(FromPpm(p), b)
    ensures Severity(Decide(FromPpm(p), a)) <= Severity(Decide(FromPpm(p), b))
  {
    hide Weighted;
    var config := FromPpm(p);
    WeightedOrder(config.biometric, Bounded(a.biometric), Bounded(b.biometric));
    WeightedOrder(config.tts, Bounded(a.tts), Bounded(b.tts));
    WeightedOrder(config.automation, Bounded(a.automation), Bounded(b.automation));
    WeightedOrder(config.reputation, Bounded(a.reputation), Bounded(b.reputation));
    RejectionImpliesFriction(p, a);
    RejectionImpliesFriction(p, b);
  }

  // The outcome by the score in parts per million: rejection above its threshold, another capture
  // from the friction threshold up to and including the rejection one, and a pass below.
  lemma OutcomeByScore(p: Ppm, c: RiskComponents)
    requires Accepted(p)
    ensures var ppm := 1000000.0 * Score(FromPpm(p), c);
            && (Decide(FromPpm(p), c) == Reject <==> ppm > p.reject as real)
            && (Decide(FromPpm(p), c) == Friction <==> p.friction as real <= ppm <= p.reject as real)
            && (Decide(FromPpm(p), c) == Pass <==> ppm < p.friction as real)
  {
    hide Score;
  }

  lemma RejectionImpliesFriction(p: Ppm, c: RiskComponents)
    requires Accepted(p)
    ensures var score := Score(FromPpm(p), c);
            Rejects(FromPpm(p), score) ==> RequiresFriction(FromPpm(p), score)
  {
  }

  // Every scored component at the same level.
  function Uniform(level: real): RiskComponents {
    RiskComponents(Value(level), Value(level), Value(0.0), Value(level), Value(level))
  }

  lemma UniformScore(p: Ppm, level: real)
    requires Accepted(p) && 0.0 <= level <= 1.0
    ensures Score(FromPpm(p), Uniform(level)) == Weighted(ActiveMaximum(p), level)
  {
    var c := FromPpm(p);
    assert c.biometric + c.tts + c.automation + c.reputation == ActiveMaximum(p);
    assert (c.biometric + c.tts + c.automation + c.reputation) * level
        == c.biometric * level + c.tts * level + c.automation * level + c.reputation * level;
  }

  // Friction and rejection are both reachable under every accepted policy. A pass is reachable
  // exactly when the friction threshold is positive: with a threshold of 0 an accepted policy
  // turns everyone away.
  lemma OutcomesReachable(p: Ppm)
    requires Accepted(p)
    ensures exists c :: Decide(FromPpm(p), c) == Friction
    ensures exists c :: Decide(FromPpm(p), c) == Reject
    ensures (exists c :: Decide(FromPpm(p), c) == Pass) <==> p.friction > 0
  {
    var config, top := FromPpm(p), ActiveMaximum(p);
    var level := config.reject / top;
    Ratio(config.reject, top);
    UniformScore(p, level);
    assert Decide(config, Uniform(level)) == Friction;
    UniformScore(p, 1.0);
    assert Decide(config, Uniform(1.0)) == Reject;
    if p.friction > 0 {
      UniformScore(p, 0.0);
      assert Decide(config, Uniform(0.0)) == Pass;
    }
    forall c
      ensures p.friction == 0 ==> Decide(config, c) != Pass
    {
      ScoreInRange(p, c);
    }
  }

  lemma Ratio(a: real, b: real)
    requires 0.0 <= a < b
    ensures 0.0 <= a / b <= 1.0 && Weighted(b, a / b) == a
  {
  }

  // The development policy cannot reach either threshold, and no signed policy may equal it.
  lemma DevelopmentDefaultAlwaysPasses(c: RiskComponents)
    ensures Decide(DevelopmentDefault(), c) == Pass
    ensures forall p | Accepted(p) :: FromPpm(p) != DevelopmentDefault()
  {
    hide Weighted;
    WeightedBounds(0.2, Bounded(c.biometric));
    WeightedBounds(0.2, Bounded(c.tts));
    WeightedBounds(0.2, Bounded(c.automation));
    WeightedBounds(0.2, Bounded(c.reputation));
  }

  // Full risk in one component alone costs exactly that component's configured share, and the
  // temporal component costs nothing.
  lemma LoneRiskCostsItsShare(p: Ppm)
    ensures var none, full := Value(0.0), Value(1.0);
            && Score(FromPpm(p), RiskComponents(full, none, none, none, none)) == Share(p.biometric)
            && Score(FromPpm(p), RiskComponents(none, full, none, none, none)) == Share(p.tts)
            && Score(FromPpm(p), RiskComponents(none, none, full, none, none)) == 0.0
            && Score(FromPpm(p), RiskComponents(none, none, none, full, none)) == Share(p.automation)
            && Score(FromPpm(p), RiskComponents(none, none, none, none, full)) == Share(p.reputation)
            && Score(FromPpm(p), RiskComponents(NonFinite, none, none, none, none)) == Share(p.biometric)
  {
    var c := FromPpm(p);
    WeightedOrder(c.biometric, 0.0, 1.0);
    WeightedOrder(c.tts, 0.0, 1.0);
    WeightedOrder(c.automation, 0.0, 1.0);
    WeightedOrder(c.reputation, 0.0, 1.0);
    hide Weighted, Share;
  }

  // The development default weighs its four risks with a fifth each.
  lemma DefaultIsNeutral()
    ensures var none, full, config := Value(0.0), Value(1.0), DevelopmentDefault();
            && Score(config, RiskComponents(full, none, none, none, none)) == 0.2
            && Score(config, RiskComponents(none, full, none, none, none)) == 0.2
            && Score(config, RiskComponents(none, none, none, full, none)) == 0.2
            && Score(config, RiskComponents(none, none, none, none, full)) == 0.2
            && config.friction == 0.9 && config.reject == 1.0
  {
    assert Share(200_000) == 0.2 && Share(900_000) == 0.9 && Share(PARTS_PER_MILLION) == 1.0;
    hide Score, Share, Bounded;
    LoneRiskCostsItsShare(Ppm(200_000, 200_000, 200_000, 200_000, 200_000, 900_000, PARTS_PER_MILLION));
  }

  predicate InRange(p: Ppm) {
    p.biometric <= 1_000_000 && p.tts <= 1_000_000 && p.unallocated <= 1_000_000 && p.automation <= 1_000_000
    && p.reputation <= 1_000_000
  }

  function Budget(p: Ppm): nat {
    p.biometric + p.tts + p.unallocated + p.automation + p.reputation
  }

  // Why a policy is refused. A friction threshold past the active budget is named only if it is
  // below a rejection threshold that is too.
  lemma RefusalReasons(p: Ppm)
    ensures TryNew(p) == Err(WeightOutOfRange) <==> !InRange(p)
    ensures TryNew(p) == Err(WeightBudgetMismatch) <==> InRange(p) && Budget(p) != 1_000_000
    ensures Budget(p) == 1_000_000 ==>
              && (TryNew(p) == Err(ThresholdOutOfRange) <==> p.friction > 1_000_000 || p.reject > 1_000_000)
              && (TryNew(p) == Err(ThresholdOrderInvalid) <==> p.reject <= p.friction <= 1_000_000)
              && (TryNew(p) == Err(FrictionThresholdUnreachable) <==>
                    p.friction < p.reject <= 1_000_000 < p.friction + p.unallocated)
              && (TryNew(p) == Err(RejectThresholdUnreachable) <==>
                    p.friction < p.reject <= 1_000_000
                    && p.friction + p.unallocated <= 1_000_000 <= p.reject + p.unallocated)
  {
  }
}
