// What the two validation handlers do once the validator has answered: the branches of
// src/validation/handler.rs:1075-1223 and src/paired/finalize.rs:300-418 that keep or return the
// two budgets, and an independent account of which replies render a verdict.
module Replies {
  import opened Results
  import opened ScoringPolicy

  datatype Endpoint = ValidateFeatures | ValidateSession | Verify

  datatype ValidatorRisks = ValidatorRisks(biometric: Component, tts: Component, temporal: Component)

  // A JSON body, given by how it parses: as a success body, as an error body, and as the two
  // smaller shapes the session handler reads. None is a parse failure of that shape.
  datatype SuccessBody = SuccessBody(valid: bool, risks: ValidatorRisks)
  datatype ErrorBody = ErrorBody(reason: Option<string>, probingDetected: Option<bool>)
  datatype Payload = Payload(
    success: Option<SuccessBody>, error: Option<ErrorBody>, assuranceTier: Option<nat>, reason: Option<string>)

  // body is None when it is not JSON within the bound.
  datatype Reply = Reply(status: nat, body: Option<Payload>)

  // Risks the executor adds itself.
  datatype LocalRisks = LocalRisks(automation: Component, reputation: Component)

  const MAX_ASSURANCE_TIER: nat := 2
  const BAD_REQUEST: nat := 400
  const CONFLICT: nat := 409
  const SERVICE_UNAVAILABLE: nat := 503
  const PAIRED_VERDICT_REASONS: set<string> :=
    {"phrase_content_mismatch", "trace_incomplete", "audio_evidence_insufficient", "anchor_retry"}
  const PAIRED_PROTOCOL_REASONS: set<string> := {
    "protocol_unsupported", "session_unknown", "session_expired", "session_superseded", "subject_mismatch",
    "session_not_ready", "finalize_in_progress", "session_consumed", "final_digest_mismatch",
    "evidence_digest_mismatch", "evidence_length_mismatch", "audio_format_invalid", "projection_not_supported",
    "invalid_request"}

  // What the client is told.
  datatype Outcome =
    | Valid
    | ValidationFailed(reason: Option<string>)
    | ProjectionUpdateRequired
    | TechnicalFailure
    | ProtocolRefused(refusal: string)
    | Unavailable

  // Which budgets a handler returns after the validator was reached.
  datatype Return = Nothing | SlotOnly | Both

  datatype Settlement = Settlement(outcome: Outcome, returned: Return)

  predicate IsSuccess(status: nat) {
    200 <= status < 300
  }

  predicate IsClientError(status: nat) {
    400 <= status < 500
  }

  function Components(risks: ValidatorRisks, local: LocalRisks): RiskComponents {
    RiskComponents(risks.biometric, risks.tts, risks.temporal, local.automation, local.reputation)
  }

  // score_success: a rejection or friction keeps the slot spent, a standing pass returns it.
  function ScoreSuccess(config: ScoringConfig, risks: ValidatorRisks, local: LocalRisks): Settlement {
    var score := Score(config, Components(risks, local));
    if Rejects(config, score) then Settlement(ValidationFailed(None), Nothing)
    else if RequiresFriction(config, score) then Settlement(ValidationFailed(Some("captcha_required")), Nothing)
    else Settlement(Valid, SlotOnly)
  }

  function SettleFeatures(config: ScoringConfig, reply: Reply, local: LocalRisks): Settlement {
    if !IsSuccess(reply.status) then
      if reply.status != BAD_REQUEST && reply.status != CONFLICT then Settlement(Unavailable, Both)
      else if reply.body.None? || reply.body.value.error.None? then Settlement(Unavailable, Both)
      else
        var rejection := reply.body.value.error.value;
        if rejection.reason == Some("projection_update_required") then Settlement(ProjectionUpdateRequired, Both)
        else
          var reason := if rejection.reason == Some("phrase_content_mismatch") then rejection.reason else None;
          Settlement(ValidationFailed(reason), Nothing)
    else if reply.body.None? || reply.body.value.success.None? then Settlement(Unavailable, Both)
    else
      var body := reply.body.value.success.value;
      if !body.valid then Settlement(Unavailable, Both) else ScoreSuccess(config, body.risks, local)
  }

  function SettleSession(config: ScoringConfig, reply: Reply, local: LocalRisks, writesBaseline: bool): Settlement {
    if reply.body.None? then Settlement(Unavailable, Both)
    else
      var payload := reply.body.value;
      if IsSuccess(reply.status) then
        if payload.success.None? || payload.assuranceTier.None? then Settlement(Unavailable, Both)
        else if !payload.success.value.valid || payload.assuranceTier.value > MAX_ASSURANCE_TIER then
          Settlement(Unavailable, Both)
        else ScoreSuccess(config, payload.success.value.risks, local)
      else if reply.status == BAD_REQUEST && payload.error.Some? then
        var rejection := payload.error.value;
        var reason := if rejection.reason.Some? && rejection.reason.value in PAIRED_VERDICT_REASONS
                      then rejection.reason else None;
        if reason == Some("anchor_retry") then
          if !writesBaseline || rejection.probingDetected == Some(true)
          then Settlement(ValidationFailed(None), Nothing)
          else Settlement(ValidationFailed(reason), SlotOnly)
        else Settlement(ValidationFailed(reason), Nothing)
      else if reply.status == SERVICE_UNAVAILABLE && payload.reason == Some("technical_failure") then
        Settlement(TechnicalFailure, Both)
      else if payload.reason.Some? && IsClientError(reply.status)
          && payload.reason.value in PAIRED_PROTOCOL_REASONS then
        Settlement(ProtocolRefused(payload.reason.value), Both)
      else Settlement(Unavailable, Both)
  }

  function Settle(
      endpoint: Endpoint, config: ScoringConfig, reply: Reply, local: LocalRisks, writesBaseline: bool): Settlement {
    if endpoint.ValidateSession? then SettleSession(config, reply, local, writesBaseline)
    else SettleFeatures(config, reply, local)
  }

  // The account the documentation gives, without the order of the branches.

  // The validator passed the capture: a success status and a well-formed, self-consistent body.
  predicate PassRendered(endpoint: Endpoint, reply: Reply) {
    && IsSuccess(reply.status)
    && reply.body.Some?
    && reply.body.value.success.Some?
    && reply.body.value.success.value.valid
    && (endpoint.ValidateSession? ==>
          reply.body.value.assuranceTier.Some? && reply.body.value.assuranceTier.value <= MAX_ASSURANCE_TIER)
  }

  // The validator rejected the capture: a rejection status and a body carrying the risk fields.
  predicate RejectionRendered(endpoint: Endpoint, reply: Reply) {
    && (reply.status == BAD_REQUEST || (endpoint.ValidateFeatures? && reply.status == CONFLICT))
    && reply.body.Some?
    && reply.body.value.error.Some?
    && (endpoint.ValidateFeatures? ==> reply.body.value.error.value.reason != Some("projection_update_required"))
  }

  predicate VerdictRendered(endpoint: Endpoint, reply: Reply) {
    PassRendered(endpoint, reply) || RejectionRendered(endpoint, reply)
  }

  // A quality verdict on a paired baseline write that is not part of a probing campaign.
  predicate QualityRetry(endpoint: Endpoint, reply: Reply, writesBaseline: bool) {
    && endpoint.ValidateSession? && writesBaseline
    && RejectionRendered(endpoint, reply)
    && reply.body.value.error.value.reason == Some("anchor_retry")
    && reply.body.value.error.value.probingDetected != Some(true)
  }

  // A verdict that counts against the wallet.
  predicate FailureRendered(endpoint: Endpoint, config: ScoringConfig, reply: Reply, local: LocalRisks) {
    || RejectionRendered(endpoint, reply)
    || (PassRendered(endpoint, reply)
        && !Decide(config, Components(reply.body.value.success.value.risks, local)).Pass?)
  }

  // Quota stays spent exactly for verdicts, the wallet slot exactly for failures that are not a
  // quality retry, and only a verdict that stands as a pass is reported valid.
  lemma SettlementMatchesVerdict(endpoint: Endpoint, config: ScoringConfig, reply: Reply, local: LocalRisks,
                                 writesBaseline: bool)
    requires endpoint != Verify
    ensures var s := Settle(endpoint, config, reply, local, writesBaseline);
            && (s.returned != Both <==> VerdictRendered(endpoint, reply))
            && (s.returned == Nothing <==>
                  FailureRendered(endpoint, config, reply, local) && !QualityRetry(endpoint, reply, writesBaseline))
            && (s.outcome == Valid <==>
                  PassRendered(endpoint, reply) && !FailureRendered(endpoint, config, reply, local))
            && (s.outcome.ValidationFailed? <==> FailureRendered(endpoint, config, reply, local))
  {
    hide Score;
  }

  // What the client may learn: a reason only from the endpoint's own list, a quality reason only
  // when it is honoured, a request for another capture exactly in the friction range, a protocol
  // refusal and a technical failure exactly as the validator reported them.
  lemma OutcomesDiscloseOnlyListedReasons(endpoint: Endpoint, config: ScoringConfig, reply: Reply, local: LocalRisks,
                                          writesBaseline: bool)
    requires endpoint != Verify
    ensures var outcome := Settle(endpoint, config, reply, local, writesBaseline).outcome;
            && (outcome.ValidationFailed? && outcome.reason.Some? ==>
                  || outcome.reason.value == "captcha_required"
                  || (endpoint.ValidateFeatures? && outcome.reason.value == "phrase_content_mismatch")
                  || (endpoint.ValidateSession? && outcome.reason.value in PAIRED_VERDICT_REASONS))
            && (outcome == ValidationFailed(Some("anchor_retry")) <==> QualityRetry(endpoint, reply, writesBaseline))
            && (forall refusal :: outcome == ProtocolRefused(refusal) <==>
                  && endpoint.ValidateSession? && IsClientError(reply.status) && !VerdictRendered(endpoint, reply)
                  && reply.body.Some? && reply.body.value.reason == Some(refusal) && refusal in PAIRED_PROTOCOL_REASONS)
            && (outcome == ValidationFailed(Some("captcha_required")) <==>
                  && PassRendered(endpoint, reply)
                  && Decide(config, Components(reply.body.value.success.value.risks, local)).Friction?)
            && (outcome == ProjectionUpdateRequired <==>
                  && endpoint.ValidateFeatures? && (reply.status == BAD_REQUEST || reply.status == CONFLICT)
                  && reply.body.Some? && reply.body.value.error.Some?
                  && reply.body.value.error.value.reason == Some("projection_update_required"))
            && (outcome == TechnicalFailure <==>
                  && endpoint.ValidateSession? && reply.status == SERVICE_UNAVAILABLE
                  && reply.body.Some? && reply.body.value.reason == Some("technical_failure"))
  {
    hide Score;
  }

  // Every listed reason of a rejection but the quality one is passed on, and no other is.
  lemma RejectionReasonsArePassedOn(endpoint: Endpoint, config: ScoringConfig, reply: Reply, local: LocalRisks,
                                    writesBaseline: bool, reason: string)
    requires endpoint != Verify && reason != "captcha_required" && reason != "anchor_retry"
    ensures Settle(endpoint, config, reply, local, writesBaseline).outcome == ValidationFailed(Some(reason)) <==>
            && RejectionRendered(endpoint, reply) && reply.body.value.error.value.reason == Some(reason)
            && (reason == "phrase_content_mismatch"
                || (endpoint.ValidateSession?
                    && reason in {"trace_incomplete", "audio_evidence_insufficient"}))
  {
    hide Score;
  }

  // The status classes are the hundreds.
  lemma StatusClasses(status: nat)
    ensures IsSuccess(status) <==> status / 100 == 2
    ensures IsClientError(status) <==> status / 100 == 4
  {
  }

  // Each risk of the validator and of the service is weighed with its own configured share.
  lemma RisksKeepTheirShare(p: Ppm)
    ensures var none, full, config := Value(0.0), Value(1.0), FromPpm(p);
            var quiet, silent := ValidatorRisks(none, none, none), LocalRisks(none, none);
            && Score(config, Components(quiet.(biometric := full), silent)) == Share(p.biometric)
            && Score(config, Components(quiet.(tts := full), silent)) == Share(p.tts)
            && Score(config, Components(quiet.(temporal := full), silent)) == 0.0
            && Score(config, Components(quiet, silent.(automation := full))) == Share(p.automation)
            && Score(config, Components(quiet, silent.(reputation := full))) == Share(p.reputation)
  {
    LoneRiskCostsItsShare(p);
    hide Score, FromPpm, Share;
  }
}
