// Startup resolution of the scoring policy from a signed bundle (src/config.rs:156-293). Base58,
// SHA-256 and Ed25519 are parameters; text is its UTF-8 bytes.
module ScoringResolution {
  import opened Results
  import opened Bytes
  import opened ScoringPolicy
  import opened ScoringPayload
  import opened Splitting

  type Pubkey = seq<byte>

  const BUNDLE_MAX_BYTES: nat := 256
  const DOT: byte := 46
  const DOMAIN: seq<byte> := Ascii("Entros\0executor-scoring-config\0v1\0")
  const DEVELOPMENT_ID: Text := Ascii("development-default")

  datatype Library = Library(
    decode58: Text -> Option<seq<byte>>, encode58: seq<byte> -> Text, hash: seq<byte> -> seq<byte>,
    verifies: (Pubkey, seq<byte>, seq<byte>) -> bool)

  datatype Requirements = Requirements(
    authority: Pubkey, configId: Text, service: seq<byte>, cluster: Cluster, environment: Environment, revision: u64)

  datatype Source = DevelopmentDefault | Signed
  datatype Resolved = Resolved(config: ScoringConfig, revision: u64, configId: Text, source: Source)

  datatype ConfigError =
    | BundleRequired | BundleTooLong | NotAscii | NotOnePair
    | PayloadNotBase58 | PayloadNotCanonical | PayloadLength
    | SignatureNotBase58 | SignatureNotCanonical | SignatureLength
    | SignatureInvalid | PayloadMalformed
    | SchemaMismatch | ServiceMismatch | ClusterMismatch | EnvironmentMismatch | RevisionMismatch
    | NonceAllZero | PolicyInvalid | ConfigIdMismatch

  function DecodeCanonical(
      lib: Library, value: Text, notBase58: ConfigError, notCanonical: ConfigError): Result<seq<byte>, ConfigError> {
    var decoded := lib.decode58(value);
    if decoded.None? then Err(notBase58)
    else if lib.encode58(decoded.value) != value then Err(notCanonical)
    else Ok(decoded.value)
  }

  function BindingError(p: SignedPayload, req: Requirements): Option<ConfigError> {
    if p.schemaVersion != SCHEMA_VERSION then Some(SchemaMismatch)
    else if p.service != req.service then Some(ServiceMismatch)
    else if p.cluster != ClusterCode(req.cluster) then Some(ClusterMismatch)
    else if p.environment != EnvironmentCode(req.environment) then Some(EnvironmentMismatch)
    else if p.revision != req.revision then Some(RevisionMismatch)
    else None
  }

  function ConfigId(lib: Library, payload: seq<byte>): Text {
    lib.encode58(lib.hash(DOMAIN + payload))
  }

  function ResolvePayload(lib: Library, payload: seq<byte>, req: Requirements): Result<Resolved, ConfigError> {
    match Deserialize(payload)
    case None => Err(PayloadMalformed)
    case Some(p) =>
      var binding := BindingError(p, req);
      if binding.Some? then Err(binding.value)
      else if AllZero(p.auditNonce) then Err(NonceAllZero)
      else if TryNew(p.ppm).Err? then Err(PolicyInvalid)
      else if ConfigId(lib, payload) != req.configId then Err(ConfigIdMismatch)
      else Ok(Resolved(TryNew(p.ppm).value, p.revision, ConfigId(lib, payload), Signed))
  }

  function ResolvePair(lib: Library, first: Text, second: Text, req: Requirements): Result<Resolved, ConfigError> {
    var payload := DecodeCanonical(lib, first, PayloadNotBase58, PayloadNotCanonical);
    if payload.Err? then Err(payload.error)
    else if |payload.value| != PAYLOAD_LENGTH then Err(PayloadLength)
    else
      var signature := DecodeCanonical(lib, second, SignatureNotBase58, SignatureNotCanonical);
      if signature.Err? then Err(signature.error)
      else if |signature.value| != 64 then Err(SignatureLength)
      else if !lib.verifies(req.authority, signature.value, DOMAIN + payload.value) then Err(SignatureInvalid)
      else ResolvePayload(lib, payload.value, req)
  }

  predicate IsAscii(text: Text) {
    forall i | 0 <= i < |text| :: text[i] < 128
  }

  function ResolveScoringConfig(
      lib: Library, bundle: Option<Text>, req: Requirements): Result<Resolved, ConfigError> {
    match bundle
    case None =>
      if req.environment.Prod? then Err(BundleRequired)
      else Ok(Resolved(ScoringPolicy.DevelopmentDefault(), 0, DEVELOPMENT_ID, DevelopmentDefault))
    case Some(text) =>
      if |text| > BUNDLE_MAX_BYTES then Err(BundleTooLong)
      else if !IsAscii(text) then Err(NotAscii)
      else
        var parts := Split(text, DOT);
        if |parts| != 2 || parts[0] == [] || parts[1] == [] then Err(NotOnePair)
        else ResolvePair(lib, parts[0], parts[1], req)
  }

  // --- What a resolved policy guarantees ---

  // The bundle is the canonical text of these bytes and of a signature by the authority over them.
  predicate IsSignedBundle(lib: Library, text: Text, payload: seq<byte>, signature: seq<byte>, authority: Pubkey) {
    && text == lib.encode58(payload) + [DOT] + lib.encode58(signature)
    && |signature| == 64 && lib.verifies(authority, signature, DOMAIN + payload)
  }

  // The payload fields this release demands, with the policy it carries.
  predicate Demanded(lib: Library, p: SignedPayload, req: Requirements) {
    && WellFormed(p) && p.schemaVersion == SCHEMA_VERSION && p.service == req.service
    && p.cluster == ClusterCode(req.cluster) && p.environment == EnvironmentCode(req.environment)
    && p.revision == req.revision && !AllZero(p.auditNonce) && Accepted(p.ppm)
    && ConfigId(lib, Serialize(p)) == req.configId
  }

  // A bundle resolves only to the policy of a payload that the authority signed and that meets
  // every demand of this release; without a bundle only development resolves, to its default.
  lemma ResolvedPolicyWasSigned(lib: Library, bundle: Option<Text>, req: Requirements)
    returns (p: SignedPayload, signature: seq<byte>)
    requires ResolveScoringConfig(lib, bundle, req).Ok?
    ensures var resolved := ResolveScoringConfig(lib, bundle, req).value;
            if bundle.None? then
              req.environment.Dev? && resolved.config == ScoringPolicy.DevelopmentDefault()
                  && resolved.source.DevelopmentDefault?
            else
              && |bundle.value| <= 256 && (forall i | 0 <= i < |bundle.value| :: bundle.value[i] < 128)
              && IsSignedBundle(lib, bundle.value, Serialize(p), signature, req.authority) && Demanded(lib, p, req)
              && resolved == Resolved(FromPpm(p.ppm), req.revision, req.configId, Signed)
              && req.configId == lib.encode58(lib.hash(DOMAIN + Serialize(p)))
  {
    p, signature := SignedPayload(0, [], 0, 0, 0, [], Ppm(0, 0, 0, 0, 0, 0, 0)), [];
    if bundle.Some? {
      var parts := Split(bundle.value, DOT);
      SplitInTwo(bundle.value, DOT);
      hide Serialize, Deserialize, Split, FromPpm, AllZero, WordAt;
      var payload := lib.decode58(parts[0]).value;
      signature := lib.decode58(parts[1]).value;
      SerializeDeserialize(payload);
      p := Deserialize(payload).value;
    }
  }

  // What the two ends rely on from base58.
  ghost predicate Base58(lib: Library) {
    forall b: seq<byte> ::
      && lib.decode58(lib.encode58(b)) == Some(b) && IsAscii(lib.encode58(b)) && DOT !in lib.encode58(b)
      && (b != [] ==> lib.encode58(b) != []) && 100 * |lib.encode58(b)| <= 138 * |b| + 100
  }

  // signScoringPolicy's bundle, given the signature it computes.
  function SignedBundle(lib: Library, p: Policy, signature: seq<byte>): Text
    requires ValidateScoringPolicy(p).None?
  {
    lib.encode58(Serialize(PayloadOf(p))) + [DOT] + lib.encode58(signature)
  }

  // A correctly signed bundle gets as far as the binding checks.
  lemma SignedBundleIsRead(lib: Library, payload: seq<byte>, signature: seq<byte>, req: Requirements)
    requires Base58(lib) && |payload| == PAYLOAD_LENGTH && |signature| == 64
    requires lib.verifies(req.authority, signature, DOMAIN + payload)
    ensures var bundle := lib.encode58(payload) + [DOT] + lib.encode58(signature);
            ResolveScoringConfig(lib, Some(bundle), req) == ResolvePayload(lib, payload, req)
  {
    var a, b := lib.encode58(payload), lib.encode58(signature);
    SplitOfPair(a, b, DOT);
    assert a != [] && b != [];
    assert 100 * |a| <= 138 * 87 + 100 && 100 * |b| <= 138 * 64 + 100;
    assert IsAscii(a + [DOT] + b);
  }

  // Signer and service agree: the bundle of any policy the signer accepts resolves, in a release
  // that pins its authority, service, cluster and revision, exactly when the release pins its
  // environment and config ID too, and then to the same weights and thresholds.
  lemma SignerAndServiceAgree(lib: Library, p: Policy, signature: seq<byte>, req: Requirements)
    requires Base58(lib) && ValidateScoringPolicy(p).None? && |signature| == 64
    requires lib.verifies(req.authority, signature, DOMAIN + Serialize(PayloadOf(p)))
    requires req.service == SERVICE && req.cluster == p.cluster && req.revision == EXPECTED_REVISION
    ensures var id := lib.encode58(lib.hash(DOMAIN + Serialize(PayloadOf(p))));
            var result := ResolveScoringConfig(lib, Some(SignedBundle(lib, p, signature)), req);
            && (result.Ok? <==> req.environment == p.environment && req.configId == id)
            && (result.Ok? ==> result.value == Resolved(FromPpm(PpmOf(p)), 1, id, Signed))
            && (req.environment != p.environment ==> result == Err(EnvironmentMismatch))
  {
    var payload := Serialize(PayloadOf(p));
    AcceptedPayloadFits(p);
    HeaderFields(PayloadOf(p));
    SignedPolicyReadsBack(p);
    SignedBundleIsRead(lib, payload, signature, req);
    assert !AllZero(p.auditNonce);
    hide ValidateScoringPolicy, Deserialize, Serialize, ResolveScoringConfig, PpmOf;
  }

  // Without a bundle, development resolves to its default and production does not resolve.
  lemma NoBundleResolvesInDevelopmentOnly(lib: Library, req: Requirements)
    ensures var result := ResolveScoringConfig(lib, None, req);
            && (result.Ok? <==> req.environment.Dev?)
            && (result.Ok? ==>
                  && result.value.source.DevelopmentDefault? && result.value.revision == 0
                  && forall c :: Decide(result.value.config, c) == Pass)
  {
    forall c ensures Decide(ScoringPolicy.DevelopmentDefault(), c) == Pass {
      DevelopmentDefaultAlwaysPasses(c);
    }
  }
}
