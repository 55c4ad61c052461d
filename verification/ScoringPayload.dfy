// The fixed-width scoring payload and its two ends: the offline signer
// (scripts/sign-scoring-config.ts:208-296) and the layout the service reads back
// (src/config.rs:91-106).
module ScoringPayload {
  import opened Results
  import opened Bytes
  import opened ScoringPolicy

  datatype Cluster = Devnet
  datatype Environment = Dev | Prod

  const PAYLOAD_LENGTH: nat := 87
  const SCHEMA_VERSION: byte := 1
  const EXPECTED_REVISION: nat := 1
  const SERVICE: seq<byte> := Ascii("entros-executor\0")

  function ClusterCode(c: Cluster): byte {
    1
  }

  function EnvironmentCode(e: Environment): byte {
    if e.Dev? then 1 else 2
  }

  predicate AllZero(bytes: seq<byte>) {
    forall i | 0 <= i < |bytes| :: bytes[i] == 0
  }

  // Those are the bytes of the integer 0.
  lemma {:induction false} AllZeroIsZero(bytes: seq<byte>)
    ensures AllZero(bytes) <==> FromLe(bytes) == 0
  {
    if bytes != [] {
      AllZeroIsZero(bytes[1..]);
      assert AllZero(bytes) <==> bytes[0] == 0 && AllZero(bytes[1..]) by {
        assert forall i | 0 <= i < |bytes| - 1 :: bytes[1..][i] == bytes[i + 1];
        assert forall i | 1 <= i < |bytes| :: bytes[i] == bytes[1..][i - 1];
      }
    }
  }

  // --- The signer's policy check, over JavaScript numbers ---

  datatype JsNumber = NotFinite | Num(value: real)

  datatype Policy = Policy(
    cluster: Cluster, environment: Environment, revision: JsNumber, auditNonce: seq<byte>,
    biometric: JsNumber, tts: JsNumber, unallocated: JsNumber, automation: JsNumber, reputation: JsNumber,
    friction: JsNumber, reject: JsNumber)

  datatype SigningError =
    | WrongRevision
    | BadAuditNonce
    | NotPartsPerMillion
    | WeightsDoNotSum
    | FrictionNotBelowReject
    | FrictionAboveActiveBudget
    | RejectNotBelowActiveBudget

  predicate IsSafeInteger(n: JsNumber) {
    n.Num? && n.value == n.value.Floor as real && -9007199254740991.0 <= n.value <= 9007199254740991.0
  }

  predicate IsPpm(n: JsNumber) {
    IsSafeInteger(n) && 0.0 <= n.value <= 1000000.0
  }

  // validateScoringPolicy: the reason it throws, if it does.
  function ValidateScoringPolicy(p: Policy): Option<SigningError> {
    if !IsSafeInteger(p.revision) || p.revision.value != 1.0 then Some(WrongRevision)
    else if |p.auditNonce| != 32 || AllZero(p.auditNonce) then Some(BadAuditNonce)
    else if !IsPpm(p.biometric) || !IsPpm(p.tts) || !IsPpm(p.unallocated) || !IsPpm(p.automation)
            || !IsPpm(p.reputation) || !IsPpm(p.friction) || !IsPpm(p.reject) then Some(NotPartsPerMillion)
    else if p.biometric.value + p.tts.value + p.unallocated.value + p.automation.value + p.reputation.value
            != 1000000.0 then Some(WeightsDoNotSum)
    else if p.friction.value >= p.reject.value then Some(FrictionNotBelowReject)
    else
      var active := 1000000.0 - p.unallocated.value;
      if p.friction.value > active then Some(FrictionAboveActiveBudget)
      else if p.reject.value >= active then Some(RejectNotBelowActiveBudget)
      else None
  }

  // The number is this integer.
  predicate Is(n: JsNumber, k: nat) {
    n == Num(k as real)
  }

  // The policy's seven shares are these parts per million.
  predicate Holds(p: Policy, ppm: Ppm) {
    && Is(p.biometric, ppm.biometric) && Is(p.tts, ppm.tts) && Is(p.unallocated, ppm.unallocated)
    && Is(p.automation, ppm.automation) && Is(p.reputation, ppm.reputation)
    && Is(p.friction, ppm.friction) && Is(p.reject, ppm.reject)
  }

  predicate Unstamped(p: Policy) {
    p.revision == Num(1.0) && |p.auditNonce| == 32 && !AllZero(p.auditNonce)
  }

  // The signer accepts a policy exactly when its shares are integers that the service's own
  // constructor accepts, and the revision and nonce are the required ones.
  lemma SignerAcceptsExactly(p: Policy)
    ensures ValidateScoringPolicy(p).None? <==> Unstamped(p) && exists ppm :: Holds(p, ppm) && Accepted(ppm)
  {
    if ValidateScoringPolicy(p).None? {
      var ppm := PpmOf(p);
      assert Holds(p, ppm);
      AcceptedShares(p, ppm);
    }
    if ppm :| Unstamped(p) && Holds(p, ppm) && Accepted(ppm) {
      AcceptedShares(p, ppm);
    }
  }

  function PpmOf(p: Policy): (ppm: Ppm)
    requires ValidateScoringPolicy(p).None?
    ensures Holds(p, ppm)
  {
    Ppm(p.biometric.value.Floor, p.tts.value.Floor, p.unallocated.value.Floor, p.automation.value.Floor,
        p.reputation.value.Floor, p.friction.value.Floor, p.reject.value.Floor)
  }

  lemma AcceptedShares(p: Policy, ppm: Ppm)
    requires Unstamped(p) && Holds(p, ppm)
    ensures ValidateScoringPolicy(p).None? <==> Accepted(ppm)
  {
    AcceptedExactly(ppm);
  }

  // --- The byte layout ---

  // A decoded payload: 16 bytes of service name, 32 of nonce, and integers of their widths.
  datatype SignedPayload = SignedPayload(
    schemaVersion: byte, service: seq<byte>, cluster: byte, environment: byte, revision: u64,
    auditNonce: seq<byte>, ppm: Ppm)

  predicate Fits(ppm: Ppm) {
    forall i | 0 <= i < 7 :: Words(ppm)[i] < 0x1_0000_0000
  }

  predicate WellFormed(p: SignedPayload) {
    |p.service| == 16 && |p.auditNonce| == 32 && Fits(p.ppm)
  }

  function Words(ppm: Ppm): (words: seq<nat>)
    ensures |words| == 7
  {
    [ppm.biometric, ppm.tts, ppm.unallocated, ppm.automation, ppm.reputation, ppm.friction, ppm.reject]
  }

  function EncWords(words: seq<nat>): (bytes: seq<byte>)
    ensures |bytes| == 4 * |words|
  {
    if words == [] then [] else EncWords(words[..|words| - 1]) + ToLe(words[|words| - 1], 4)
  }

  function Header(p: SignedPayload): seq<byte> {
    [p.schemaVersion] + p.service + [p.cluster] + [p.environment] + ToLe(p.revision, 8) + p.auditNonce
  }

  function Serialize(p: SignedPayload): seq<byte> {
    Header(p) + EncWords(Words(p.ppm))
  }

  // Reading the fields off the front, in order, with nothing left over.
  function Deserialize(bytes: seq<byte>): Option<SignedPayload> {
    if |bytes| != PAYLOAD_LENGTH then None
    else
      LeBytesRoundTrip(bytes[19..27]);
      assert Pow256(8) == 0x1_0000_0000_0000_0000;
      Some(SignedPayload(
        bytes[0], bytes[1..17], bytes[17], bytes[18], FromLe(bytes[19..27]), bytes[27..59],
        Ppm(WordAt(bytes, 59), WordAt(bytes, 63), WordAt(bytes, 67), WordAt(bytes, 71), WordAt(bytes, 75),
            WordAt(bytes, 79), WordAt(bytes, 83))))
  }

  lemma {:induction false} WordAtEncWords(words: seq<nat>, k: nat)
    requires k < |words|
    ensures EncWords(words)[4 * k..4 * k + 4] == ToLe(words[k], 4)
  {
    var n := |words| - 1;
    if k < n {
      WordAtEncWords(words[..n], k);
      assert EncWords(words)[4 * k..4 * k + 4] == EncWords(words[..n])[4 * k..4 * k + 4];
    }
  }

  // The service reads back exactly what was written.
  lemma DeserializeSerialize(p: SignedPayload)
    requires WellFormed(p)
    ensures Deserialize(Serialize(p)) == Some(p)
  {
    HeaderFields(p);
    assert Pow256(8) == 0x1_0000_0000_0000_0000;
    LeRoundTrip(p.revision, 8);
    hide Serialize, WordAt, ToLe, FromLe, Pow256, Fits;
    PayloadWord(p, 0);
    PayloadWord(p, 1);
    PayloadWord(p, 2);
    PayloadWord(p, 3);
    PayloadWord(p, 4);
    PayloadWord(p, 5);
    PayloadWord(p, 6);
  }

  lemma PayloadWord(p: SignedPayload, k: nat)
    requires WellFormed(p) && k < 7
    ensures |Serialize(p)| == PAYLOAD_LENGTH && WordAt(Serialize(p), 59 + 4 * k) == Words(p.ppm)[k]
  {
    HeaderFields(p);
    WordAtEncWords(Words(p.ppm), k);
    assert Serialize(p)[59 + 4 * k..63 + 4 * k] == EncWords(Words(p.ppm))[4 * k..4 * k + 4];
    assert Pow256(4) == 0x1_0000_0000;
    LeRoundTrip(Words(p.ppm)[k], 4);
  }

  lemma HeaderFields(p: SignedPayload)
    requires WellFormed(p)
    ensures |Header(p)| == 59 && |Serialize(p)| == PAYLOAD_LENGTH
    ensures Serialize(p)[0] == p.schemaVersion && Serialize(p)[1..17] == p.service
    ensures Serialize(p)[17] == p.cluster && Serialize(p)[18] == p.environment
    ensures Serialize(p)[19..27] == ToLe(p.revision, 8) && Serialize(p)[27..59] == p.auditNonce
  {
    var first, second := [p.schemaVersion] + p.service, [p.schemaVersion] + p.service + [p.cluster] + [p.environment];
    var rest := ToLe(p.revision, 8) + p.auditNonce + EncWords(Words(p.ppm));
    assert Serialize(p) == second + rest;
    assert first[1..17] == p.service && second[..17] == first && second[17..] == [p.cluster, p.environment];
    assert rest[..8] == ToLe(p.revision, 8) && rest[8..40] == p.auditNonce;
    hide ToLe, EncWords, Words, Serialize;
    assert (second + rest)[19..27] == rest[..8] && (second + rest)[27..59] == rest[8..40];
    assert (second + rest)[1..17] == first[1..17];
  }

  // Each 87-byte string is the encoding of exactly one payload.
  lemma SerializeDeserialize(bytes: seq<byte>)
    requires |bytes| == PAYLOAD_LENGTH
    ensures Deserialize(bytes).Some? && WellFormed(Deserialize(bytes).value)
    ensures Serialize(Deserialize(bytes).value) == bytes
  {
    var p := Deserialize(bytes).value;
    WordsOfBytes(bytes);
    WordsReadBack(bytes, Words(p.ppm), 7);
    assert Words(p.ppm)[..7] == Words(p.ppm);
    HeaderOfBytes(bytes);
    hide Deserialize, Words, EncWords, Header;
    JoinTake(bytes, 59, 87);
  }

  lemma HeaderOfBytes(bytes: seq<byte>)
    requires |bytes| == PAYLOAD_LENGTH
    ensures Header(Deserialize(bytes).value) == bytes[..59]
  {
    LeBytesRoundTrip(bytes[19..27]);
    JoinTake(bytes, 1, 17);
    JoinTake(bytes, 17, 18);
    JoinTake(bytes, 18, 19);
    JoinTake(bytes, 19, 27);
    JoinTake(bytes, 27, 59);
    assert bytes[..1] == [bytes[0]] && bytes[17..18] == [bytes[17]] && bytes[18..19] == [bytes[18]];
    hide ToLe, FromLe, WordAt;
  }

  lemma WordsOfBytes(bytes: seq<byte>)
    requires |bytes| == PAYLOAD_LENGTH
    ensures var words := Words(Deserialize(bytes).value.ppm);
            forall k | 0 <= k < 7 ::
              words[k] < 0x1_0000_0000 && ToLe(words[k], 4) == bytes[59 + 4 * k..59 + 4 * k + 4]
  {
    var words := Words(Deserialize(bytes).value.ppm);
    assert Pow256(4) == 0x1_0000_0000;
    forall k | 0 <= k < 7
      ensures words[k] < 0x1_0000_0000 && ToLe(words[k], 4) == bytes[59 + 4 * k..59 + 4 * k + 4]
    {
      assert words[k] == WordAt(bytes, 59 + 4 * k);
      LeBytesRoundTrip(bytes[59 + 4 * k..59 + 4 * k + 4]);
    }
  }

  lemma {:induction false} WordsReadBack(bytes: seq<byte>, words: seq<nat>, n: nat)
    requires n <= |words| && 59 + 4 * |words| <= |bytes|
    requires forall k | 0 <= k < |words| :: ToLe(words[k], 4) == bytes[59 + 4 * k..59 + 4 * k + 4]
    ensures EncWords(words[..n]) == bytes[59..59 + 4 * n]
  {
    if n > 0 {
      WordsReadBack(bytes, words, n - 1);
      assert words[..n][..n - 1] == words[..n - 1];
      assert bytes[59..59 + 4 * n] == bytes[59..59 + 4 * (n - 1)] + bytes[59 + 4 * (n - 1)..59 + 4 * n];
    }
  }

  // --- The signer's encoder, writing at offsets into a zeroed buffer ---

  method WriteAt(buffer: array<byte>, offset: nat, bytes: seq<byte>)
    requires offset + |bytes| <= buffer.Length
    modifies buffer
    ensures buffer[..offset + |bytes|] == old(buffer[..offset]) + bytes
  {
    for i := 0 to |bytes|
      invariant buffer[..offset + i] == old(buffer[..offset]) + bytes[..i]
    {
      buffer[offset + i] := bytes[i];
      assert buffer[..offset + i + 1] == buffer[..offset + i] + [bytes[i]];
    }
  }

  // What a policy is encoded to.
  function PayloadOf(p: Policy): SignedPayload
    requires ValidateScoringPolicy(p).None?
  {
    SignedPayload(SCHEMA_VERSION, SERVICE, ClusterCode(p.cluster), EnvironmentCode(p.environment), EXPECTED_REVISION,
                  p.auditNonce, PpmOf(p))
  }

  method WriteHeader(payload: array<byte>, p: SignedPayload)
    requires payload.Length == PAYLOAD_LENGTH && WellFormed(p)
    modifies payload
    ensures payload[..59] == Header(p)
  {
    hide ToLe, Fits;
    WriteAt(payload, 0, [p.schemaVersion]);
    WriteAt(payload, 1, p.service);
    WriteAt(payload, 17, [p.cluster]);
    WriteAt(payload, 18, [p.environment]);
    WriteAt(payload, 19, ToLe(p.revision, 8));
    WriteAt(payload, 27, p.auditNonce);
  }

  method WriteFields(p: SignedPayload) returns (bytes: seq<byte>)
    requires WellFormed(p)
    ensures bytes == Serialize(p)
  {
    var fields := Words(p.ppm);
    hide ToLe, Words;
    var payload := new byte[PAYLOAD_LENGTH](i => 0);
    WriteHeader(payload, p);
    hide Header;
    assert EncWords(fields[..0]) == [] && Header(p) + [] == Header(p);
    for index := 0 to 7
      invariant payload[..59 + 4 * index] == Header(p) + EncWords(fields[..index])
    {
      WriteAt(payload, 59 + 4 * index, ToLe(fields[index], 4));
      AppendWord(Header(p), fields, index);
    }
    assert fields[..7] == fields && payload[..] == payload[..87];
    return payload[..];
  }

  lemma AppendWord(head: seq<byte>, words: seq<nat>, k: nat)
    requires k < |words|
    ensures head + EncWords(words[..k + 1]) == head + EncWords(words[..k]) + ToLe(words[k], 4)
  {
    assert words[..k + 1][..k] == words[..k];
  }

  method EncodeScoringPayload(p: Policy) returns (r: Result<seq<byte>, SigningError>)
    ensures match ValidateScoringPolicy(p) case Some(e) => r == Err(e) case None => r == Ok(Serialize(PayloadOf(p)))
  {
    var refusal := ValidateScoringPolicy(p);
    if refusal.Some? {
      return Err(refusal.value);
    }
    AcceptedPayloadFits(p);
    var payload := WriteFields(PayloadOf(p));
    return Ok(payload);
  }

  lemma AcceptedPayloadFits(p: Policy)
    requires ValidateScoringPolicy(p).None?
    ensures WellFormed(PayloadOf(p)) && Accepted(PpmOf(p))
  {
    AcceptedShares(p, PpmOf(p));
    AcceptedExactly(PpmOf(p));
  }

  // Every policy the signer accepts reaches the service with the same fields.
  lemma SignedPolicyReadsBack(p: Policy)
    requires ValidateScoringPolicy(p).None?
    ensures Deserialize(Serialize(PayloadOf(p))) == Some(PayloadOf(p))
    ensures Accepted(PayloadOf(p).ppm)
  {
    AcceptedPayloadFits(p);
    DeserializeSerialize(PayloadOf(p));
  }

  // Where each field stands in the 87 bytes.
  lemma FieldOffsets(p: SignedPayload)
    requires WellFormed(p)
    ensures var bytes := Serialize(p);
            && |bytes| == 87 && bytes[0] == p.schemaVersion && bytes[1..17] == p.service && bytes[17] == p.cluster
            && bytes[18] == p.environment && FromLe(bytes[19..27]) == p.revision && bytes[27..59] == p.auditNonce
            && WordAt(bytes, 59) == p.ppm.biometric && WordAt(bytes, 63) == p.ppm.tts
            && WordAt(bytes, 67) == p.ppm.unallocated && WordAt(bytes, 71) == p.ppm.automation
            && WordAt(bytes, 75) == p.ppm.reputation && WordAt(bytes, 79) == p.ppm.friction
            && WordAt(bytes, 83) == p.ppm.reject
  {
    HeaderFields(p);
    DeserializeSerialize(p);
    hide Serialize, WordAt, FromLe;
  }

  const FIXTURE := Policy(
    Devnet, Dev, Num(1.0), seq(32, i requires 0 <= i < 32 => i), Num(111111.0), Num(222222.0), Num(333333.0),
    Num(123456.0), Num(209878.0), Num(123456.0), Num(654321.0))

  // The payload that the signer and the service share as their wire fixture, after its service name.
  lemma FixtureBytes()
    ensures ValidateScoringPolicy(FIXTURE).None?
    ensures Serialize(PayloadOf(FIXTURE)) == [1] + SERVICE + [1] + [1] + [1, 0, 0, 0, 0, 0, 0, 0]
            + seq(32, i requires 0 <= i < 32 => i)
            + ([0x07, 0xb2, 0x01, 0x00] + [0x0e, 0x64, 0x03, 0x00] + [0x15, 0x16, 0x05, 0x00] + [0x40, 0xe2, 0x01, 0x00]
               + [0xd6, 0x33, 0x03, 0x00] + [0x40, 0xe2, 0x01, 0x00] + [0xf1, 0xfb, 0x09, 0x00])
  {
    var ppm := Ppm(111_111, 222_222, 333_333, 123_456, 209_878, 123_456, 654_321);
    assert FIXTURE.auditNonce[1] == 1;
    AcceptedShares(FIXTURE, ppm);
    SamePpm(FIXTURE, ppm);
    assert ToLe(1, 8) == [1, 0, 0, 0, 0, 0, 0, 0];
    WordBytes(111_111, 0x07, 0xb2, 0x01, 0x00);
    WordBytes(222_222, 0x0e, 0x64, 0x03, 0x00);
    WordBytes(333_333, 0x15, 0x16, 0x05, 0x00);
    WordBytes(123_456, 0x40, 0xe2, 0x01, 0x00);
    WordBytes(209_878, 0xd6, 0x33, 0x03, 0x00);
    WordBytes(654_321, 0xf1, 0xfb, 0x09, 0x00);
    hide ToLe, EncWords, Words, Ascii, ValidateScoringPolicy, PpmOf;
    SevenWords(ppm);
  }

  lemma SamePpm(p: Policy, ppm: Ppm)
    requires ValidateScoringPolicy(p).None? && Holds(p, ppm)
    ensures PpmOf(p) == ppm
  {
    hide ValidateScoringPolicy;
  }

  // What every payload of the signer is stamped with.
  lemma PayloadStamps(p: Policy)
    requires ValidateScoringPolicy(p).None?
    ensures var bytes := Serialize(PayloadOf(p));
            && |bytes| == 87 && bytes[0] == 1 && bytes[1..17] == Ascii("entros-executor\0") && bytes[17] == 1
            && bytes[18] == (if p.environment.Prod? then 2 else 1) && bytes[19..27] == [1, 0, 0, 0, 0, 0, 0, 0]
            && bytes[27..59] == p.auditNonce
  {
    AcceptedPayloadFits(p);
    HeaderFields(PayloadOf(p));
    assert ToLe(1, 8) == [1, 0, 0, 0, 0, 0, 0, 0];
    hide Serialize, ValidateScoringPolicy, ToLe;
  }

  lemma WordBytes(v: nat, b0: byte, b1: byte, b2: byte, b3: byte)
    requires v == b0 + 0x100 * b1 + 0x1_0000 * b2 + 0x100_0000 * b3
    ensures ToLe(v, 4) == [b0, b1, b2, b3]
  {
    assert v / 256 == b1 + 0x100 * b2 + 0x1_0000 * b3;
    assert v / 256 / 256 == b2 + 0x100 * b3;
    assert v / 256 / 256 / 256 == b3;
    assert ToLe(v / 256 / 256 / 256, 1) == [b3] + ToLe(b3 / 256, 0);
    assert ToLe(v / 256 / 256, 2) == [b2] + ToLe(v / 256 / 256 / 256, 1);
    assert ToLe(v / 256, 3) == [b1] + ToLe(v / 256 / 256, 2);
  }

  lemma NextWord(words: seq<nat>, k: nat)
    requires k < |words|
    ensures EncWords(words[..k + 1]) == EncWords(words[..k]) + ToLe(words[k], 4)
  {
    assert words[..k + 1][..k] == words[..k];
  }

  lemma SevenWords(ppm: Ppm)
    ensures EncWords(Words(ppm)) == ToLe(ppm.biometric, 4) + ToLe(ppm.tts, 4) + ToLe(ppm.unallocated, 4)
                                    + ToLe(ppm.automation, 4) + ToLe(ppm.reputation, 4) + ToLe(ppm.friction, 4)
                                    + ToLe(ppm.reject, 4)
  {
    var words := Words(ppm);
    assert words[..7] == words && EncWords(words[..0]) == [];
    NextWord(words, 0);
    NextWord(words, 1);
    NextWord(words, 2);
    NextWord(words, 3);
    NextWord(words, 4);
    NextWord(words, 5);
    NextWord(words, 6);
    assert words[0] == ppm.biometric && words[1] == ppm.tts && words[2] == ppm.unallocated;
    assert words[3] == ppm.automation && words[4] == ppm.reputation && words[5] == ppm.friction;
    assert words[6] == ppm.reject;
    hide ToLe, EncWords, Words;
    assert [] + ToLe(words[0], 4) == ToLe(words[0], 4);
  }
}
