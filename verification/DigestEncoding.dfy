// The byte string whose hash a wallet signs (src/validation/authorization.rs:21-184): a
// self-delimiting encoding of every bound request field, and the proof that it can be read back in
// one way only. Strings are their UTF-8 bytes, floating-point numbers their binary64 bits.
module DigestEncoding {
  import opened Results
  import opened Bytes

  type Text = seq<byte>

  const U32_LIMIT: nat := 0x1_0000_0000
  const SIGN_BIT: nat := 0x8000_0000_0000_0000
  const DIGEST_DOMAIN: string := "entros-validate-request-digest-v1\0"

  datatype CompatibilityEvidence = CompatibilityEvidence(
    projectionVersion: u16, featureSchemaVersion: u16, features: seq<u64>)
  datatype AutomationSignals = AutomationSignals(webdriver: bool, tells: seq<Text>)
  datatype CaptureSignals = CaptureSignals(
    virtualDevice: bool, voiceIsolationApplied: Option<bool>, flatness: Option<u64>, centroid: Option<u64>)
  datatype ClientSignals = ClientSignals(
    v: u32, env: Option<Text>, automation: Option<AutomationSignals>, capture: Option<CaptureSignals>)
  datatype StudyCaptureClass = WebMobile | WebDesktop | NativeIos | NativeAndroid
  datatype StudyContext = StudyContext(
    token: Text, recordId: Text, captureClass: StudyCaptureClass, featureSchemaVersion: u16, projectionVersion: u16)

  // The fields of a request that the digest covers.
  datatype BoundFields = BoundFields(
    baselineReset: bool, features: seq<u64>, evidence: Option<CompatibilityEvidence>, f0Contour: Option<seq<u64>>,
    accelMagnitude: Option<seq<u64>>, audioSamples: Option<Text>, audioSampleRate: Option<u32>,
    clientSignals: Option<ClientSignals>, study: Option<StudyContext>)

  // Section 3.4 of IEEE 754: an all-ones exponent marks infinities and NaNs.
  predicate IsFinite(bits: u64) {
    bits / 0x10_0000_0000_0000 % 2048 != 2047
  }

  // The bits of positive infinity, the least pattern that is not a number's, the sign aside.
  const INFINITY_BITS: nat := 0x7FF0_0000_0000_0000

  lemma FiniteExactlyBelowInfinity(bits: u64)
    ensures IsFinite(bits) <==> bits % SIGN_BIT < INFINITY_BITS
  {
    var magnitude := bits % SIGN_BIT;
    assert bits == magnitude || bits == SIGN_BIT + magnitude;
    assert bits / 0x10_0000_0000_0000 % 2048 == magnitude / 0x10_0000_0000_0000;
  }

  predicate IsZero(bits: u64): (zero: bool)
    ensures zero <==> bits == 0 || bits == SIGN_BIT
  {
    bits % SIGN_BIT == 0
  }

  // The bits that are hashed: both zeros become the positive one.
  function Canonical(bits: u64): (canonical: u64)
    ensures canonical == bits || (bits == SIGN_BIT && canonical == 0)
    ensures canonical != SIGN_BIT
  {
    if IsZero(bits) then 0 else bits
  }

  function CanonicalAll(xs: seq<u64>): (ys: seq<u64>)
    ensures |ys| == |xs| && forall i | 0 <= i < |xs| :: ys[i] == Canonical(xs[i])
  {
    seq(|xs|, i requires 0 <= i < |xs| => Canonical(xs[i]))
  }

  // --- The encoding, as a function of the value ---

  function EncBool(b: bool): seq<byte> {
    [if b then 1 else 0]
  }

  function EncText(s: Text): seq<byte> {
    ToLe(|s|, 4) + s
  }

  function EncF64(bits: u64): seq<byte> {
    ToLe(Canonical(bits), 8)
  }

  function EncOption<T>(o: Option<T>, enc: T -> seq<byte>): seq<byte> {
    if o.Some? then [1] + enc(o.value) else [0]
  }

  function EncItems<T>(xs: seq<T>, enc: T -> seq<byte>): seq<byte> {
    if xs == [] then [] else enc(xs[0]) + EncItems(xs[1..], enc)
  }

  function EncVector<T>(xs: seq<T>, enc: T -> seq<byte>): seq<byte> {
    ToLe(|xs|, 4) + EncItems(xs, enc)
  }

  function EncF64s(xs: seq<u64>): seq<byte> {
    EncVector(xs, EncF64)
  }

  function EncTexts(xs: seq<Text>): seq<byte> {
    EncVector(xs, EncText)
  }

  function EncEvidence(e: CompatibilityEvidence): seq<byte> {
    ToLe(e.projectionVersion, 2) + (ToLe(e.featureSchemaVersion, 2) + EncF64s(e.features))
  }

  function EncU32(v: u32): seq<byte> {
    ToLe(v, 4)
  }

  function EncAutomation(a: AutomationSignals): seq<byte> {
    EncBool(a.webdriver) + EncTexts(a.tells)
  }

  function EncCapture(c: CaptureSignals): seq<byte> {
    EncBool(c.virtualDevice) + (EncOption(c.flatness, EncF64) + EncOption(c.centroid, EncF64))
  }

  function EncSignals(s: ClientSignals): seq<byte> {
    ToLe(s.v, 4) + (EncOption(s.env, EncText)
        + (EncOption(s.automation, EncAutomation) + EncOption(s.capture, EncCapture)))
  }

  function ClassCode(c: StudyCaptureClass): byte {
    match c
    case WebMobile => 0
    case WebDesktop => 1
    case NativeIos => 2
    case NativeAndroid => 3
  }

  function EncCapturedAs(s: StudyContext): seq<byte> {
    [ClassCode(s.captureClass)] + (ToLe(s.featureSchemaVersion, 2) + ToLe(s.projectionVersion, 2))
  }

  function EncStudy(s: StudyContext): seq<byte> {
    EncText(s.token) + (EncText(s.recordId) + EncCapturedAs(s))
  }

  function EncFeatures(r: BoundFields): seq<byte> {
    EncBool(r.baselineReset) + (EncF64s(r.features) + EncOption(r.evidence, EncEvidence))
  }

  function EncTraces(r: BoundFields): seq<byte> {
    EncOption(r.f0Contour, EncF64s) + (EncOption(r.accelMagnitude, EncF64s) + (EncOption(r.audioSamples, EncText)
    + EncOption(r.audioSampleRate, EncU32)))
  }

  function EncContext(r: BoundFields): seq<byte> {
    EncOption(r.clientSignals, EncSignals) + EncOption(r.study, EncStudy)
  }

  function EncFields(r: BoundFields): seq<byte> {
    EncFeatures(r) + (EncTraces(r) + EncContext(r))
  }

  function Domain(): seq<byte> {
    Ascii(DIGEST_DOMAIN)
  }

  // The byte string that is hashed.
  function Preimage(r: BoundFields): seq<byte> {
    Domain() + EncFields(r)
  }

  // --- Which requests have an encoding ---

  predicate FiniteAll(xs: seq<u64>) {
    |xs| < U32_LIMIT && forall i | 0 <= i < |xs| :: IsFinite(xs[i])
  }

  predicate Short(s: Text) {
    |s| < U32_LIMIT
  }

  predicate ShortAll(xs: seq<Text>) {
    |xs| < U32_LIMIT && forall i | 0 <= i < |xs| :: Short(xs[i])
  }

  predicate EncodableSignals(s: ClientSignals) {
    && (s.env.Some? ==> Short(s.env.value))
    && (s.automation.Some? ==> ShortAll(s.automation.value.tells))
    && (s.capture.Some? ==>
          && (s.capture.value.flatness.Some? ==> IsFinite(s.capture.value.flatness.value))
          && (s.capture.value.centroid.Some? ==> IsFinite(s.capture.value.centroid.value)))
  }

  predicate EncodableStudy(s: StudyContext) {
    Short(s.token) && Short(s.recordId)
  }

  predicate Encodable(r: BoundFields) {
    && FiniteAll(r.features)
    && (r.evidence.Some? ==> FiniteAll(r.evidence.value.features))
    && (r.f0Contour.Some? ==> FiniteAll(r.f0Contour.value))
    && (r.accelMagnitude.Some? ==> FiniteAll(r.accelMagnitude.value))
    && (r.audioSamples.Some? ==> Short(r.audioSamples.value))
    && (r.clientSignals.Some? ==> EncodableSignals(r.clientSignals.value))
    && (r.study.Some? ==> EncodableStudy(r.study.value))
  }

  // --- What the encoding keeps of a request ---

  function MapOption<T, U>(o: Option<T>, f: T -> U): Option<U> {
    if o.Some? then Some(f(o.value)) else None
  }

  function CanonEvidence(e: CompatibilityEvidence): CompatibilityEvidence {
    e.(features := CanonicalAll(e.features))
  }

  // The voice-isolation flag is the one field of the signals that is not encoded.
  function CanonCapture(c: CaptureSignals): CaptureSignals {
    c.(voiceIsolationApplied := None, flatness := MapOption(c.flatness, Canonical),
       centroid := MapOption(c.centroid, Canonical))
  }

  function CanonSignals(s: ClientSignals): ClientSignals {
    s.(capture := MapOption(s.capture, CanonCapture))
  }

  function Canon(r: BoundFields): BoundFields {
    r.(features := CanonicalAll(r.features), evidence := MapOption(r.evidence, CanonEvidence),
       f0Contour := MapOption(r.f0Contour, CanonicalAll), accelMagnitude := MapOption(r.accelMagnitude, CanonicalAll),
       clientSignals := MapOption(r.clientSignals, CanonSignals))
  }

  function Same<T>(x: T): T {
    x
  }

  predicate Any<T>(x: T) {
    true
  }

  // --- Reading one value off the front of equal byte strings ---

  // Whatever follows, equal byte strings that start with enc(a) and enc(b) agree on what enc keeps
  // of the value and on the rest.
  ghost predicate Peels<T(!new), U>(enc: T -> seq<byte>, keeps: T -> U, ok: T -> bool) {
    forall a, b, s, t | ok(a) && ok(b) && enc(a) + s == enc(b) + t :: keeps(a) == keeps(b) && s == t
  }

  lemma Assoc(a: seq<byte>, b: seq<byte>, c: seq<byte>)
    ensures (a + b) + c == a + (b + c)
  {
  }

  lemma BoolPeels(a: bool, s: seq<byte>, b: bool, t: seq<byte>)
    requires EncBool(a) + s == EncBool(b) + t
    ensures a == b && s == t
  {
    SplitHeads(EncBool(a), s, EncBool(b), t);
  }

  lemma U32Peels()
    ensures Peels(EncU32, Same, Any)
  {
    forall a: u32, b: u32, s, t | EncU32(a) + s == EncU32(b) + t
      ensures a == b && s == t
    {
      assert Pow256(4) == U32_LIMIT;
      SplitLe(a, s, b, t, 4);
    }
  }

  lemma F64Peels()
    ensures Peels(EncF64, Canonical, IsFinite)
  {
    forall a: u64, b: u64, s, t | EncF64(a) + s == EncF64(b) + t
      ensures Canonical(a) == Canonical(b) && s == t
    {
      assert Pow256(4) == U32_LIMIT && Pow256(8) == U32_LIMIT * Pow256(4);
      SplitLe(Canonical(a), s, Canonical(b), t, 8);
    }
  }

  lemma TextPeels()
    ensures Peels(EncText, Same, Short)
  {
    forall a, b, s, t | Short(a) && Short(b) && EncText(a) + s == EncText(b) + t
      ensures a == b && s == t
    {
      Assoc(ToLe(|a|, 4), a, s);
      Assoc(ToLe(|b|, 4), b, t);
      assert Pow256(4) == U32_LIMIT;
      SplitLe(|a|, a + s, |b|, b + t, 4);
      SplitHeads(a, s, b, t);
    }
  }

  predicate OptionOk<T>(o: Option<T>, ok: T -> bool) {
    o.Some? ==> ok(o.value)
  }

  lemma OptionPeels<T(!new), U>(
      a: Option<T>, s: seq<byte>, b: Option<T>, t: seq<byte>, enc: T -> seq<byte>, keeps: T -> U, ok: T -> bool)
    requires Peels(enc, keeps, ok) && OptionOk(a, ok) && OptionOk(b, ok)
    requires EncOption(a, enc) + s == EncOption(b, enc) + t
    ensures MapOption(a, keeps) == MapOption(b, keeps) && s == t
  {
    var u := if a.Some? then enc(a.value) else [];
    var v := if b.Some? then enc(b.value) else [];
    assert EncOption(a, enc) == EncBool(a.Some?) + u;
    assert EncOption(b, enc) == EncBool(b.Some?) + v;
    Assoc(EncBool(a.Some?), u, s);
    Assoc(EncBool(b.Some?), v, t);
    BoolPeels(a.Some?, u + s, b.Some?, v + t);
    if a.None? {
      assert u + s == s && v + t == t;
    }
  }

  lemma {:induction false} ItemsPeel<T(!new), U>(
      a: seq<T>, s: seq<byte>, b: seq<T>, t: seq<byte>, enc: T -> seq<byte>, keeps: T -> U, ok: T -> bool)
    requires Peels(enc, keeps, ok) && |a| == |b|
    requires forall i | 0 <= i < |a| :: ok(a[i]) && ok(b[i])
    requires EncItems(a, enc) + s == EncItems(b, enc) + t
    ensures forall i | 0 <= i < |a| :: keeps(a[i]) == keeps(b[i])
    ensures s == t
  {
    if a == [] {
      assert EncItems(a, enc) + s == s && EncItems(b, enc) + t == t;
    } else {
      Assoc(enc(a[0]), EncItems(a[1..], enc), s);
      Assoc(enc(b[0]), EncItems(b[1..], enc), t);
      assert keeps(a[0]) == keeps(b[0]) && EncItems(a[1..], enc) + s == EncItems(b[1..], enc) + t;
      ItemsPeel(a[1..], s, b[1..], t, enc, keeps, ok);
      forall i | 0 <= i < |a| ensures keeps(a[i]) == keeps(b[i]) {
        if i > 0 {
          assert a[i] == a[1..][i - 1] && b[i] == b[1..][i - 1];
        }
      }
    }
  }

  lemma VectorPeels<T(!new), U>(
      a: seq<T>, s: seq<byte>, b: seq<T>, t: seq<byte>, enc: T -> seq<byte>, keeps: T -> U, ok: T -> bool)
    requires Peels(enc, keeps, ok) && |a| < U32_LIMIT && |b| < U32_LIMIT
    requires forall i | 0 <= i < |a| :: ok(a[i])
    requires forall i | 0 <= i < |b| :: ok(b[i])
    requires EncVector(a, enc) + s == EncVector(b, enc) + t
    ensures |a| == |b| && forall i | 0 <= i < |a| :: keeps(a[i]) == keeps(b[i])
    ensures s == t
  {
    Assoc(ToLe(|a|, 4), EncItems(a, enc), s);
    Assoc(ToLe(|b|, 4), EncItems(b, enc), t);
    assert Pow256(4) == U32_LIMIT;
    SplitLe(|a|, EncItems(a, enc) + s, |b|, EncItems(b, enc) + t, 4);
    ItemsPeel(a, s, b, t, enc, keeps, ok);
  }

  lemma F64sPeel()
    ensures Peels(EncF64s, CanonicalAll, FiniteAll)
  {
    forall a, b, s, t | FiniteAll(a) && FiniteAll(b) && EncF64s(a) + s == EncF64s(b) + t
      ensures CanonicalAll(a) == CanonicalAll(b) && s == t
    {
      F64Peels();
      VectorPeels(a, s, b, t, EncF64, Canonical, IsFinite);
    }
  }

  lemma TextsPeel()
    ensures Peels(EncTexts, Same, ShortAll)
  {
    forall a, b, s, t | ShortAll(a) && ShortAll(b) && EncTexts(a) + s == EncTexts(b) + t
      ensures a == b && s == t
    {
      TextPeels();
      VectorPeels(a, s, b, t, EncText, Same, Short);
    }
  }

  // --- Reading the parts of a request ---

  predicate EvidenceOk(e: CompatibilityEvidence) {
    FiniteAll(e.features)
  }

  lemma EvidencePeels()
    ensures Peels(EncEvidence, CanonEvidence, EvidenceOk)
  {
    forall a, b, s, t | EvidenceOk(a) && EvidenceOk(b) && EncEvidence(a) + s == EncEvidence(b) + t
      ensures CanonEvidence(a) == CanonEvidence(b) && s == t
    {
      EvidenceSplits(a, s);
      EvidenceSplits(b, t);
      hide EncEvidence, FiniteAll, EncF64s;
      assert Pow256(2) == 0x1_0000;
      SplitLe(a.projectionVersion, ToLe(a.featureSchemaVersion, 2) + (EncF64s(a.features) + s),
              b.projectionVersion, ToLe(b.featureSchemaVersion, 2) + (EncF64s(b.features) + t), 2);
      SplitLe(a.featureSchemaVersion, EncF64s(a.features) + s, b.featureSchemaVersion, EncF64s(b.features) + t, 2);
      F64sPeel();
    }
  }

  lemma EvidenceSplits(e: CompatibilityEvidence, s: seq<byte>)
    ensures EncEvidence(e) + s ==
            ToLe(e.projectionVersion, 2) + (ToLe(e.featureSchemaVersion, 2) + (EncF64s(e.features) + s))
  {
    Assoc(ToLe(e.projectionVersion, 2), ToLe(e.featureSchemaVersion, 2) + EncF64s(e.features), s);
    Assoc(ToLe(e.featureSchemaVersion, 2), EncF64s(e.features), s);
  }

  predicate AutomationOk(a: AutomationSignals) {
    ShortAll(a.tells)
  }

  lemma AutomationPeels()
    ensures Peels(EncAutomation, Same, AutomationOk)
  {
    forall a, b, s, t | AutomationOk(a) && AutomationOk(b) && EncAutomation(a) + s == EncAutomation(b) + t
      ensures a == b && s == t
    {
      Assoc(EncBool(a.webdriver), EncTexts(a.tells), s);
      Assoc(EncBool(b.webdriver), EncTexts(b.tells), t);
      hide EncBool, EncTexts, ShortAll;
      BoolPeels(a.webdriver, EncTexts(a.tells) + s, b.webdriver, EncTexts(b.tells) + t);
      TextsPeel();
    }
  }

  predicate CaptureOk(c: CaptureSignals) {
    OptionOk(c.flatness, IsFinite) && OptionOk(c.centroid, IsFinite)
  }

  lemma CapturePeels()
    ensures Peels(EncCapture, CanonCapture, CaptureOk)
  {
    forall a, b, s, t | CaptureOk(a) && CaptureOk(b) && EncCapture(a) + s == EncCapture(b) + t
      ensures CanonCapture(a) == CanonCapture(b) && s == t
    {
      CaptureSplits(a, s);
      CaptureSplits(b, t);
      hide EncCapture, EncBool, EncOption, OptionOk;
      F64Peels();
      hide Peels;
      BoolPeels(a.virtualDevice, EncOption(a.flatness, EncF64) + (EncOption(a.centroid, EncF64) + s),
                b.virtualDevice, EncOption(b.flatness, EncF64) + (EncOption(b.centroid, EncF64) + t));
      OptionPeels(a.flatness, EncOption(a.centroid, EncF64) + s, b.flatness, EncOption(b.centroid, EncF64) + t,
                  EncF64, Canonical, IsFinite);
      OptionPeels(a.centroid, s, b.centroid, t, EncF64, Canonical, IsFinite);
    }
  }

  lemma CaptureSplits(c: CaptureSignals, s: seq<byte>)
    ensures EncCapture(c) + s ==
            EncBool(c.virtualDevice) + (EncOption(c.flatness, EncF64) + (EncOption(c.centroid, EncF64) + s))
  {
    hide EncBool, EncOption;
    Assoc(EncBool(c.virtualDevice), EncOption(c.flatness, EncF64) + EncOption(c.centroid, EncF64), s);
    Assoc(EncOption(c.flatness, EncF64), EncOption(c.centroid, EncF64), s);
  }

  lemma SignalsPeel()
    ensures Peels(EncSignals, CanonSignals, EncodableSignals)
  {
    forall a, b, s, t | EncodableSignals(a) && EncodableSignals(b) && EncSignals(a) + s == EncSignals(b) + t
      ensures CanonSignals(a) == CanonSignals(b) && s == t
    {
      SignalsSplit(a, s);
      SignalsSplit(b, t);
      assert Pow256(4) == U32_LIMIT;
      hide EncSignals, EncOption, Short, ShortAll, IsFinite, CanonCapture, Pow256;
      assert OptionOk(a.automation, AutomationOk) && OptionOk(b.automation, AutomationOk);
      assert OptionOk(a.capture, CaptureOk) && OptionOk(b.capture, CaptureOk);
      assert OptionOk(a.env, Short) && OptionOk(b.env, Short);
      hide OptionOk, EncodableSignals;
      TextPeels();
      AutomationPeels();
      CapturePeels();
      hide Peels;
      var aTail, bTail := EncOption(a.capture, EncCapture) + s, EncOption(b.capture, EncCapture) + t;
      var aMid, bMid := EncOption(a.automation, EncAutomation) + aTail, EncOption(b.automation, EncAutomation) + bTail;
      SplitLe(a.v, EncOption(a.env, EncText) + aMid, b.v, EncOption(b.env, EncText) + bMid, 4);
      OptionPeels(a.env, aMid, b.env, bMid, EncText, Same, Short);
      OptionPeels(a.automation, aTail, b.automation, bTail, EncAutomation, Same, AutomationOk);
      OptionPeels(a.capture, s, b.capture, t, EncCapture, CanonCapture, CaptureOk);
    }
  }

  lemma SignalsSplit(c: ClientSignals, s: seq<byte>)
    ensures EncSignals(c) + s == ToLe(c.v, 4) + (EncOption(c.env, EncText)
            + (EncOption(c.automation, EncAutomation) + (EncOption(c.capture, EncCapture) + s)))
  {
    hide EncOption;
    var p, q, r := EncOption(c.env, EncText), EncOption(c.automation, EncAutomation), EncOption(c.capture, EncCapture);
    Assoc(ToLe(c.v, 4), p + (q + r), s);
    Assoc(p, q + r, s);
    Assoc(q, r, s);
  }

  lemma StudyPeels()
    ensures Peels(EncStudy, Same, EncodableStudy)
  {
    forall a, b, s, t | EncodableStudy(a) && EncodableStudy(b) && EncStudy(a) + s == EncStudy(b) + t
      ensures a == b && s == t
    {
      StudySplits(a, s);
      StudySplits(b, t);
      hide EncStudy, EncText, Short, ClassCode;
      TextPeels();
      hide EncCapturedAs;
      var aTail, bTail := EncCapturedAs(a) + s, EncCapturedAs(b) + t;
      assert EncText(a.recordId) + aTail == EncText(b.recordId) + bTail;
      assert aTail == bTail;
      hide Peels;
      CapturedAsPeels(a, s, b, t);
    }
  }

  lemma CapturedAsPeels(a: StudyContext, s: seq<byte>, b: StudyContext, t: seq<byte>)
    requires EncCapturedAs(a) + s == EncCapturedAs(b) + t
    ensures a.captureClass == b.captureClass && a.featureSchemaVersion == b.featureSchemaVersion
    ensures a.projectionVersion == b.projectionVersion && s == t
  {
    var aLast, bLast := ToLe(a.projectionVersion, 2) + s, ToLe(b.projectionVersion, 2) + t;
    var aMid, bMid := ToLe(a.featureSchemaVersion, 2) + aLast, ToLe(b.featureSchemaVersion, 2) + bLast;
    assert EncCapturedAs(a) + s == [ClassCode(a.captureClass)] + aMid;
    assert EncCapturedAs(b) + t == [ClassCode(b.captureClass)] + bMid;
    hide EncCapturedAs;
    SplitHeads([ClassCode(a.captureClass)], aMid, [ClassCode(b.captureClass)], bMid);
    assert [ClassCode(a.captureClass)][0] == [ClassCode(b.captureClass)][0];
    assert Pow256(2) == 0x1_0000;
    hide Pow256;
    SplitLe(a.featureSchemaVersion, aLast, b.featureSchemaVersion, bLast, 2);
    SplitLe(a.projectionVersion, s, b.projectionVersion, t, 2);
  }

  lemma StudySplits(x: StudyContext, s: seq<byte>)
    ensures EncStudy(x) + s == EncText(x.token) + (EncText(x.recordId) + (EncCapturedAs(x) + s))
  {
    hide EncText, EncCapturedAs;
    Assoc(EncText(x.token), EncText(x.recordId) + EncCapturedAs(x), s);
    Assoc(EncText(x.recordId), EncCapturedAs(x), s);
  }

  // --- Main result ---

  lemma FeaturesPeel(a: BoundFields, s: seq<byte>, b: BoundFields, t: seq<byte>)
    requires Encodable(a) && Encodable(b) && EncFeatures(a) + s == EncFeatures(b) + t
    ensures a.baselineReset == b.baselineReset && CanonicalAll(a.features) == CanonicalAll(b.features)
    ensures MapOption(a.evidence, CanonEvidence) == MapOption(b.evidence, CanonEvidence) && s == t
  {
    hide EncBool, EncF64s, EncOption, FiniteAll, EncodableSignals, EncodableStudy, CanonicalAll, CanonEvidence,
        MapOption;
    var aLast, bLast := EncOption(a.evidence, EncEvidence) + s, EncOption(b.evidence, EncEvidence) + t;
    Assoc(EncBool(a.baselineReset), EncF64s(a.features) + EncOption(a.evidence, EncEvidence), s);
    Assoc(EncBool(b.baselineReset), EncF64s(b.features) + EncOption(b.evidence, EncEvidence), t);
    Assoc(EncF64s(a.features), EncOption(a.evidence, EncEvidence), s);
    Assoc(EncF64s(b.features), EncOption(b.evidence, EncEvidence), t);
    assert OptionOk(a.evidence, EvidenceOk) && OptionOk(b.evidence, EvidenceOk);
    assert FiniteAll(a.features) && FiniteAll(b.features);
    hide Encodable, EncFeatures;
    BoolPeels(a.baselineReset, EncF64s(a.features) + aLast, b.baselineReset, EncF64s(b.features) + bLast);
    F64sPeel();
    assert aLast == bLast;
    EvidencePeels();
    hide Peels;
    OptionPeels(a.evidence, s, b.evidence, t, EncEvidence, CanonEvidence, EvidenceOk);
  }

  lemma TracesSplit(r: BoundFields, s: seq<byte>)
    ensures EncTraces(r) + s == EncOption(r.f0Contour, EncF64s) + (EncOption(r.accelMagnitude, EncF64s)
            + (EncOption(r.audioSamples, EncText) + (EncOption(r.audioSampleRate, EncU32) + s)))
  {
    hide EncOption;
    var f, g := EncOption(r.f0Contour, EncF64s), EncOption(r.accelMagnitude, EncF64s);
    var h, k := EncOption(r.audioSamples, EncText), EncOption(r.audioSampleRate, EncU32);
    Assoc(f, g + (h + k), s);
    Assoc(g, h + k, s);
    Assoc(h, k, s);
  }

  lemma TracesPeel(a: BoundFields, s: seq<byte>, b: BoundFields, t: seq<byte>)
    requires Encodable(a) && Encodable(b) && EncTraces(a) + s == EncTraces(b) + t
    ensures MapOption(a.f0Contour, CanonicalAll) == MapOption(b.f0Contour, CanonicalAll)
    ensures MapOption(a.accelMagnitude, CanonicalAll) == MapOption(b.accelMagnitude, CanonicalAll)
    ensures a.audioSamples == b.audioSamples && a.audioSampleRate == b.audioSampleRate && s == t
  {
    TracesSplit(a, s);
    TracesSplit(b, t);
    hide EncTraces, EncOption, FiniteAll, Short, EncodableSignals, EncodableStudy, CanonicalAll;
    F64sPeel();
    TextPeels();
    U32Peels();
    hide Peels;
    var a3, b3 := EncOption(a.audioSampleRate, EncU32) + s, EncOption(b.audioSampleRate, EncU32) + t;
    var a2, b2 := EncOption(a.audioSamples, EncText) + a3, EncOption(b.audioSamples, EncText) + b3;
    var a1, b1 := EncOption(a.accelMagnitude, EncF64s) + a2, EncOption(b.accelMagnitude, EncF64s) + b2;
    OptionPeels(a.f0Contour, a1, b.f0Contour, b1, EncF64s, CanonicalAll, FiniteAll);
    OptionPeels(a.accelMagnitude, a2, b.accelMagnitude, b2, EncF64s, CanonicalAll, FiniteAll);
    OptionPeels(a.audioSamples, a3, b.audioSamples, b3, EncText, Same, Short);
    OptionPeels(a.audioSampleRate, s, b.audioSampleRate, t, EncU32, Same, Any);
  }

  lemma ContextPeels(a: BoundFields, b: BoundFields)
    requires Encodable(a) && Encodable(b) && EncContext(a) == EncContext(b)
    ensures MapOption(a.clientSignals, CanonSignals) == MapOption(b.clientSignals, CanonSignals) && a.study == b.study
  {
    hide EncOption, FiniteAll, EncodableSignals, EncodableStudy, CanonSignals;
    SignalsPeel();
    StudyPeels();
    hide Peels;
    OptionPeels(a.clientSignals, EncOption(a.study, EncStudy), b.clientSignals, EncOption(b.study, EncStudy),
                EncSignals, CanonSignals, EncodableSignals);
    assert EncOption(a.study, EncStudy) + [] == EncOption(b.study, EncStudy) + [];
    OptionPeels(a.study, [], b.study, [], EncStudy, Same, EncodableStudy);
  }

  // Equal preimages come from requests that agree on every bound field, up to the sign of zero.
  lemma PreimageReadsBack(a: BoundFields, b: BoundFields)
    requires Encodable(a) && Encodable(b) && Preimage(a) == Preimage(b)
    ensures Canon(a) == Canon(b)
  {
    SplitHeads(Domain(), EncFields(a), Domain(), EncFields(b));
    hide Domain, Encodable, EncFeatures, EncTraces, EncContext, CanonicalAll, CanonEvidence, CanonSignals, MapOption;
    FeaturesPeel(a, EncTraces(a) + EncContext(a), b, EncTraces(b) + EncContext(b));
    TracesPeel(a, EncContext(a), b, EncContext(b));
    ContextPeels(a, b);
  }

  // --- The converse: nothing else is told apart ---

  ghost predicate Agrees<T(!new), U>(enc: T -> seq<byte>, keeps: T -> U) {
    forall x, y | keeps(x) == keeps(y) :: enc(x) == enc(y)
  }

  lemma {:induction false} ItemsAgree<T(!new), U>(xs: seq<T>, ys: seq<T>, enc: T -> seq<byte>, keeps: T -> U)
    requires Agrees(enc, keeps) && |xs| == |ys|
    requires forall i | 0 <= i < |xs| :: keeps(xs[i]) == keeps(ys[i])
    ensures EncItems(xs, enc) == EncItems(ys, enc)
  {
    if xs != [] {
      ItemsAgree(xs[1..], ys[1..], enc, keeps);
    }
  }

  lemma OptionAgrees<T(!new), U>(x: Option<T>, y: Option<T>, enc: T -> seq<byte>, keeps: T -> U)
    requires Agrees(enc, keeps) && MapOption(x, keeps) == MapOption(y, keeps)
    ensures EncOption(x, enc) == EncOption(y, enc)
  {
  }

  lemma F64sAgree()
    ensures Agrees(EncF64s, CanonicalAll)
  {
    forall xs, ys | CanonicalAll(xs) == CanonicalAll(ys)
      ensures EncF64s(xs) == EncF64s(ys)
    {
      forall i | 0 <= i < |xs| ensures Canonical(xs[i]) == Canonical(ys[i]) {
        assert CanonicalAll(xs)[i] == CanonicalAll(ys)[i];
      }
      ItemsAgree(xs, ys, EncF64, Canonical);
    }
  }

  lemma EvidenceAgrees()
    ensures Agrees(EncEvidence, CanonEvidence)
  {
    F64sAgree();
    hide EncF64s, CanonicalAll;
  }

  lemma CaptureAgrees()
    ensures Agrees(EncCapture, CanonCapture)
  {
    forall x, y | CanonCapture(x) == CanonCapture(y)
      ensures EncCapture(x) == EncCapture(y)
    {
      assert Agrees(EncF64, Canonical);
      OptionAgrees(x.flatness, y.flatness, EncF64, Canonical);
      OptionAgrees(x.centroid, y.centroid, EncF64, Canonical);
    }
  }

  lemma SignalsAgree()
    ensures Agrees(EncSignals, CanonSignals)
  {
    forall x, y | CanonSignals(x) == CanonSignals(y)
      ensures EncSignals(x) == EncSignals(y)
    {
      CaptureAgrees();
      OptionAgrees(x.capture, y.capture, EncCapture, CanonCapture);
    }
  }

  // The preimages of two encodable requests are equal exactly when the requests agree on the
  // baseline flag, features, evidence, contours, audio, sample rate, encoded client signals and
  // study context, up to the sign of zero.
  lemma PreimageIsUniquelyDecodable(a: BoundFields, b: BoundFields)
    requires Encodable(a) && Encodable(b)
    ensures Preimage(a) == Preimage(b) <==> Canon(a) == Canon(b)
  {
    if Preimage(a) == Preimage(b) {
      PreimageReadsBack(a, b);
    }
    if Canon(a) == Canon(b) {
      CanonDecidesPreimage(a, b);
    }
  }

  lemma CanonDecidesPreimage(a: BoundFields, b: BoundFields)
    requires Canon(a) == Canon(b)
    ensures Preimage(a) == Preimage(b)
  {
    F64sAgree();
    assert EncF64s(a.features) == EncF64s(b.features);
    hide EncF64s, CanonicalAll, EncOption, CanonEvidence, CanonSignals;
    EvidenceAgrees();
    SignalsAgree();
    OptionAgrees(a.evidence, b.evidence, EncEvidence, CanonEvidence);
    OptionAgrees(a.f0Contour, b.f0Contour, EncF64s, CanonicalAll);
    OptionAgrees(a.accelMagnitude, b.accelMagnitude, EncF64s, CanonicalAll);
    OptionAgrees(a.clientSignals, b.clientSignals, EncSignals, CanonSignals);
  }

  // What agreeing up to the sign of zero means for the numbers themselves.
  lemma CanonicalAllEqual(xs: seq<u64>, ys: seq<u64>)
    ensures CanonicalAll(xs) == CanonicalAll(ys) <==>
            |xs| == |ys| && forall i | 0 <= i < |xs| :: xs[i] == ys[i] || (IsZero(xs[i]) && IsZero(ys[i]))
  {
    if CanonicalAll(xs) == CanonicalAll(ys) {
      forall i | 0 <= i < |xs| ensures xs[i] == ys[i] || (IsZero(xs[i]) && IsZero(ys[i])) {
        assert CanonicalAll(xs)[i] == CanonicalAll(ys)[i];
      }
    }
  }
}
