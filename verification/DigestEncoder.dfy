// The encoder that builds the signed byte string (src/validation/authorization.rs:21-184): each
// method appends the encoding of its argument, or refuses it.
module DigestEncoder {
  import opened Results
  import opened Bytes
  import opened DigestEncoding

  class Encoder {
    var bytes: seq<byte>

    constructor ()
      ensures bytes == Domain()
    {
      bytes := Domain();
    }

    method Boolean(value: bool)
      modifies this
      ensures bytes == old(bytes) + EncBool(value)
    {
      bytes := bytes + [if value then 1 else 0];
    }

    method U8(value: byte)
      modifies this
      ensures bytes == old(bytes) + [value]
    {
      bytes := bytes + [value];
    }

    method U16(value: u16)
      modifies this
      ensures bytes == old(bytes) + ToLe(value, 2)
    {
      bytes := bytes + ToLe(value, 2);
    }

    method U32(value: u32)
      modifies this
      ensures bytes == old(bytes) + ToLe(value, 4)
    {
      bytes := bytes + ToLe(value, 4);
    }

    method Length(value: nat) returns (ok: bool)
      modifies this
      ensures ok <==> value < U32_LIMIT
      ensures ok ==> bytes == old(bytes) + ToLe(value, 4)
    {
      if value >= U32_LIMIT {
        return false;
      }
      U32(value);
      return true;
    }

    method String(value: Text) returns (ok: bool)
      modifies this
      ensures ok <==> Short(value)
      ensures ok ==> bytes == old(bytes) + EncText(value)
    {
      ok := Length(|value|);
      if ok {
        bytes := bytes + value;
      }
    }

    method OptionString(value: Option<Text>) returns (ok: bool)
      modifies this
      ensures ok <==> (value.Some? ==> Short(value.value))
      ensures ok ==> bytes == old(bytes) + EncOption(value, EncText)
    {
      Boolean(value.Some?);
      ok := true;
      if value.Some? {
        ok := String(value.value);
        Assoc(old(bytes), [1], EncText(value.value));
      }
    }

    method FiniteF64(value: u64) returns (ok: bool)
      modifies this
      ensures ok <==> IsFinite(value)
      ensures ok ==> bytes == old(bytes) + EncF64(value)
    {
      if !IsFinite(value) {
        return false;
      }
      bytes := bytes + ToLe(if IsZero(value) then 0 else value, 8);
      return true;
    }

    method OptionF64(value: Option<u64>) returns (ok: bool)
      modifies this
      ensures ok <==> (value.Some? ==> IsFinite(value.value))
      ensures ok ==> bytes == old(bytes) + EncOption(value, EncF64)
    {
      Boolean(value.Some?);
      ok := true;
      if value.Some? {
        ok := FiniteF64(value.value);
        Assoc(old(bytes), [1], EncF64(value.value));
      }
    }

    method F64Vector(values: seq<u64>) returns (ok: bool)
      modifies this
      ensures ok <==> FiniteAll(values)
      ensures ok ==> bytes == old(bytes) + EncF64s(values)
    {
      ok := Length(|values|);
      if !ok {
        return;
      }
      ghost var head := bytes;
      assert EncItems(values[..0], EncF64) == [] && head + [] == head;
      hide EncF64, IsFinite, EncItems, ToLe;
      for i := 0 to |values|
        invariant forall k | 0 <= k < i :: IsFinite(values[k])
        invariant bytes == head + EncItems(values[..i], EncF64)
      {
        ok := FiniteF64(values[i]);
        if !ok {
          return;
        }
        AppendItem(head, values, i, EncF64);
      }
      assert values[..|values|] == values;
      Assoc(old(bytes), ToLe(|values|, 4), EncItems(values, EncF64));
      return true;
    }

    method OptionF64Vector(values: Option<seq<u64>>) returns (ok: bool)
      modifies this
      ensures ok <==> (values.Some? ==> FiniteAll(values.value))
      ensures ok ==> bytes == old(bytes) + EncOption(values, EncF64s)
    {
      Boolean(values.Some?);
      ok := true;
      if values.Some? {
        ok := F64Vector(values.value);
        Assoc(old(bytes), [1], EncF64s(values.value));
      }
    }

    method StringVector(values: seq<Text>) returns (ok: bool)
      modifies this
      ensures ok <==> ShortAll(values)
      ensures ok ==> bytes == old(bytes) + EncTexts(values)
    {
      ok := Length(|values|);
      if !ok {
        return;
      }
      ghost var head := bytes;
      assert EncItems(values[..0], EncText) == [] && head + [] == head;
      hide EncText, Short, EncItems, ToLe;
      for i := 0 to |values|
        invariant forall k | 0 <= k < i :: Short(values[k])
        invariant bytes == head + EncItems(values[..i], EncText)
      {
        ok := String(values[i]);
        if !ok {
          return;
        }
        AppendItem(head, values, i, EncText);
      }
      assert values[..|values|] == values;
      Assoc(old(bytes), ToLe(|values|, 4), EncItems(values, EncText));
      return true;
    }

    method Automation(signals: AutomationSignals) returns (ok: bool)
      modifies this
      ensures ok <==> AutomationOk(signals)
      ensures ok ==> bytes == old(bytes) + EncAutomation(signals)
    {
      hide EncTexts, ShortAll;
      Boolean(signals.webdriver);
      ok := StringVector(signals.tells);
      Assoc(old(bytes), EncBool(signals.webdriver), EncTexts(signals.tells));
    }

    method Capture(capture: CaptureSignals) returns (ok: bool)
      modifies this
      ensures ok <==> CaptureOk(capture)
      ensures ok ==> bytes == old(bytes) + EncCapture(capture)
    {
      hide EncOption, IsFinite;
      Boolean(capture.virtualDevice);
      ok := OptionF64(capture.flatness);
      if !ok {
        return;
      }
      ok := OptionF64(capture.centroid);
      Append3(old(bytes), EncBool(capture.virtualDevice), EncOption(capture.flatness, EncF64),
              EncOption(capture.centroid, EncF64));
    }

    method OptionAutomation(signals: Option<AutomationSignals>) returns (ok: bool)
      modifies this
      ensures ok <==> OptionOk(signals, AutomationOk)
      ensures ok ==> bytes == old(bytes) + EncOption(signals, EncAutomation)
    {
      hide EncAutomation, AutomationOk;
      Boolean(signals.Some?);
      ok := true;
      if signals.Some? {
        ok := Automation(signals.value);
        Assoc(old(bytes), [1], EncAutomation(signals.value));
      }
    }

    method OptionCapture(capture: Option<CaptureSignals>) returns (ok: bool)
      modifies this
      ensures ok <==> OptionOk(capture, CaptureOk)
      ensures ok ==> bytes == old(bytes) + EncOption(capture, EncCapture)
    {
      hide EncCapture, CaptureOk;
      Boolean(capture.Some?);
      ok := true;
      if capture.Some? {
        ok := Capture(capture.value);
        Assoc(old(bytes), [1], EncCapture(capture.value));
      }
    }

    method Signals(signals: Option<ClientSignals>) returns (ok: bool)
      modifies this
      ensures ok <==> OptionOk(signals, EncodableSignals)
      ensures ok ==> bytes == old(bytes) + EncOption(signals, EncSignals)
    {
      Boolean(signals.Some?);
      if signals.None? {
        return true;
      }
      var s := signals.value;
      assert EncOption(signals, EncSignals) == [1] + EncSignals(s);
      hide EncOption, EncText, AutomationOk, CaptureOk, Short;
      U32(s.v);
      ok := OptionString(s.env);
      if !ok {
        return;
      }
      ok := OptionAutomation(s.automation);
      if !ok {
        return;
      }
      ok := OptionCapture(s.capture);
      Append5(old(bytes), [1], ToLe(s.v, 4), EncOption(s.env, EncText), EncOption(s.automation, EncAutomation),
              EncOption(s.capture, EncCapture));
    }

    method Study(study: Option<StudyContext>) returns (ok: bool)
      modifies this
      ensures ok <==> OptionOk(study, EncodableStudy)
      ensures ok ==> bytes == old(bytes) + EncOption(study, EncStudy)
    {
      Boolean(study.Some?);
      if study.None? {
        return true;
      }
      var s := study.value;
      assert EncOption(study, EncStudy) == [1] + EncStudy(s);
      hide EncOption, EncText, Short, ClassCode;
      ok := String(s.token);
      if !ok {
        return;
      }
      ok := String(s.recordId);
      if !ok {
        return;
      }
      U8(ClassCode(s.captureClass));
      U16(s.featureSchemaVersion);
      U16(s.projectionVersion);
      Append3(old(bytes) + [1] + EncText(s.token) + EncText(s.recordId), [ClassCode(s.captureClass)],
              ToLe(s.featureSchemaVersion, 2), ToLe(s.projectionVersion, 2));
      assert bytes == old(bytes) + [1] + EncText(s.token) + EncText(s.recordId) + EncCapturedAs(s);
      hide EncCapturedAs;
      Append4(old(bytes), [1], EncText(s.token), EncText(s.recordId), EncCapturedAs(s));
    }

    method Evidence(evidence: Option<CompatibilityEvidence>) returns (ok: bool)
      modifies this
      ensures ok <==> OptionOk(evidence, EvidenceOk)
      ensures ok ==> bytes == old(bytes) + EncOption(evidence, EncEvidence)
    {
      hide EncF64s, FiniteAll;
      Boolean(evidence.Some?);
      ok := true;
      if evidence.Some? {
        var e := evidence.value;
        assert EncOption(evidence, EncEvidence) == [1] + EncEvidence(e);
        hide EncOption;
        U16(e.projectionVersion);
        U16(e.featureSchemaVersion);
        ok := F64Vector(e.features);
        Append4(old(bytes), [1], ToLe(e.projectionVersion, 2), ToLe(e.featureSchemaVersion, 2), EncF64s(e.features));
      }
    }

    method SampleRate(rate: Option<u32>)
      modifies this
      ensures bytes == old(bytes) + EncOption(rate, EncU32)
    {
      Boolean(rate.Some?);
      if rate.Some? {
        U32(rate.value);
        Assoc(old(bytes), [1], EncU32(rate.value));
      }
    }
  }

  lemma Append3(p: seq<byte>, a: seq<byte>, b: seq<byte>, c: seq<byte>)
    ensures p + a + b + c == p + (a + (b + c))
  {
    Assoc(p + a, b, c);
    Assoc(p, a, b + c);
  }

  lemma Append4(p: seq<byte>, a: seq<byte>, b: seq<byte>, c: seq<byte>, d: seq<byte>)
    ensures p + a + b + c + d == p + (a + (b + (c + d)))
  {
    Assoc(p + a + b, c, d);
    Append3(p, a, b, c + d);
  }

  lemma Append5(p: seq<byte>, a: seq<byte>, b: seq<byte>, c: seq<byte>, d: seq<byte>, e: seq<byte>)
    ensures p + a + b + c + d + e == p + (a + (b + (c + (d + e))))
  {
    Assoc(p + a + b + c, d, e);
    Append4(p, a, b, c, d + e);
  }

  lemma {:induction false} EncItemsSnoc<T>(xs: seq<T>, x: T, enc: T -> seq<byte>)
    ensures EncItems(xs + [x], enc) == EncItems(xs, enc) + enc(x)
  {
    if xs == [] {
      assert xs + [x] == [x];
    } else {
      assert (xs + [x])[1..] == xs[1..] + [x];
      EncItemsSnoc(xs[1..], x, enc);
    }
  }

  // One more item behind what stands in front of a list.
  lemma AppendItem<T>(head: seq<byte>, values: seq<T>, i: nat, enc: T -> seq<byte>)
    requires i < |values|
    ensures head + EncItems(values[..i], enc) + enc(values[i]) == head + EncItems(values[..i + 1], enc)
  {
    EncItemsSnoc(values[..i], values[i], enc);
    assert values[..i + 1] == values[..i] + [values[i]];
    hide EncItems;
    Assoc(head, EncItems(values[..i], enc), enc(values[i]));
  }

  lemma NonFiniteFeatures(xs: seq<u64>)
    ensures FiniteAll(xs) <==> |xs| < U32_LIMIT && forall i | 0 <= i < |xs| :: xs[i] % SIGN_BIT < INFINITY_BITS
  {
    hide IsFinite;
    forall i | 0 <= i < |xs| ensures IsFinite(xs[i]) <==> xs[i] % SIGN_BIT < INFINITY_BITS {
      FiniteExactlyBelowInfinity(xs[i]);
    }
  }

  // request_digest up to the hash: exactly the encodable requests have a preimage.
  method RequestPreimage(r: BoundFields) returns (preimage: Option<seq<byte>>)
    ensures preimage.Some? <==> Encodable(r)
    ensures preimage.Some? ==> preimage.value == Preimage(r)
    ensures (exists i :: 0 <= i < |r.features| && r.features[i] % SIGN_BIT >= INFINITY_BITS) ==> preimage.None?
  {
    hide EncBool, EncF64s, EncText, EncOption, FiniteAll, Short, EncodableSignals, EncodableStudy;
    assert Encodable(r) <==>
           && FiniteAll(r.features) && OptionOk(r.evidence, EvidenceOk) && OptionOk(r.f0Contour, FiniteAll)
           && OptionOk(r.accelMagnitude, FiniteAll) && OptionOk(r.audioSamples, Short)
           && OptionOk(r.clientSignals, EncodableSignals) && OptionOk(r.study, EncodableStudy);
    assert (exists i :: 0 <= i < |r.features| && r.features[i] % SIGN_BIT >= INFINITY_BITS)
        ==> !FiniteAll(r.features) by {
      NonFiniteFeatures(r.features);
    }
    hide Encodable;
    var e := new Encoder();
    e.Boolean(r.baselineReset);
    var ok := e.F64Vector(r.features);
    if !ok {
      return None;
    }
    ok := e.Evidence(r.evidence);
    if !ok {
      return None;
    }
    Append3(Domain(), EncBool(r.baselineReset), EncF64s(r.features), EncOption(r.evidence, EncEvidence));
    assert e.bytes == Domain() + EncFeatures(r);
    ok := e.OptionF64Vector(r.f0Contour);
    if !ok {
      return None;
    }
    ok := e.OptionF64Vector(r.accelMagnitude);
    if !ok {
      return None;
    }
    ok := e.OptionString(r.audioSamples);
    if !ok {
      return None;
    }
    e.SampleRate(r.audioSampleRate);
    Append4(Domain() + EncFeatures(r), EncOption(r.f0Contour, EncF64s), EncOption(r.accelMagnitude, EncF64s),
            EncOption(r.audioSamples, EncText), EncOption(r.audioSampleRate, EncU32));
    assert e.bytes == Domain() + EncFeatures(r) + EncTraces(r);
    ok := e.Signals(r.clientSignals);
    if !ok {
      return None;
    }
    ok := e.Study(r.study);
    if !ok {
      return None;
    }
    Assoc(Domain() + EncFeatures(r) + EncTraces(r), EncOption(r.clientSignals, EncSignals),
        EncOption(r.study, EncStudy));
    Append3(Domain(), EncFeatures(r), EncTraces(r), EncContext(r));
    return Some(e.bytes);
  }
}
