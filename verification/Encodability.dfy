// Which requests have an encoding (src/validation/authorization.rs:48-114), in terms of the lists,
// texts and numbers they hold.
module Encodability {
  import opened Results
  import opened Bytes
  import opened DigestEncoding

  function Given<T>(o: Option<T>): seq<T> {
    if o.Some? then [o.value] else []
  }

  // Every list of numbers that a request holds, a lone number being a list of one.
  function NumberLists(r: BoundFields): seq<seq<u64>> {
    [r.features] + (if r.evidence.Some? then [r.evidence.value.features] else [])
    + (Given(r.f0Contour) + Given(r.accelMagnitude))
    + if r.clientSignals.Some? && r.clientSignals.value.capture.Some? then
        [Given(r.clientSignals.value.capture.value.flatness), Given(r.clientSignals.value.capture.value.centroid)]
      else []
  }

  function Tells(r: BoundFields): seq<Text> {
    if r.clientSignals.Some? && r.clientSignals.value.automation.Some?
    then r.clientSignals.value.automation.value.tells else []
  }

  // Every text that it holds.
  function Texts(r: BoundFields): seq<Text> {
    Given(r.audioSamples) + (if r.clientSignals.Some? then Given(r.clientSignals.value.env) else []) + Tells(r)
    + if r.study.Some? then [r.study.value.token, r.study.value.recordId] else []
  }

  predicate AllFinite(lists: seq<seq<u64>>) {
    forall i | 0 <= i < |lists| ::
      |lists[i]| < 0x1_0000_0000 && forall k | 0 <= k < |lists[i]| :: lists[i][k] % SIGN_BIT < INFINITY_BITS
  }

  // A request has an encoding exactly if none of its lists and texts is too long for its 32-bit
  // length and all its numbers are finite.
  lemma EncodableExactly(r: BoundFields)
    ensures Encodable(r) <==>
            AllFinite(NumberLists(r)) && |Tells(r)| < 0x1_0000_0000
            && AllShort(Texts(r))
  {
    FiniteLists(r);
    ShortTexts(r);
    hide FiniteAll, AllFinite, NumberLists, Texts, Short, IsFinite;
  }

  predicate AllShort(texts: seq<Text>) {
    forall i | 0 <= i < |texts| :: |texts[i]| < 0x1_0000_0000
  }

  lemma FiniteList(xs: seq<u64>)
    ensures AllFinite([xs]) <==> FiniteAll(xs)
  {
    hide IsFinite;
    forall k | 0 <= k < |xs| ensures IsFinite(xs[k]) <==> xs[k] % SIGN_BIT < INFINITY_BITS {
      FiniteExactlyBelowInfinity(xs[k]);
    }
    assert [xs][0] == xs;
  }

  lemma FiniteNumber(o: Option<u64>)
    ensures AllFinite([Given(o)]) <==> (o.Some? ==> IsFinite(o.value))
  {
    FiniteList(Given(o));
    if o.Some? {
      assert Given(o)[0] == o.value;
    }
  }

  lemma FiniteListOption(o: Option<seq<u64>>)
    ensures AllFinite(Given(o)) <==> (o.Some? ==> FiniteAll(o.value))
  {
    if o.Some? {
      FiniteList(o.value);
    }
  }

  lemma AllFiniteOfConcat(a: seq<seq<u64>>, b: seq<seq<u64>>)
    ensures AllFinite(a + b) <==> AllFinite(a) && AllFinite(b)
  {
    assert forall i | 0 <= i < |a| :: (a + b)[i] == a[i];
    assert forall i | 0 <= i < |b| :: (a + b)[|a| + i] == b[i];
  }

  lemma FiniteLists(r: BoundFields)
    ensures AllFinite(NumberLists(r)) <==>
            && FiniteAll(r.features) && (r.evidence.Some? ==> FiniteAll(r.evidence.value.features))
            && (r.f0Contour.Some? ==> FiniteAll(r.f0Contour.value))
            && (r.accelMagnitude.Some? ==> FiniteAll(r.accelMagnitude.value))
            && (r.clientSignals.Some? && r.clientSignals.value.capture.Some? ==>
                  var capture := r.clientSignals.value.capture.value;
                  && (capture.flatness.Some? ==> IsFinite(capture.flatness.value))
                  && (capture.centroid.Some? ==> IsFinite(capture.centroid.value)))
  {
    var evidence := if r.evidence.Some? then [r.evidence.value.features] else [];
    var contours := Given(r.f0Contour) + Given(r.accelMagnitude);
    FiniteList(r.features);
    if r.evidence.Some? {
      FiniteList(r.evidence.value.features);
    }
    FiniteListOption(r.f0Contour);
    FiniteListOption(r.accelMagnitude);
    AllFiniteOfConcat(Given(r.f0Contour), Given(r.accelMagnitude));
    AllFiniteOfConcat([r.features], evidence);
    AllFiniteOfConcat([r.features] + evidence, contours);
    var rest: seq<seq<u64>> := [];
    if r.clientSignals.Some? && r.clientSignals.value.capture.Some? {
      var capture := r.clientSignals.value.capture.value;
      FiniteNumber(capture.flatness);
      FiniteNumber(capture.centroid);
      AllFiniteOfConcat([Given(capture.flatness)], [Given(capture.centroid)]);
      rest := [Given(capture.flatness), Given(capture.centroid)];
      assert rest == [Given(capture.flatness)] + [Given(capture.centroid)];
    }
    AllFiniteOfConcat([r.features] + evidence + contours, rest);
    hide FiniteAll, IsFinite, Given;
  }

  lemma ShortTexts(r: BoundFields)
    ensures AllShort(Texts(r)) && |Tells(r)| < 0x1_0000_0000 <==>
            && (r.audioSamples.Some? ==> Short(r.audioSamples.value))
            && (r.clientSignals.Some? ==>
                  && (r.clientSignals.value.env.Some? ==> Short(r.clientSignals.value.env.value))
                  && (r.clientSignals.value.automation.Some? ==>
                        ShortAll(r.clientSignals.value.automation.value.tells)))
            && (r.study.Some? ==> EncodableStudy(r.study.value))
  {
    var env := if r.clientSignals.Some? then Given(r.clientSignals.value.env) else [];
    var study := if r.study.Some? then [r.study.value.token, r.study.value.recordId] else [];
    AllShortOfConcat(Given(r.audioSamples), env);
    AllShortOfConcat(Given(r.audioSamples) + env, Tells(r));
    AllShortOfConcat(Given(r.audioSamples) + env + Tells(r), study);
    if r.study.Some? {
      assert AllShort(study) <==> Short(study[0]) && Short(study[1]);
    }
    ShortOption(r.audioSamples);
    if r.clientSignals.Some? {
      ShortOption(r.clientSignals.value.env);
    }
    assert AllShort(Tells(r)) && |Tells(r)| < 0x1_0000_0000 <==> ShortAll(Tells(r));
    hide AllShort, Short, ShortAll, Given;
  }

  lemma ShortOption(o: Option<Text>)
    ensures AllShort(Given(o)) <==> (o.Some? ==> Short(o.value))
  {
    if o.Some? {
      assert Given(o)[0] == o.value;
    }
  }

  lemma AllShortOfConcat(a: seq<Text>, b: seq<Text>)
    ensures AllShort(a + b) <==> AllShort(a) && AllShort(b)
  {
    assert forall i | 0 <= i < |a| :: (a + b)[i] == a[i];
    assert forall i | 0 <= i < |b| :: (a + b)[|a| + i] == b[i];
  }
}
