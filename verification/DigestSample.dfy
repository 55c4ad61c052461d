// The hashed bytes of one request that has every field, written out
// (src/validation/authorization.rs:116-184).
module DigestSample {
  import opened Results
  import opened Bytes
  import opened DigestEncoding

  const ONE_QUARTER: u64 := 0x3FD0_0000_0000_0000
  const SAMPLE := BoundFields(
    true, [SIGN_BIT, ONE_QUARTER], Some(CompatibilityEvidence(1, 4, [0])), Some([]), Some([ONE_QUARTER]), Some([65]),
    Some(16_000),
    Some(ClientSignals(1, Some([66]), Some(AutomationSignals(true, [[67]])),
                       Some(CaptureSignals(false, Some(true), Some(ONE_QUARTER), None)))),
    Some(StudyContext([68], [69, 70], NativeIos, 5, 2)))

  // The flag, the features with the negative zero made positive, and the evidence.
  const FEATURE_BYTES: seq<byte> :=
    [1] + (([2, 0, 0, 0] + ([0, 0, 0, 0, 0, 0, 0, 0] + ([0, 0, 0, 0, 0, 0, 0xD0, 0x3F] + [])))
           + ([1] + ([1, 0] + ([4, 0] + ([1, 0, 0, 0] + ([0, 0, 0, 0, 0, 0, 0, 0] + []))))))

  // The contours, the audio and its rate.
  const TRACE_BYTES: seq<byte> :=
    ([1] + ([0, 0, 0, 0] + []))
    + (([1] + ([1, 0, 0, 0] + ([0, 0, 0, 0, 0, 0, 0xD0, 0x3F] + [])))
       + (([1] + ([1, 0, 0, 0] + [65])) + ([1] + [0x80, 0x3E, 0, 0])))

  // The client signals, without the voice-isolation flag, and the study context.
  const CONTEXT_BYTES: seq<byte> :=
    ([1] + ([1, 0, 0, 0]
            + (([1] + ([1, 0, 0, 0] + [66]))
               + (([1] + ([1] + ([1, 0, 0, 0] + (([1, 0, 0, 0] + [67]) + []))))
                  + ([1] + ([0] + (([1] + [0, 0, 0, 0, 0, 0, 0xD0, 0x3F]) + [0])))))))
    + ([1] + (([1, 0, 0, 0] + [68]) + (([2, 0, 0, 0] + [69, 70]) + ([2] + ([5, 0] + [2, 0])))))

  lemma SampleFeatures()
    ensures EncFeatures(SAMPLE) == FEATURE_BYTES
  {
    SampleWords();
    hide ToLe;
    ItemsOfTwo(SIGN_BIT, ONE_QUARTER);
    ItemsOfOne<u64>(0, EncF64);
  }

  lemma SampleTraces()
    ensures EncTraces(SAMPLE) == TRACE_BYTES
  {
    SampleWords();
    hide ToLe;
    ItemsOfOne<u64>(ONE_QUARTER, EncF64);
  }

  lemma SampleContext()
    ensures EncContext(SAMPLE) == CONTEXT_BYTES
  {
    SampleWords();
    hide ToLe;
    ItemsOfOne([67], EncText);
  }

  lemma SamplePreimage()
    ensures Preimage(SAMPLE)
            == Ascii("entros-validate-request-digest-v1\0") + FEATURE_BYTES + TRACE_BYTES + CONTEXT_BYTES
  {
    SampleFeatures();
    SampleTraces();
    SampleContext();
    hide EncFeatures, EncTraces, EncContext, FEATURE_BYTES, TRACE_BYTES, CONTEXT_BYTES;
  }

  lemma ClassCodes()
    ensures ClassCode(WebMobile) == 0 && ClassCode(WebDesktop) == 1
    ensures ClassCode(NativeIos) == 2 && ClassCode(NativeAndroid) == 3
  {
  }

  lemma SampleWords()
    ensures ToLe(0, 4) == [0, 0, 0, 0] && ToLe(1, 4) == [1, 0, 0, 0] && ToLe(2, 4) == [2, 0, 0, 0]
    ensures ToLe(16_000, 4) == [0x80, 0x3E, 0, 0] && ToLe(0, 8) == [0, 0, 0, 0, 0, 0, 0, 0]
    ensures ToLe(1, 2) == [1, 0] && ToLe(4, 2) == [4, 0] && ToLe(5, 2) == [5, 0] && ToLe(2, 2) == [2, 0]
    ensures ToLe(ONE_QUARTER, 8) == [0, 0, 0, 0, 0, 0, 0xD0, 0x3F]
  {
    ByteAsWord(0);
    ByteAsWord(1);
    ByteAsWord(2);
    ByteAsHalfWord(1);
    ByteAsHalfWord(4);
    ByteAsHalfWord(5);
    ByteAsHalfWord(2);
    RateBytes();
    QuarterBytes();
    ZeroBytes();
    hide ToLe;
  }

  lemma FirstByte(b: byte, rest: nat, width: nat)
    ensures ToLe(b + 256 * rest, width + 1) == [b] + ToLe(rest, width)
  {
    var v := b + 256 * rest;
    assert v % 256 == b && v / 256 == rest;
    assert ToLe(v, width + 1) == [v % 256] + ToLe(v / 256, width);
  }

  lemma ZeroBytes()
    ensures ToLe(0, 1) == [0] && ToLe(0, 2) == [0, 0] && ToLe(0, 3) == [0, 0, 0]
    ensures ToLe(0, 8) == [0, 0, 0, 0, 0, 0, 0, 0]
  {
  }

  lemma ByteAsWord(b: byte)
    ensures ToLe(b, 4) == [b, 0, 0, 0]
  {
    FirstByte(b, 0, 3);
    ZeroBytes();
    hide ToLe;
  }

  lemma ByteAsHalfWord(b: byte)
    ensures ToLe(b, 2) == [b, 0]
  {
    FirstByte(b, 0, 1);
    ZeroBytes();
    hide ToLe;
  }

  lemma RateBytes()
    ensures ToLe(16_000, 4) == [0x80, 0x3E, 0, 0]
  {
    FirstByte(0x80, 0x3E, 3);
    FirstByte(0x3E, 0, 2);
    ZeroBytes();
    hide ToLe;
  }

  lemma HalfQuarterBytes()
    ensures ToLe(0x3FD0_0000, 4) == [0, 0, 0xD0, 0x3F]
  {
    FirstByte(0x3F, 0, 0);
    FirstByte(0xD0, 0x3F, 1);
    FirstByte(0, 0x3FD0, 2);
    FirstByte(0, 0x3F_D000, 3);
    assert ToLe(0, 0) == [];
    hide ToLe;
  }

  lemma QuarterBytes()
    ensures ToLe(ONE_QUARTER, 8) == [0, 0, 0, 0, 0, 0, 0xD0, 0x3F]
  {
    HalfQuarterBytes();
    FirstByte(0, 0x3FD0_0000, 4);
    FirstByte(0, 0x3F_D000_0000, 5);
    FirstByte(0, 0x3FD0_0000_0000, 6);
    FirstByte(0, 0x3F_D000_0000_0000, 7);
    hide ToLe;
  }

  lemma ItemsOfOne<T>(x: T, enc: T -> seq<byte>)
    ensures EncItems([x], enc) == enc(x) + []
  {
    assert [x][1..] == [];
  }

  lemma ItemsOfTwo(x: u64, y: u64)
    ensures EncItems([x, y], EncF64) == EncF64(x) + (EncF64(y) + [])
  {
    assert [x, y][1..] == [y];
    ItemsOfOne(y, EncF64);
  }
}
