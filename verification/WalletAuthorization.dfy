// Wallet authorization of a projection-2 request (src/validation/authorization.rs:186-268): the
// hex codec, the signed message and the acceptance decision. Ed25519, SHA-256 and base58 are
// parameters.
module WalletAuthorization {
  import opened Results
  import opened Bytes
  import opened DigestEncoding
  import DigestEncoder
  import Splitting

  const ZERO_CHAR: byte := 48
  const A_CHAR: byte := 97
  const NEWLINE: byte := 10

  // --- Lowercase hex ---

  function HexDigit(n: nat): byte
    requires n < 16
  {
    if n < 10 then ZERO_CHAR + n else A_CHAR + (n - 10)
  }

  predicate IsHex(c: byte) {
    (ZERO_CHAR <= c <= 57) || (A_CHAR <= c <= 102)
  }

  function HexNibble(c: byte): (n: nat)
    requires IsHex(c)
    ensures n < 16 && HexDigit(n) == c
  {
    if c <= 57 then c - ZERO_CHAR else c - A_CHAR + 10
  }

  // The sixteen digits are sixteen different hex characters in ascending order, and there are no
  // others.
  lemma HexDigitsAscend(m: nat, n: nat)
    requires m < n < 16
    ensures IsHex(HexDigit(m)) && IsHex(HexDigit(n)) && HexDigit(m) < HexDigit(n)
    ensures forall c: byte ::
              IsHex(c) <==> ('0' <= c as char <= '9') || ('a' <= c as char <= 'f')
  {
  }

  function LowerHex(value: seq<byte>): (text: Text)
    ensures |text| == 2 * |value|
  {
    seq(2 * |value|, i requires 0 <= i < 2 * |value| =>
      HexDigit(if i % 2 == 0 then value[i / 2] / 16 else value[i / 2] % 16))
  }

  predicate AllHex(text: Text) {
    forall i | 0 <= i < |text| :: IsHex(text[i])
  }

  function Unhex(text: Text): (value: seq<byte>)
    requires |text| % 2 == 0 && AllHex(text)
    ensures |value| == |text| / 2
  {
    seq(|text| / 2, i requires 0 <= i < |text| / 2 => 16 * HexNibble(text[2 * i]) + HexNibble(text[2 * i + 1]))
  }

  // Every byte string has exactly one hex rendering, and it decodes back.
  lemma HexRoundTrip(value: seq<byte>)
    ensures AllHex(LowerHex(value)) && Unhex(LowerHex(value)) == value
  {
    var text := LowerHex(value);
    forall i | 0 <= i < |text| ensures IsHex(text[i]) {
    }
    forall i | 0 <= i < |value| ensures Unhex(text)[i] == value[i] {
      assert text[2 * i] == HexDigit(value[i] / 16) && text[2 * i + 1] == HexDigit(value[i] % 16);
    }
  }

  lemma Nibbles(high: nat, low: nat)
    requires low < 16
    ensures (16 * high + low) / 16 == high && (16 * high + low) % 16 == low
  {
  }

  // Every even-length lowercase hex text is the rendering of what it decodes to.
  lemma UnhexRoundTrip(text: Text)
    requires |text| % 2 == 0 && AllHex(text)
    ensures LowerHex(Unhex(text)) == text
  {
    hide IsHex, HexDigit;
    forall i | 0 <= i < |text| ensures LowerHex(Unhex(text))[i] == text[i] {
      var k := i / 2;
      Nibbles(HexNibble(text[2 * k]), HexNibble(text[2 * k + 1]));
    }
  }

  // The text of a byte string, read as digits to base 16, is its bytes in order: the first of each
  // two characters counts sixteen times the second.
  lemma HexReadsInOrder(value: seq<byte>, i: nat)
    requires i < |value|
    ensures var text := LowerHex(value);
            IsHex(text[2 * i]) && IsHex(text[2 * i + 1])
            && 16 * HexNibble(text[2 * i]) + HexNibble(text[2 * i + 1]) == value[i]
  {
    NibbleOfDigit(value[i] / 16);
    NibbleOfDigit(value[i] % 16);
    hide HexDigit, HexNibble, IsHex;
    assert LowerHex(value)[2 * i] == HexDigit(value[i] / 16);
    assert LowerHex(value)[2 * i + 1] == HexDigit(value[i] % 16);
  }

  lemma NibbleOfDigit(n: nat)
    requires n < 16
    ensures IsHex(HexDigit(n)) && HexNibble(HexDigit(n)) == n
  {
  }

  lemma LowerHexInjective(a: seq<byte>, b: seq<byte>)
    requires LowerHex(a) == LowerHex(b)
    ensures a == b
  {
    HexRoundTrip(a);
    HexRoundTrip(b);
  }

  method RenderLowerHex(value: seq<byte>) returns (output: Text)
    ensures output == LowerHex(value)
  {
    output := [];
    for i := 0 to |value|
      invariant output == LowerHex(value)[..2 * i]
    {
      output := output + [HexDigit(value[i] / 16)];
      output := output + [HexDigit(value[i] % 16)];
      assert LowerHex(value)[2 * i] == HexDigit(value[i] / 16);
      assert LowerHex(value)[2 * i + 1] == HexDigit(value[i] % 16);
    }
  }

  predicate IsSignatureText(text: Text) {
    |text| == 128 && AllHex(text)
  }

  // Exactly the renderings of 64 bytes are accepted, and what is returned renders to the input.
  method DecodeLowerSignature(value: Text) returns (signature: Option<seq<byte>>)
    ensures signature.Some? <==> IsSignatureText(value)
    ensures signature.Some? ==> |signature.value| == 64 && LowerHex(signature.value) == value
  {
    if |value| != 128 || exists i | 0 <= i < |value| :: !IsHex(value[i]) {
      return None;
    }
    var output := new byte[64](i => 0);
    for index := 0 to 64
      invariant forall k | 0 <= k < index :: output[k] == Unhex(value)[k]
    {
      output[index] := 16 * HexNibble(value[2 * index]) + HexNibble(value[2 * index + 1]);
    }
    assert output[..] == Unhex(value);
    UnhexRoundTrip(value);
    return Some(output[..]);
  }

  // --- Decimal rendering of the projection version ---

  function Decimal(n: nat): (text: Text)
    ensures NEWLINE !in text
  {
    if n < 10 then [ZERO_CHAR + n] else Decimal(n / 10) + [ZERO_CHAR + n % 10]
  }

  lemma {:induction false} DecimalInjective(m: nat, n: nat)
    requires Decimal(m) == Decimal(n)
    ensures m == n
  {
    var a, b := Decimal(m), Decimal(n);
    assert a[|a| - 1] == b[|b| - 1] && m % 10 == n % 10;
    DecimalLength(m);
    DecimalLength(n);
    if m >= 10 {
      assert Decimal(m / 10) == a[..|a| - 1] == b[..|b| - 1] == Decimal(n / 10);
      DecimalInjective(m / 10, n / 10);
    }
  }

  lemma DecimalLength(n: nat)
    ensures |Decimal(n)| >= 1 && (|Decimal(n)| == 1 <==> n < 10)
  {
  }

  // The number a text of decimal digits stands for.
  function ReadDecimal(text: Text): int {
    if text == [] then 0 else 10 * ReadDecimal(text[..|text| - 1]) + (text[|text| - 1] - ZERO_CHAR)
  }

  // The rendering is made of decimal digits, stands for the number, and has no leading zero.
  lemma {:induction false} DecimalReadsBack(n: nat)
    ensures ReadDecimal(Decimal(n)) == n
    ensures forall i | 0 <= i < |Decimal(n)| :: '0' <= Decimal(n)[i] as char <= '9'
    ensures n >= 1 ==> Decimal(n) != [] && Decimal(n)[0] as char != '0'
  {
    var text := Decimal(n);
    if n < 10 {
      assert text[..0] == [];
    } else {
      DecimalReadsBack(n / 10);
      assert text[..|text| - 1] == Decimal(n / 10);
    }
  }

  // --- The signed message ---

  const BEFORE_WALLET: Text := Ascii("Entros-Validate-v1\nwallet:")
  const BEFORE_NONCE: Text := Ascii("\nnonce:")
  const BEFORE_PROJECTION: Text := Ascii("\nprojection:")
  const BEFORE_DIGEST: Text := Ascii("\nrequest_sha256:")

  function AuthorizationMessage(wallet: Text, nonce: seq<byte>, projection: u16, digest: seq<byte>): Text {
    BEFORE_WALLET + (wallet + (BEFORE_NONCE + (LowerHex(nonce) + (BEFORE_PROJECTION
    + (Decimal(projection) + (BEFORE_DIGEST + LowerHex(digest)))))))
  }

  // The text is five lines: the domain, and the four parts behind their labels.
  lemma MessageLines(wallet: Text, nonce: seq<byte>, projection: u16, digest: seq<byte>)
    requires NEWLINE !in wallet
    ensures Splitting.Split(AuthorizationMessage(wallet, nonce, projection, digest), NEWLINE)
            == [Ascii("Entros-Validate-v1"), Ascii("wallet:") + wallet, Ascii("nonce:") + LowerHex(nonce),
                Ascii("projection:") + Decimal(projection), Ascii("request_sha256:") + LowerHex(digest)]
  {
    HexHasNoNewline(nonce);
    HexHasNoNewline(digest);
    Captions();
    hide Ascii, LowerHex, Decimal;
    FiveLines(Ascii("Entros-Validate-v1"), Ascii("wallet:"), wallet, Ascii("nonce:"), LowerHex(nonce),
              Ascii("projection:"), Decimal(projection), Ascii("request_sha256:"), LowerHex(digest));
  }

  lemma Captions()
    ensures BEFORE_WALLET == Ascii("Entros-Validate-v1") + [NEWLINE] + Ascii("wallet:")
    ensures BEFORE_NONCE == [NEWLINE] + Ascii("nonce:") && BEFORE_PROJECTION == [NEWLINE] + Ascii("projection:")
    ensures BEFORE_DIGEST == [NEWLINE] + Ascii("request_sha256:")
    ensures NEWLINE !in Ascii("Entros-Validate-v1") && NEWLINE !in Ascii("wallet:") && NEWLINE !in Ascii("nonce:")
    ensures NEWLINE !in Ascii("projection:") && NEWLINE !in Ascii("request_sha256:")
  {
  }

  lemma FiveLines(
      first: Text, c2: Text, v2: Text, c3: Text, v3: Text, c4: Text, v4: Text, c5: Text, v5: Text)
    requires NEWLINE !in first && NEWLINE !in c2 && NEWLINE !in v2 && NEWLINE !in c3 && NEWLINE !in v3
    requires NEWLINE !in c4 && NEWLINE !in v4 && NEWLINE !in c5 && NEWLINE !in v5
    ensures var nl := [NEWLINE];
            Splitting.Split(
              (first + nl + c2) + (v2 + ((nl + c3) + (v3 + ((nl + c4) + (v4 + ((nl + c5) + v5)))))), NEWLINE)
            == [first, c2 + v2, c3 + v3, c4 + v4, c5 + v5]
  {
    var nl, l5 := [NEWLINE], c5 + v5;
    var t4 := (c4 + v4) + nl + l5;
    var t3 := (c3 + v3) + nl + t4;
    var t2 := (c2 + v2) + nl + t3;
    Assoc(nl, c5, v5);
    Line(c4, v4, l5);
    Line(c3, v3, t4);
    Assoc(first + nl, c2, v2 + (nl + t3));
    Assoc(c2, v2, nl + t3);
    Assoc(c2 + v2, nl, t3);
    Splitting.SplitFirst(first, t2, NEWLINE);
    Splitting.SplitFirst(c2 + v2, t3, NEWLINE);
    Splitting.SplitFirst(c3 + v3, t4, NEWLINE);
    Splitting.SplitOfPair(c4 + v4, l5, NEWLINE);
  }

  // One line, behind the newline that opens it and before the one that follows.
  lemma Line(caption: Text, value: Text, rest: Text)
    ensures ([NEWLINE] + caption) + (value + ([NEWLINE] + rest)) == [NEWLINE] + ((caption + value) + [NEWLINE] + rest)
  {
    Assoc([NEWLINE], caption, value + ([NEWLINE] + rest));
    Assoc(caption, value, [NEWLINE] + rest);
    Assoc(caption + value, [NEWLINE], rest);
  }

  lemma HexHasNoNewline(value: seq<byte>)
    ensures NEWLINE !in LowerHex(value)
  {
    HexRoundTrip(value);
  }

  // A name without a newline, up to the newline that follows it.
  lemma SplitAtNewline(a: Text, s: Text, b: Text, t: Text)
    requires NEWLINE !in a && NEWLINE !in b && a + s == b + t
    requires s != [] && t != [] && s[0] == NEWLINE && t[0] == NEWLINE
    ensures a == b && s == t
  {
    assert (a + s)[|a|] == NEWLINE && (b + t)[|b|] == NEWLINE;
    assert |a| == |b|;
    SplitHeads(a, s, b, t);
  }

  // Two different claims are never signed as the same text.
  lemma MessageBindsEverything(
      w1: Text, n1: seq<byte>, p1: u16, d1: seq<byte>, w2: Text, n2: seq<byte>, p2: u16, d2: seq<byte>)
    requires NEWLINE !in w1 && NEWLINE !in w2 && |n1| == |n2| && |d1| == |d2|
    requires AuthorizationMessage(w1, n1, p1, d1) == AuthorizationMessage(w2, n2, p2, d2)
    ensures w1 == w2 && n1 == n2 && p1 == p2 && d1 == d2
  {
    hide LowerHex, Decimal;
    var e1, e2 := BEFORE_DIGEST + LowerHex(d1), BEFORE_DIGEST + LowerHex(d2);
    var c1, c2 := BEFORE_PROJECTION + (Decimal(p1) + e1), BEFORE_PROJECTION + (Decimal(p2) + e2);
    var b1, b2 := BEFORE_NONCE + (LowerHex(n1) + c1), BEFORE_NONCE + (LowerHex(n2) + c2);
    assert BEFORE_NONCE[0] == NEWLINE && BEFORE_DIGEST[0] == NEWLINE;
    assert b1[0] == NEWLINE && b2[0] == NEWLINE && e1[0] == NEWLINE && e2[0] == NEWLINE;
    SplitHeads(BEFORE_WALLET, w1 + b1, BEFORE_WALLET, w2 + b2);
    SplitAtNewline(w1, b1, w2, b2);
    SplitHeads(BEFORE_NONCE, LowerHex(n1) + c1, BEFORE_NONCE, LowerHex(n2) + c2);
    SplitHeads(LowerHex(n1), c1, LowerHex(n2), c2);
    SplitHeads(BEFORE_PROJECTION, Decimal(p1) + e1, BEFORE_PROJECTION, Decimal(p2) + e2);
    SplitAtNewline(Decimal(p1), e1, Decimal(p2), e2);
    SplitHeads(BEFORE_DIGEST, LowerHex(d1), BEFORE_DIGEST, LowerHex(d2));
    LowerHexInjective(n1, n2);
    LowerHexInjective(d1, d2);
    DecimalInjective(p1, p2);
  }

  // --- The decision ---

  type Pubkey = seq<byte>

  // What the service takes from its libraries: the base58 text of a key, SHA-256, and signature
  // verification of a text under a key.
  datatype Primitives = Primitives(
    render: Pubkey -> Text, hash: seq<byte> -> seq<byte>, verifies: (Pubkey, seq<byte>, Text) -> bool)

  datatype Authorization = Authorization(nonce: seq<byte>, signatureHex: Text)
  datatype SignedRequest = SignedRequest(walletId: Text, authorization: Option<Authorization>, fields: BoundFields)
  datatype AuthorizationError =
    | NotAllowedForProjection
    | AuthorizationMissing
    | NonceNot32Bytes
    | SignatureNotHex
    | FieldNotEncodable
    | Forbidden

  function SignedText(p: Primitives, wallet: Pubkey, nonce: seq<byte>, projection: u16, fields: BoundFields): Text {
    AuthorizationMessage(p.render(wallet), nonce, projection, p.hash(Preimage(fields)))
  }

  // The request names the key and carries its signature, over this request and nonce.
  ghost predicate Authorizes(p: Primitives, wallet: Pubkey, r: SignedRequest, nonce: seq<byte>) {
    && r.authorization.Some? && r.authorization.value.nonce == nonce && |nonce| == 32
    && Encodable(r.fields) && r.walletId == p.render(wallet)
    && exists signature ::
         && |signature| == 64 && r.authorization.value.signatureHex == LowerHex(signature)
         && p.verifies(wallet, signature, SignedText(p, wallet, nonce, 2, r.fields))
  }

  // A nonce is accepted exactly for an authorized projection-2 request; other projections pass
  // exactly when they bring no authorization; the errors come in the order of the checks.
  method VerifyWalletAuthorization(p: Primitives, r: SignedRequest, wallet: Pubkey, projection: u16)
    returns (result: Result<Option<seq<byte>>, AuthorizationError>)
    ensures result == Ok(None) <==> projection != 2 && r.authorization.None?
    ensures forall nonce :: result == Ok(Some(nonce)) <==> projection == 2 && Authorizes(p, wallet, r, nonce)
    ensures result == Err(NotAllowedForProjection) <==> projection != 2 && r.authorization.Some?
    ensures result == Err(AuthorizationMissing) <==> projection == 2 && r.authorization.None?
    ensures result == Err(NonceNot32Bytes) <==>
            projection == 2 && r.authorization.Some? && |r.authorization.value.nonce| != 32
    ensures result == Err(SignatureNotHex) <==>
            && projection == 2 && r.authorization.Some? && |r.authorization.value.nonce| == 32
            && !IsSignatureText(r.authorization.value.signatureHex)
    ensures result == Err(FieldNotEncodable) <==>
            && projection == 2 && r.authorization.Some? && |r.authorization.value.nonce| == 32
            && IsSignatureText(r.authorization.value.signatureHex) && !Encodable(r.fields)
  {
    if projection != 2 {
      return if r.authorization.None? then Ok(None) else Err(NotAllowedForProjection);
    }
    if r.authorization.None? {
      return Err(AuthorizationMissing);
    }
    var authorization := r.authorization.value;
    if |authorization.nonce| != 32 {
      return Err(NonceNot32Bytes);
    }
    var signature := DecodeLowerSignature(authorization.signatureHex);
    if signature.None? {
      forall s: seq<byte> | |s| == 64 ensures authorization.signatureHex != LowerHex(s) {
        HexRoundTrip(s);
      }
      return Err(SignatureNotHex);
    }
    var preimage := DigestEncoder.RequestPreimage(r.fields);
    if preimage.None? {
      return Err(FieldNotEncodable);
    }
    var digest := p.hash(preimage.value);
    var message := AuthorizationMessage(p.render(wallet), authorization.nonce, projection, digest);
    forall s: seq<byte> | authorization.signatureHex == LowerHex(s) ensures s == signature.value {
      LowerHexInjective(s, signature.value);
    }
    if r.walletId != p.render(wallet) || !p.verifies(wallet, signature.value, message) {
      return Err(Forbidden);
    }
    return Ok(Some(authorization.nonce));
  }

  // --- What a signature commits the wallet to ---

  // One thing the holder of a key agreed to sign.
  datatype Intent = Intent(wallet: Pubkey, nonce: seq<byte>, projection: u16, fields: BoundFields)

  ghost predicate RenderingIsFaithful(p: Primitives) {
    && (forall a, b | p.render(a) == p.render(b) :: a == b)
    && (forall a :: NEWLINE !in p.render(a))
    && (forall x :: |p.hash(x)| == 32)
  }

  // Every text that verifies under this key was made for one of the holder's intents.
  ghost predicate OnlySigned(p: Primitives, wallet: Pubkey, intents: set<Intent>) {
    && (forall i | i in intents :: |i.nonce| == 32 && Encodable(i.fields))
    && (forall signature, text | p.verifies(wallet, signature, text) ::
          exists i :: i in intents && text == SignedText(p, i.wallet, i.nonce, i.projection, i.fields))
  }

  // The hash has no collision between this request and the intents.
  ghost predicate NoCollision(p: Primitives, fields: BoundFields, intents: set<Intent>) {
    forall i | i in intents && p.hash(Preimage(i.fields)) == p.hash(Preimage(fields)) ::
      Preimage(i.fields) == Preimage(fields)
  }

  // An accepted request is one the wallet's holder signed: for this wallet, this nonce, projection
  // 2, and every bound field, up to the sign of zero.
  lemma AcceptedRequestWasIntended(
      p: Primitives, r: SignedRequest, wallet: Pubkey, nonce: seq<byte>, intents: set<Intent>) returns (i: Intent)
    requires RenderingIsFaithful(p) && OnlySigned(p, wallet, intents) && NoCollision(p, r.fields, intents)
    requires Authorizes(p, wallet, r, nonce)
    ensures i in intents && i.wallet == wallet && i.nonce == nonce && i.projection == 2
    ensures Canon(i.fields) == Canon(r.fields)
  {
    hide Encodable, Preimage, Canon, AuthorizationMessage, LowerHex;
    var signature :| p.verifies(wallet, signature, SignedText(p, wallet, nonce, 2, r.fields));
    i :| i in intents
      && SignedText(p, wallet, nonce, 2, r.fields) == SignedText(p, i.wallet, i.nonce, i.projection, i.fields);
    MessageBindsEverything(p.render(wallet), nonce, 2, p.hash(Preimage(r.fields)),
                           p.render(i.wallet), i.nonce, i.projection, p.hash(Preimage(i.fields)));
    PreimageIsUniquelyDecodable(i.fields, r.fields);
  }
}
