// The signer list of a raw SAS Credential account, as the service reads it
// (src/attestation/sas.rs:251-298) and as the rotation script mirrors it
// (scripts/rotate-sas-authority.ts:82-118).
module SasCredential {
  import opened Results
  import opened Bytes

  const USIZE_LIMIT: nat := 0x1_0000_0000_0000_0000
  const DISCRIMINATOR: byte := 0
  const KEY_BYTES: nat := 32

  datatype ParseError =
    | NotACredential
    | Truncated
    | NameOverruns
    | TooManySigners

  // --- The layout, as an account that somebody wrote ---

  datatype Credential = Credential(authority: seq<byte>, name: seq<byte>, signers: seq<seq<byte>>)

  predicate WellFormed(c: Credential) {
    && |c.authority| == KEY_BYTES && |c.name| < Pow256(4) && |c.signers| < Pow256(4)
    && forall i | 0 <= i < |c.signers| :: |c.signers[i]| == KEY_BYTES
  }

  function Concat(keys: seq<seq<byte>>): seq<byte> {
    if keys == [] then [] else Concat(keys[..|keys| - 1]) + keys[|keys| - 1]
  }

  function Prefix(c: Credential): seq<byte> {
    [DISCRIMINATOR] + c.authority + ToLe(|c.name|, 4) + c.name + ToLe(|c.signers|, 4)
  }

  // The account data, up to bytes that may follow the list.
  function Layout(c: Credential): seq<byte> {
    Prefix(c) + Concat(c.signers)
  }

  ghost predicate IsAccount(data: seq<byte>, c: Credential) {
    WellFormed(c) && Layout(c) <= data
  }

  // --- Reading ---

  // read_u32_le, with its overflow check.
  function ReadU32(data: seq<byte>, offset: nat): Option<nat> {
    if offset + 4 >= USIZE_LIMIT || offset + 4 > |data| then None else Some(WordAt(data, offset))
  }

  function KeysAt(data: seq<byte>, offset: nat, count: nat): (keys: seq<seq<byte>>)
    requires offset + KEY_BYTES * count <= |data|
    ensures |keys| == count && forall i | 0 <= i < count :: |keys[i]| == KEY_BYTES
  {
    seq(count, i requires 0 <= i < count => data[offset + KEY_BYTES * i..offset + KEY_BYTES * i + KEY_BYTES])
  }

  // Whether the account decodes, field by field.
  predicate Decodes(data: seq<byte>) {
    && 37 <= |data| && data[0] == DISCRIMINATOR
    && var nameEnd := 37 + WordAt(data, 33);
    nameEnd + 4 <= |data| && nameEnd + 4 + KEY_BYTES * WordAt(data, nameEnd) <= |data|
  }

  // The list's length prefix is there, but not the keys it announces.
  predicate Overcounts(data: seq<byte>) {
    && 37 <= |data| && data[0] == DISCRIMINATOR
    && var nameEnd := 37 + WordAt(data, 33);
    nameEnd + 4 <= |data| < nameEnd + 4 + KEY_BYTES * WordAt(data, nameEnd)
  }

  function Decoded(data: seq<byte>): Credential
    requires Decodes(data)
  {
    var nameEnd := 37 + WordAt(data, 33);
    Credential(data[1..33], data[37..nameEnd], KeysAt(data, nameEnd + 4, WordAt(data, nameEnd)))
  }

  function Saturating(n: nat): nat {
    if n < USIZE_LIMIT then n else USIZE_LIMIT - 1
  }

  // The service's parser. A slice is never longer than half the address space.
  method ParseCredentialAuthorizedSigners(data: seq<byte>) returns (r: Result<seq<seq<byte>>, ParseError>)
    requires |data| < USIZE_LIMIT / 2
    ensures r.Ok? <==> Decodes(data)
    ensures r.Ok? ==> r.value == Decoded(data).signers
    ensures r == Err(NotACredential) <==> data == [] || data[0] != DISCRIMINATOR
    ensures r == Err(TooManySigners) <==> Overcounts(data)
  {
    if |data| == 0 || data[0] != DISCRIMINATOR {
      return Err(NotACredential);
    }
    var offset := 1 + 32;
    var nameLength := ReadU32(data, offset);
    if nameLength.None? {
      return Err(Truncated);
    }
    if offset + (4 + nameLength.value) >= USIZE_LIMIT {
      return Err(NameOverruns);
    }
    offset := offset + 4 + nameLength.value;
    var count := ReadU32(data, offset);
    if count.None? {
      return Err(Truncated);
    }
    offset := offset + 4;
    var available := |data| - offset;
    if Saturating(count.value * 32) > available {
      return Err(TooManySigners);
    }
    ghost var start := offset;
    var signers := [];
    for i := 0 to count.value
      invariant offset == start + KEY_BYTES * i
      invariant signers == KeysAt(data, start, count.value)[..i]
    {
      signers := signers + [data[offset..offset + 32]];
      offset := offset + 32;
    }
    return Ok(signers);
  }

  // What the script shows of a credential: addresses in base58, and the name as text, with
  // whatever replacement the decoder makes for bytes that are not UTF-8.
  datatype Shown = Shown(authority: string, name: string, authorizedSigners: seq<string>)
  datatype Rendering = Rendering(address: seq<byte> -> string, text: seq<byte> -> string)

  function Show(to: Rendering, c: Credential): Shown {
    Shown(to.address(c.authority), to.text(c.name), Addresses(to, c.signers))
  }

  function Addresses(to: Rendering, keys: seq<seq<byte>>): (addresses: seq<string>)
    ensures |addresses| == |keys|
  {
    seq(|keys|, i requires 0 <= i < |keys| => to.address(keys[i]))
  }

  // The script's decoder. DataView.getUint32 throws past the end; a JavaScript number holds every
  // sum here exactly.
  method DecodeCredential(to: Rendering, data: seq<byte>) returns (r: Result<Shown, ParseError>)
    ensures r.Ok? <==> Decodes(data)
    ensures r.Ok? ==> r.value == Show(to, Decoded(data))
    ensures r == Err(NotACredential) <==> data == [] || data[0] != DISCRIMINATOR
    ensures r == Err(TooManySigners) <==> Overcounts(data)
  {
    if |data| < 1 || data[0] != DISCRIMINATOR {
      return Err(NotACredential);
    }
    var offset := 1;
    if offset + 32 + 4 > |data| {
      return Err(Truncated);
    }
    var authority := to.address(data[offset..offset + 32]);
    offset := offset + 32;
    var nameLength := WordAt(data, offset);
    offset := offset + 4;
    if offset + nameLength > |data| {
      return Err(NameOverruns);
    }
    var name := to.text(data[offset..offset + nameLength]);
    offset := offset + nameLength;
    if offset + 4 > |data| {
      return Err(Truncated);
    }
    var count := WordAt(data, offset);
    offset := offset + 4;
    if offset + count * 32 > |data| {
      return Err(TooManySigners);
    }
    ghost var start := offset;
    var signers := [];
    for i := 0 to count
      invariant offset == start + KEY_BYTES * i
      invariant signers == Addresses(to, KeysAt(data, start, count))[..i]
    {
      signers := signers + [to.address(data[offset..offset + 32])];
      offset := offset + 32;
    }
    return Ok(Shown(authority, name, signers));
  }

  // --- Meaning ---

  lemma {:induction false} ConcatLength(keys: seq<seq<byte>>)
    requires forall i | 0 <= i < |keys| :: |keys[i]| == KEY_BYTES
    ensures |Concat(keys)| == KEY_BYTES * |keys|
  {
    if keys != [] {
      ConcatLength(keys[..|keys| - 1]);
    }
  }

  // Cutting the concatenation at multiples of 32 gives the keys back.
  lemma {:induction false} ConcatCuts(keys: seq<seq<byte>>, k: nat)
    requires forall i | 0 <= i < |keys| :: |keys[i]| == KEY_BYTES
    requires k < |keys|
    ensures |Concat(keys)| == KEY_BYTES * |keys|
    ensures Concat(keys)[KEY_BYTES * k..KEY_BYTES * k + KEY_BYTES] == keys[k]
  {
    var init := keys[..|keys| - 1];
    ConcatLength(keys);
    ConcatLength(init);
    if k < |init| {
      ConcatCuts(init, k);
      assert Concat(keys)[KEY_BYTES * k..KEY_BYTES * k + KEY_BYTES]
          == Concat(init)[KEY_BYTES * k..KEY_BYTES * k + KEY_BYTES];
    }
  }

  lemma {:induction false} KeysConcat(data: seq<byte>, offset: nat, count: nat)
    requires offset + KEY_BYTES * count <= |data|
    ensures Concat(KeysAt(data, offset, count)) == data[offset..offset + KEY_BYTES * count]
  {
    if count > 0 {
      var m := count - 1;
      KeysConcat(data, offset, m);
      assert KeysAt(data, offset, count)[..m] == KeysAt(data, offset, m);
      assert data[offset..offset + KEY_BYTES * count]
          == data[offset..offset + KEY_BYTES * m] + data[offset + KEY_BYTES * m..offset + KEY_BYTES * count];
    }
  }

  // What is decoded is laid out at the front of the account.
  lemma DecodedIsLaidOut(data: seq<byte>)
    requires Decodes(data)
    ensures IsAccount(data, Decoded(data))
  {
    var c := Decoded(data);
    var listStart := 37 + |c.name| + 4;
    DecodedFields(data);
    KeysConcat(data, listStart, |c.signers|);
    hide ToLe, Concat, KeysAt, Decoded, Decodes, Prefix, WellFormed;
    var end := listStart + KEY_BYTES * |c.signers|;
    assert Prefix(c) == data[..listStart] && Concat(c.signers) == data[listStart..end];
    assert data[..end] == data[..listStart] + data[listStart..end];
  }

  lemma DecodedFields(data: seq<byte>)
    requires Decodes(data)
    ensures var c := Decoded(data); var listStart := 37 + |c.name| + 4;
            && WellFormed(c) && listStart + KEY_BYTES * |c.signers| <= |data| && Prefix(c) == data[..listStart]
            && c.signers == KeysAt(data, listStart, |c.signers|)
  {
    var c := Decoded(data);
    var nameEnd := 37 + |c.name|;
    LeBytesRoundTrip(data[33..37]);
    LeBytesRoundTrip(data[nameEnd..nameEnd + 4]);
    assert ToLe(|c.name|, 4) == data[33..37] && ToLe(|c.signers|, 4) == data[nameEnd..nameEnd + 4];
    hide ToLe, FromLe, Pow256, KeysAt;
    JoinTake(data, 1, 33);
    JoinTake(data, 33, 37);
    JoinTake(data, 37, nameEnd);
    JoinTake(data, nameEnd, nameEnd + 4);
    assert [DISCRIMINATOR] == data[..1];
  }

  lemma PrefixSlice(whole: seq<byte>, part: seq<byte>, lo: nat, hi: nat)
    requires part <= whole && lo <= hi <= |part|
    ensures whole[lo..hi] == part[lo..hi]
  {
    assert whole[..|part|] == part;
    assert whole[lo..hi] == whole[..|part|][lo..hi];
  }

  lemma SliceAfter(data: seq<byte>, head: seq<byte>, tail: seq<byte>, lo: nat, hi: nat)
    requires head + tail <= data && lo <= hi <= |tail|
    ensures |head| + hi <= |data| && data[|head| + lo..|head| + hi] == tail[lo..hi]
  {
    PrefixSlice(data, head + tail, |head| + lo, |head| + hi);
    SliceOfConcat(head, tail, lo, hi);
  }

  lemma SliceOfConcat(head: seq<byte>, tail: seq<byte>, lo: nat, hi: nat)
    requires lo <= hi <= |tail|
    ensures (head + tail)[|head| + lo..|head| + hi] == tail[lo..hi]
  {
    forall i | 0 <= i < hi - lo
      ensures (head + tail)[|head| + lo..|head| + hi][i] == tail[lo..hi][i]
    {
    }
  }

  // Anything laid out at the front of the account is what is decoded.
  lemma LaidOutIsDecoded(data: seq<byte>, c: Credential)
    requires IsAccount(data, c)
    ensures Decodes(data) && Decoded(data) == c
  {
    LaidOutFits(data, c);
    HeadIsDecoded(data, c);
    SignersAreDecoded(data, c);
    hide KeysAt, WordAt, IsAccount, FromLe, ToLe;
  }

  lemma LaidOutFits(data: seq<byte>, c: Credential)
    requires IsAccount(data, c)
    ensures 37 + |c.name| + 4 + KEY_BYTES * |c.signers| <= |data|
  {
    ConcatLength(c.signers);
    PrefixFields(c);
    hide ToLe, Concat, Prefix;
  }

  lemma SignersAreDecoded(data: seq<byte>, c: Credential)
    requires IsAccount(data, c) && 37 + |c.name| + 4 + KEY_BYTES * |c.signers| <= |data|
    ensures KeysAt(data, 37 + |c.name| + 4, |c.signers|) == c.signers
  {
    forall i | 0 <= i < |c.signers|
      ensures KeysAt(data, 37 + |c.name| + 4, |c.signers|)[i] == c.signers[i]
    {
      SignerIsDecoded(data, c, i);
      hide IsAccount;
    }
    hide IsAccount;
  }

  lemma HeadIsDecoded(data: seq<byte>, c: Credential)
    requires IsAccount(data, c)
    ensures var nameEnd := 37 + |c.name|;
            && nameEnd + 4 <= |data| && data[0] == DISCRIMINATOR && data[1..33] == c.authority
            && WordAt(data, 33) == |c.name| && data[37..nameEnd] == c.name && WordAt(data, nameEnd) == |c.signers|
  {
    var nameEnd := 37 + |c.name|;
    PrefixFields(c);
    LeRoundTrip(|c.name|, 4);
    LeRoundTrip(|c.signers|, 4);
    hide ToLe, FromLe, Pow256, Concat, Prefix;
    assert Prefix(c) <= data;
    PrefixSlice(data, Prefix(c), 1, 33);
    PrefixSlice(data, Prefix(c), 33, 37);
    PrefixSlice(data, Prefix(c), 37, nameEnd);
    PrefixSlice(data, Prefix(c), nameEnd, nameEnd + 4);
  }

  lemma SignerIsDecoded(data: seq<byte>, c: Credential, i: nat)
    requires IsAccount(data, c) && i < |c.signers|
    ensures var at := 37 + |c.name| + 4 + KEY_BYTES * i;
            at + KEY_BYTES <= |data| && data[at..at + KEY_BYTES] == c.signers[i]
  {
    PrefixFields(c);
    ConcatCuts(c.signers, i);
    assert Prefix(c) + Concat(c.signers) <= data;
    hide ToLe, Concat, Prefix, WellFormed, Pow256, IsAccount, Layout;
    SliceAfter(data, Prefix(c), Concat(c.signers), KEY_BYTES * i, KEY_BYTES * i + KEY_BYTES);
  }

  lemma PrefixFields(c: Credential)
    requires |c.authority| == KEY_BYTES
    ensures var nameEnd := 37 + |c.name|;
            && |Prefix(c)| == nameEnd + 4 && Prefix(c)[0] == DISCRIMINATOR && Prefix(c)[1..33] == c.authority
            && Prefix(c)[33..37] == ToLe(|c.name|, 4) && Prefix(c)[37..nameEnd] == c.name
            && Prefix(c)[nameEnd..nameEnd + 4] == ToLe(|c.signers|, 4)
  {
  }

  // The accounts that decode are exactly those that begin with the layout of a credential, and no
  // account begins with two.
  lemma DecodesExactlyTheLayouts(data: seq<byte>)
    ensures Decodes(data) <==> exists c :: IsAccount(data, c)
    ensures forall c, d | IsAccount(data, c) && IsAccount(data, d) :: c == d
  {
    if Decodes(data) {
      DecodedIsLaidOut(data);
    }
    forall c | IsAccount(data, c) ensures Decodes(data) && Decoded(data) == c {
      LaidOutIsDecoded(data, c);
    }
  }

  // Both parsers accept the same accounts, those somebody wrote, and report the same signers: what
  // was written, which the service keeps and the script shows.
  method CrossCheck(to: Rendering, data: seq<byte>)
    returns (rust: Result<seq<seq<byte>>, ParseError>, script: Result<Shown, ParseError>)
    requires |data| < USIZE_LIMIT / 2
    ensures rust.Ok? <==> script.Ok?
    ensures rust.Ok? <==> exists c :: IsAccount(data, c)
    ensures rust.Ok? ==> script.value.authorizedSigners == Addresses(to, rust.value)
    ensures forall c | IsAccount(data, c) :: rust == Ok(c.signers) && script == Ok(Show(to, c))
    ensures rust == Err(NotACredential) <==> script == Err(NotACredential)
    ensures rust == Err(TooManySigners) <==> script == Err(TooManySigners)
  {
    rust := ParseCredentialAuthorizedSigners(data);
    script := DecodeCredential(to, data);
    DecodesExactlyTheLayouts(data);
    if Decodes(data) {
      DecodedIsLaidOut(data);
    }
  }

  // An account byte by byte: a one-letter name and one signer, and whatever follows.
  lemma OneSignerAccount(authority: seq<byte>, letter: byte, key: seq<byte>, rest: seq<byte>)
    requires |authority| == |key| == 32
    ensures var data := [0] + authority + [1, 0, 0, 0] + [letter] + [1, 0, 0, 0] + key + rest;
            Decodes(data) && Decoded(data) == Credential(authority, [letter], [key])
  {
    var c := Credential(authority, [letter], [key]);
    var data := [0] + authority + [1, 0, 0, 0] + [letter] + [1, 0, 0, 0] + key + rest;
    assert ToLe(1, 4) == [1, 0, 0, 0] && Pow256(4) == 0x1_0000_0000;
    assert [key][..0] == [] && [] + key == key;
    assert Concat([]) == [] && Concat([key]) == key;
    hide ToLe, Pow256, Concat;
    assert Layout(c) == [0] + authority + [1, 0, 0, 0] + [letter] + [1, 0, 0, 0] + key;
    assert data == Layout(c) + rest;
    hide Layout;
    LaidOutIsDecoded(data, c);
  }
}
