// Bytes and little-endian integers.
module Bytes {
  type byte = n: nat | n < 256
  type u16 = n: nat | n < 0x1_0000
  type u32 = n: nat | n < 0x1_0000_0000
  type u64 = n: nat | n < 0x1_0000_0000_0000_0000

  // The bytes of an ASCII literal.
  function Ascii(s: string): (bytes: seq<byte>)
    ensures |bytes| == |s|
  {
    seq(|s|, i requires 0 <= i < |s| => s[i] as nat % 256)
  }

  // Read as characters, they are the literal again.
  lemma AsciiReadsBack(s: string)
    requires forall i | 0 <= i < |s| :: s[i] as nat < 128
    ensures forall i | 0 <= i < |s| :: Ascii(s)[i] as char == s[i]
  {
    forall i | 0 <= i < |s| ensures Ascii(s)[i] as char == s[i] {
      assert Ascii(s)[i] == s[i] as nat;
    }
  }

  function Pow256(width: nat): nat {
    if width == 0 then 1 else 256 * Pow256(width - 1)
  }

  // to_le_bytes of a width-byte integer.
  function ToLe(v: nat, width: nat): (bytes: seq<byte>)
    ensures |bytes| == width
  {
    if width == 0 then [] else [v % 256] + ToLe(v / 256, width - 1)
  }

  function FromLe(bytes: seq<byte>): nat {
    if bytes == [] then 0 else bytes[0] + 256 * FromLe(bytes[1..])
  }

  lemma {:induction false} LeRoundTrip(v: nat, width: nat)
    requires v < Pow256(width)
    ensures FromLe(ToLe(v, width)) == v
  {
    if width > 0 {
      assert ToLe(v, width)[1..] == ToLe(v / 256, width - 1);
      LeRoundTrip(v / 256, width - 1);
    }
  }

  lemma {:induction false} LeBytesRoundTrip(bytes: seq<byte>)
    ensures FromLe(bytes) < Pow256(|bytes|)
    ensures ToLe(FromLe(bytes), |bytes|) == bytes
  {
    if bytes != [] {
      LeBytesRoundTrip(bytes[1..]);
      assert FromLe(bytes) / 256 == FromLe(bytes[1..]);
    }
  }

  // The first byte is the least significant: what follows counts 256 times as much a byte.
  lemma {:induction false} FromLeConcat(a: seq<byte>, b: seq<byte>)
    ensures FromLe(a + b) == FromLe(a) + Pow256(|a|) * FromLe(b)
  {
    if a == [] {
      assert a + b == b;
    } else {
      assert (a + b)[1..] == a[1..] + b;
      FromLeConcat(a[1..], b);
      assert 256 * (Pow256(|a| - 1) * FromLe(b)) == Pow256(|a|) * FromLe(b);
    }
  }

  lemma FromLeByte(b: byte)
    ensures FromLe([b]) == b
  {
    assert [b][1..] == [];
  }

  // A wider integer only has more zeros at its end.
  lemma {:induction false} ToLePadded(v: nat, width: nat)
    requires v < Pow256(width)
    ensures ToLe(v, width + 1) == ToLe(v, width) + [0]
  {
    if width > 0 {
      ToLePadded(v / 256, width - 1);
    }
  }

  // Two equal concatenations of equally long heads split into equal parts.
  lemma SplitHeads(a: seq<byte>, s: seq<byte>, b: seq<byte>, t: seq<byte>)
    requires |a| == |b| && a + s == b + t
    ensures a == b && s == t
  {
    assert a == (a + s)[..|a|] == (b + t)[..|b|] == b;
    assert s == (a + s)[|a|..] == (b + t)[|b|..] == t;
  }

  // Fixed-width integers at the front of equal byte strings are equal.
  lemma SplitLe(v: nat, s: seq<byte>, w: nat, t: seq<byte>, width: nat)
    requires v < Pow256(width) && w < Pow256(width)
    requires ToLe(v, width) + s == ToLe(w, width) + t
    ensures v == w && s == t
  {
    SplitHeads(ToLe(v, width), s, ToLe(w, width), t);
    LeRoundTrip(v, width);
    LeRoundTrip(w, width);
  }

  // The 32-bit integer at this offset.
  function WordAt(data: seq<byte>, offset: nat): (w: nat)
    requires offset + 4 <= |data|
    ensures w < Pow256(4)
  {
    LeBytesRoundTrip(data[offset..offset + 4]);
    FromLe(data[offset..offset + 4])
  }

  lemma JoinTake(data: seq<byte>, i: nat, j: nat)
    requires i <= j <= |data|
    ensures data[..i] + data[i..j] == data[..j]
  {
  }
}
