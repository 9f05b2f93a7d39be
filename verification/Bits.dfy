/**
  Bit strings, most significant bit first: the common ground of the base-32 and base-64 groupings of
  RFC 4648 (sections 4 and 6).
 */
module Bits {
  type BitString = seq<bool>

  function Zeros(n: nat): BitString {
    seq(n, _ => false)
  }

  /** Whether d reaches the weight, and what is left of it. */
  function Split(d: nat, weight: nat): (bool, nat) {
    if d >= weight then (true, d - weight) else (false, d)
  }

  function ByteBits(b: bv8): (r: BitString)
    ensures |r| == 8
  {
    [b & 128 != 0, b & 64 != 0, b & 32 != 0, b & 16 != 0, b & 8 != 0, b & 4 != 0, b & 2 != 0, b & 1 != 0]
  }

  function Bit(b: bool, weight: bv8): bv8 {
    if b then weight else 0
  }

  function ByteOf(r: BitString): bv8
    requires |r| == 8
  {
    Bit(r[0], 128) | Bit(r[1], 64) | Bit(r[2], 32) | Bit(r[3], 16)
    | Bit(r[4], 8) | Bit(r[5], 4) | Bit(r[6], 2) | Bit(r[7], 1)
  }

  lemma ByteRoundTrip(b: bv8)
    ensures ByteOf(ByteBits(b)) == b
  {
  }

  function BytesBits(bytes: seq<bv8>): (r: BitString)
    ensures |r| == 8 * |bytes|
  {
    if bytes == [] then [] else ByteBits(bytes[0]) + BytesBits(bytes[1..])
  }

  /** The whole bytes of a bit string; up to seven bits at the end are dropped. */
  function BitsToBytes(r: BitString): (bytes: seq<bv8>)
    ensures |bytes| == |r| / 8
    decreases |r|
  {
    if |r| < 8 then [] else [ByteOf(r[..8])] + BitsToBytes(r[8..])
  }

  lemma {:induction false} BytesBitsAppend(a: seq<bv8>, b: seq<bv8>)
    ensures BytesBits(a + b) == BytesBits(a) + BytesBits(b)
    decreases |a|
  {
    if a == [] {
      assert a + b == b;
    } else {
      assert (a + b)[0] == a[0] && (a + b)[1..] == a[1..] + b;
      BytesBitsAppend(a[1..], b);
      assert ByteBits(a[0]) + (BytesBits(a[1..]) + BytesBits(b)) == ByteBits(a[0]) + BytesBits(a[1..]) + BytesBits(b);
    }
  }

  /** Bytes come back from their bits, whatever short tail follows them. */
  lemma {:induction false} BytesRoundTrip(bytes: seq<bv8>, tail: BitString)
    requires |tail| < 8
    ensures BitsToBytes(BytesBits(bytes) + tail) == bytes
    decreases |bytes|
  {
    hide ByteOf, ByteBits;
    var r := BytesBits(bytes) + tail;
    if bytes != [] {
      assert r[..8] == ByteBits(bytes[0]);
      assert r[8..] == BytesBits(bytes[1..]) + tail;
      ByteRoundTrip(bytes[0]);
      BytesRoundTrip(bytes[1..], tail);
    }
  }

  /** A prefix of the bits gives a prefix of the bytes. */
  lemma {:induction false} PrefixBytes(a: BitString, b: BitString)
    ensures BitsToBytes(a) <= BitsToBytes(a + b)
    decreases |a|
  {
    hide ByteOf;
    if |a| >= 8 {
      assert (a + b)[..8] == a[..8] && (a + b)[8..] == a[8..] + b;
      PrefixBytes(a[8..], b);
    }
  }
}
