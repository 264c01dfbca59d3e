/**
 * SHA-256 message padding over a bit sequence (section 4.1 of RFC 4634,
 * section 5.1.1 of FIPS 180-4): one 1 bit, K zero bits, then the message
 * length as a 64-bit big-endian integer.
 */
module Sha256Padding {
  import opened BitCodec

  /** K: the number of zero bits after the single 1 bit, for a message of l bits. */
  function PadZeroCount(l: nat): (k: nat)
    ensures k < 512 && (l + 1 + k) % 512 == 448
  {
    (512 + 448 - (l % 512 + 1)) % 512
  }

  /** The padded message. */
  function Padded(bits: seq<nat>): seq<nat>
  {
    bits + [1] + Zeros(PadZeroCount(|bits|)) + UintBits(|bits|, 64)
  }

  /**
   * The layout of the padded message: the input is a prefix, then one 1 bit,
   * K zero bits and the 64-bit length field; the length is a multiple of 512,
   * the growth is between 65 and 576 bits, and the result is still 0/1 when
   * the input is.
   */
  lemma PaddedShape(bits: seq<nat>)
    ensures var p, k := Padded(bits), PadZeroCount(|bits|);
      && |p| == |bits| + 1 + k + 64
      && |p| % 512 == 0
      && 65 <= |p| - |bits| <= 576
      && p[..|bits|] == bits
      && p[|bits|] == 1
      && (forall j :: |bits| < j <= |bits| + k ==> p[j] == 0)
      && p[|bits| + 1 + k..] == UintBits(|bits|, 64)
      && (IsBits(bits) ==> IsBits(p))
  {
    UintBitsShape(|bits|, 64);
    PadLengthArith(|bits| + 1 + PadZeroCount(|bits|));
  }

  /** A length 448 past a multiple of 512 reaches the next multiple with the 64-bit length field. */
  lemma PadLengthArith(n: nat)
    requires n % 512 == 448
    ensures (n + 64) % 512 == 0
  {
    DivModUnique(n + 64, 512, n / 512 + 1, 0);
  }

  /** The length and 0/1-ness of the padded message, without its contents. */
  lemma PaddedLength(bits: seq<nat>)
    ensures |Padded(bits)| % 512 == 0
    ensures |bits| + 65 <= |Padded(bits)| <= |bits| + 576
    ensures IsBits(bits) ==> IsBits(Padded(bits))
  {
    PaddedShape(bits);
  }

  /** The message is a prefix of the padded message. */
  lemma PaddedPrefix(bits: seq<nat>)
    ensures |bits| < |Padded(bits)| && Padded(bits)[..|bits|] == bits
  {
  }

  /** The last 64 bits of the padded message encode the message length. */
  lemma PaddedLengthField(bits: seq<nat>)
    requires |bits| < Pow2(64)
    ensures var p := Padded(bits);
      |p| >= 64 && Value(p[|p| - 64..]) == |bits|
  {
    PaddedShape(bits);
    var p := Padded(bits);
    assert p[|p| - 64..] == UintBits(|bits|, 64);
    ValueOfUintBits(|bits|, 64);
    DivModUnique(|bits|, Pow2(64), 0, |bits|);
  }

  /** padMessage. */
  method PadMessage(bits: seq<nat>) returns (padded: seq<nat>)
    ensures padded == Padded(bits)
  {
    var l := |bits|;
    var k := (512 + 448 - (l % 512 + 1)) % 512;
    padded := bits + [1];
    for i := 0 to k
      invariant padded == bits + [1] + Zeros(i)
    {
      padded := padded + [0];
    }
    // binary.BigEndian.PutUint64 followed by toBits: the 64-bit big-endian form of l
    padded := padded + UintBits(l, 64);
  }
}
