/**
 * Conversion between bytes and single-bit sequences (toBits), and the
 * folding of a bit window back into an unsigned integer (fromBits).
 */
module BitCodec {

  /** A Go `byte`. */
  type byte = b: int | 0 <= b < 256

  function Max(a: nat, b: nat): nat
  {
    if a >= b then a else b
  }

  function Pow2(n: nat): (r: nat)
    ensures r >= 1
  {
    if n == 0 then 1 else 2 * Pow2(n - 1)
  }

  /** Every element of s is a single bit. */
  predicate IsBits(s: seq<nat>)
  {
    forall k :: 0 <= k < |s| ==> s[k] <= 1
  }

  /** n zero bits. */
  function Zeros(n: nat): seq<nat>
  {
    seq(n, _ => 0)
  }

  /** Bit k of v, where k = 0 is the lowest-order bit. */
  function BitOf(v: nat, k: nat): nat
  {
    v / Pow2(k) % 2
  }

  /** The low w bits of v, most significant first (its w-bit big-endian form). */
  function UintBits(v: nat, w: nat): seq<nat>
  {
    if w == 0 then [] else UintBits(v / 2, w - 1) + [v % 2]
  }

  /** The bits of a byte string: eight per byte, most significant first. */
  function BytesToBits(bytes: seq<byte>): seq<nat>
  {
    if |bytes| == 0 then []
    else BytesToBits(bytes[..|bytes| - 1]) + UintBits(bytes[|bytes| - 1], 8)
  }

  /** The unsigned integer whose binary digits, most significant first, are `bits`. */
  function Value(bits: seq<nat>): nat
  {
    if |bits| == 0 then 0 else 2 * Value(bits[..|bits| - 1]) + bits[|bits| - 1]
  }

  // ---------------------------------------------------------------------------
  // Arithmetic helpers

  lemma {:induction false} MulAtLeast(d: nat, k: nat)
    requires k >= 1
    ensures d * k >= d
  {
    if k > 1 {
      MulAtLeast(d, k - 1);
      assert d * k == d * (k - 1) + d;
    }
  }

  lemma MulSign(d: int, k: int)
    requires d > 0
    ensures k >= 1 ==> d * k >= d
    ensures k <= -1 ==> d * k <= -d
  {
    if k >= 1 {
      MulAtLeast(d, k);
    } else if k <= -1 {
      MulAtLeast(d, -k);
      assert d * k == -(d * -k);
    }
  }

  lemma DivModUnique(a: int, d: int, q: int, r: int)
    requires d > 0 && 0 <= r < d && a == d * q + r
    ensures a / d == q && a % d == r
  {
    var q', r' := a / d, a % d;
    assert d * (q' - q) == r - r';
    MulSign(d, q' - q);
  }

  /** Halving, then dividing by p, is dividing by 2p; and the matching remainders. */
  lemma DivTwice(v: nat, p: nat)
    requires p > 0
    ensures v / 2 / p == v / (2 * p)
    ensures v / 2 % p * 2 + v % 2 == v % (2 * p)
  {
    var q, r := v / 2 / p, v / 2 % p;
    assert v / 2 == p * q + r;
    assert v == (2 * p) * q + (2 * r + v % 2);
    DivModUnique(v, 2 * p, q, 2 * r + v % 2);
  }

  lemma Pow2Add(a: nat, b: nat)
    ensures Pow2(a + b) == Pow2(a) * Pow2(b)
  {
    if a > 0 {
      Pow2Add(a - 1, b);
    }
  }

  lemma Pow2Monotone(a: nat, b: nat)
    requires a <= b
    ensures Pow2(a) <= Pow2(b)
  {
    if a < b {
      Pow2Monotone(a, b - 1);
    }
  }

  lemma MulRotate(b: int, m: int, p: int)
    ensures b * (m * p) == (b * p) * m
  {
  }

  /** A number below m is its own remainder modulo m. */
  lemma ModBelow(v: nat, m: nat)
    requires v < m
    ensures v % m == v
  {
    DivModUnique(v, m, 0, v);
  }

  /** Adding a multiple of m does not change a remainder modulo m. */
  lemma ModAddMultiple(c: nat, m: nat, v: nat)
    requires m > 0
    ensures (c * m + v) % m == v % m
  {
    DivModUnique(c * m + v, m, c + v / m, v % m);
  }

  // ---------------------------------------------------------------------------
  // Properties of the bit encodings

  lemma {:induction false} UintBitsShape(v: nat, w: nat)
    ensures |UintBits(v, w)| == w && IsBits(UintBits(v, w))
  {
    if w > 0 {
      UintBitsShape(v / 2, w - 1);
    }
  }

  /** Element k of the w-bit big-endian form of v is bit w-1-k of v. */
  lemma {:induction false} UintBitsAt(v: nat, w: nat, k: nat)
    requires k < w
    ensures |UintBits(v, w)| == w && UintBits(v, w)[k] == BitOf(v, w - 1 - k)
  {
    UintBitsShape(v, w);
    if k < w - 1 {
      UintBitsAt(v / 2, w - 1, k);
      DivTwice(v, Pow2(w - 2 - k));
    }
  }

  /** Reading the w-bit big-endian form of v back gives v modulo 2^w. */
  lemma {:induction false} ValueOfUintBits(v: nat, w: nat)
    ensures Value(UintBits(v, w)) == v % Pow2(w)
  {
    if w > 0 {
      ValueOfUintBits(v / 2, w - 1);
      UintBitsShape(v / 2, w - 1);
      var s := UintBits(v, w);
      assert s[..|s| - 1] == UintBits(v / 2, w - 1);
      DivTwice(v, Pow2(w - 1));
    }
  }

  /** A bit sequence of length n denotes a number below 2^n. */
  lemma {:induction false} ValueBound(bits: seq<nat>)
    requires IsBits(bits)
    ensures Value(bits) < Pow2(|bits|)
  {
    if |bits| > 0 {
      ValueBound(bits[..|bits| - 1]);
    }
  }

  /** The value of a bit sequence splits at any position k. */
  lemma {:induction false} ValueSplit(s: seq<nat>, k: nat)
    requires k <= |s|
    ensures Value(s) == Value(s[..k]) * Pow2(|s| - k) + Value(s[k..])
  {
    if k == |s| {
      assert s[..k] == s;
      assert s[k..] == [];
    } else {
      var init := s[..|s| - 1];
      ValueSplit(init, k);
      assert init[..k] == s[..k];
      assert init[k..] == s[k..][..|s[k..]| - 1];
      assert Value(s[k..]) == 2 * Value(init[k..]) + s[|s| - 1];
      assert Pow2(|s| - k) == 2 * Pow2(|init| - k);
      DoubleSplit(Value(s[..k]), Pow2(|init| - k), Value(init[k..]), s[|s| - 1]);
    }
  }

  /** Doubling a split value and appending a bit. */
  lemma DoubleSplit(a: int, p: int, b: int, c: int)
    ensures 2 * (a * p + b) + c == a * (2 * p) + (2 * b + c)
  {
  }

  /**
   * The byte expansion emits 8 bits per byte, each 0 or 1, and element k
   * is bit 7 - k % 8 of byte k / 8 (most significant bit first).
   */
  lemma {:induction false} BytesToBitsShape(bytes: seq<byte>)
    ensures |BytesToBits(bytes)| == 8 * |bytes|
    ensures IsBits(BytesToBits(bytes))
    ensures forall k :: 0 <= k < 8 * |bytes| ==> BytesToBits(bytes)[k] == BitOf(bytes[k / 8], 7 - k % 8)
  {
    if |bytes| > 0 {
      var init := bytes[..|bytes| - 1];
      var last := bytes[|bytes| - 1];
      BytesToBitsShape(init);
      UintBitsShape(last, 8);
      forall k | 0 <= k < 8 * |bytes|
        ensures BytesToBits(bytes)[k] == BitOf(bytes[k / 8], 7 - k % 8)
      {
        if k >= 8 * |init| {
          UintBitsAt(last, 8, k - 8 * |init|);
        }
      }
    }
  }

  /** The length and 0/1-ness of the byte expansion, without the bit positions. */
  lemma BytesToBitsLength(bytes: seq<byte>)
    ensures |BytesToBits(bytes)| == 8 * |bytes| && IsBits(BytesToBits(bytes))
  {
    BytesToBitsShape(bytes);
  }

  /** Window j of the bit expansion is the 8-bit form of byte j. */
  lemma {:induction false} BytesToBitsWindow(bytes: seq<byte>, j: nat)
    requires j < |bytes|
    ensures |BytesToBits(bytes)| == 8 * |bytes|
    ensures BytesToBits(bytes)[8 * j .. 8 * j + 8] == UintBits(bytes[j], 8)
  {
    BytesToBitsShape(bytes);
    var init := bytes[..|bytes| - 1];
    BytesToBitsShape(init);
    UintBitsShape(bytes[|bytes| - 1], 8);
    if j < |bytes| - 1 {
      BytesToBitsWindow(init, j);
      assert BytesToBits(bytes)[8 * j .. 8 * j + 8] == BytesToBits(init)[8 * j .. 8 * j + 8];
    }
  }

  /** Round trip: folding any 8-bit window of toBits's output gives the byte back. */
  lemma BytesRoundTrip(bytes: seq<byte>, j: nat)
    requires j < |bytes|
    ensures |BytesToBits(bytes)| == 8 * |bytes|
    ensures Value(BytesToBits(bytes)[8 * j .. 8 * j + 8]) == bytes[j]
  {
    BytesToBitsWindow(bytes, j);
    ValueOfUintBits(bytes[j], 8);
    assert Pow2(8) == 256;
    ModBelow(bytes[j], 256);
  }

  /** Sixteen bits starting at byte j fold to bytes j and j + 1 big-endian. */
  lemma WordRoundTrip(bytes: seq<byte>, j: nat)
    requires j + 1 < |bytes|
    ensures |BytesToBits(bytes)| == 8 * |bytes|
    ensures Value(BytesToBits(bytes)[8 * j .. 8 * j + 16]) == bytes[j] as int * 256 + bytes[j + 1]
  {
    var bits := BytesToBits(bytes);
    BytesRoundTrip(bytes, j);
    BytesRoundTrip(bytes, j + 1);
    var w := bits[8 * j .. 8 * j + 16];
    ValueSplit(w, 8);
    assert w[..8] == bits[8 * j .. 8 * j + 8];
    assert w[8..] == bits[8 * (j + 1) .. 8 * (j + 1) + 8];
    assert Pow2(8) == 256;
  }

  // ---------------------------------------------------------------------------
  // The source's loops

  /** toBits: expands each byte into eight bits, most significant first. */
  method ToBits(byteArray: seq<byte>) returns (bits: seq<nat>)
    ensures bits == BytesToBits(byteArray)
  {
    bits := [];
    for j := 0 to |byteArray|
      invariant bits == BytesToBits(byteArray[..j])
    {
      var v := byteArray[j];
      ghost var before := bits;
      UintBitsShape(v, 8);
      for i := 0 to 8
        invariant bits == before + UintBits(v, 8)[..i]
      {
        UintBitsAt(v, 8, i);
        assert UintBits(v, 8)[..i + 1] == UintBits(v, 8)[..i] + [UintBits(v, 8)[i]];
        // (v & (128 >> i)) >> (7 - i): bit 7 - i of v
        bits := bits + [v / Pow2(7 - i) % 2];
      }
      assert byteArray[..j + 1][..j] == byteArray[..j];
    }
    assert byteArray[..|byteArray|] == byteArray;
  }

  /** Extending a suffix of the window by one element to its left. */
  lemma SuffixStep(bits: seq<nat>, i: nat)
    requires i < |bits|
    ensures Value(bits[|bits| - 1 - i..]) == bits[|bits| - 1 - i] * Pow2(i) + Value(bits[|bits| - i..])
  {
    var suffix := bits[|bits| - 1 - i..];
    ValueSplit(suffix, 1);
    assert suffix[..1] == [bits[|bits| - 1 - i]];
    assert suffix[1..] == bits[|bits| - i..];
    assert Value([bits[|bits| - 1 - i]]) == bits[|bits| - 1 - i] by {
      assert [bits[|bits| - 1 - i]][..0] == [];
    }
  }

  /** From w bits on, a term shifted out of the word does not change the value modulo 2^w. */
  lemma HighStep(b: nat, i: nat, v: nat, w: nat)
    requires i >= w
    ensures (b * Pow2(i) + v) % Pow2(w) == v % Pow2(w)
  {
    var m, p := Pow2(w), Pow2(i - w);
    Pow2Add(w, i - w);
    MulRotate(b, m, p);
    var c := b * p;
    assert b * Pow2(i) + v == c * m + v;
    ModAddMultiple(c, m, v);
  }

  /**
   * The first i steps of fromBits on a w-bit word: bit |bits| - 1 - j is
   * shifted to position j, and shifting by w or more gives 0.
   */
  function ShiftIn(bits: seq<nat>, i: nat, w: nat): nat
    requires i <= |bits|
  {
    if i == 0 then 0
    else ShiftIn(bits, i - 1, w) + (if i - 1 < w then bits[|bits| - i] * Pow2(i - 1) else 0)
  }

  /** The first i <= w steps lose nothing: they give the last i bits' value. */
  lemma {:induction false} ShiftInExact(bits: seq<nat>, i: nat, w: nat)
    requires IsBits(bits) && i <= |bits| && i <= w
    ensures ShiftIn(bits, i, w) == Value(bits[|bits| - i..]) < Pow2(i)
  {
    if i == 0 {
      assert bits[|bits|..] == [];
    } else {
      var j := i - 1;
      ShiftInExact(bits, j, w);
      SuffixStep(bits, j);
      assert |bits| - 1 - j == |bits| - i;
      BitBelow(bits[|bits| - i], j, ShiftIn(bits, j, w));
    }
  }

  /** Placing a bit above a number below 2^j stays below 2^(j+1). */
  lemma BitBelow(b: nat, j: nat, v: nat)
    requires b <= 1 && v < Pow2(j)
    ensures b * Pow2(j) + v < Pow2(j + 1)
  {
  }

  /** The first i steps give the last i bits' value modulo 2^w. */
  lemma {:induction false} ShiftInValue(bits: seq<nat>, i: nat, w: nat)
    requires IsBits(bits) && i <= |bits|
    ensures ShiftIn(bits, i, w) == Value(bits[|bits| - i..]) % Pow2(w)
  {
    if i <= w {
      ShiftInExact(bits, i, w);
      Pow2Monotone(i, w);
      ModBelow(Value(bits[|bits| - i..]), Pow2(w));
    } else {
      var j := i - 1;
      ShiftInValue(bits, j, w);
      SuffixStep(bits, j);
      assert |bits| - 1 - j == |bits| - i;
      HighStep(bits[|bits| - i], j, Value(bits[|bits| - j..]), w);
    }
  }

  /**
   * fromBits: folds a bit window into a 64-bit unsigned integer, the last
   * element being the lowest-order bit. Shifting a Go `uint` by 64 or more
   * gives 0, so only the last 64 elements contribute.
   */
  method FromBits(bits: seq<nat>) returns (result: nat)
    requires IsBits(bits)
    ensures result == Value(bits) % Pow2(64)
    ensures |bits| <= 64 ==> result == Value(bits) && result < Pow2(|bits|)
  {
    var n := |bits|;
    result := 0;
    for i := 0 to n
      invariant result == ShiftIn(bits, i, 64)
    {
      if i < 64 {
        // `result | bits[n-1-i] << i`: result < 2^i, so the or is an addition
        result := result + bits[n - 1 - i] * Pow2(i);
      }
    }
    ShiftInValue(bits, n, 64);
    if n <= 64 {
      ShiftInExact(bits, n, 64);
    }
    assert bits[n - n..] == bits;
  }
}
