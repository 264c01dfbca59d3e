/**
 * genSha256Inputs: the padded message is cut into nWidth-bit windows, the
 * window list is filled up with zero windows to the circuit's fixed count
 * nCount, and the number of complete 512-bit blocks is reported.
 */
module ChunkSegmenter {
  import opened BitCodec
  import opened Sha256Padding

  /** Window i of width w lies inside a sequence holding more than i whole windows. */
  lemma WindowFits(i: nat, w: nat, len: nat)
    requires w > 0 && i < len / w
    ensures i * w + w == (i + 1) * w <= len
  {
    var q := len / w;
    assert len == w * q + len % w;
    assert i + 1 <= q;
    MulAtLeastLe(w, i + 1, q);
  }

  lemma MulAtLeastLe(w: nat, a: nat, b: nat)
    requires a <= b
    ensures a * w <= b * w
  {
    if a < b {
      MulAtLeastLe(w, a, b - 1);
      assert b * w == (b - 1) * w + w;
    }
  }

  /** Window i of width w of bits: bits i * w up to (i + 1) * w. */
  function Window(bits: seq<nat>, w: nat, i: nat): seq<nat>
    requires w > 0 && i < |bits| / w
  {
    WindowFits(i, w, |bits|);
    bits[i * w .. (i + 1) * w]
  }

  lemma MulAssoc(a: int, b: int, c: int)
    ensures (a * b) * c == a * (b * c)
  {
  }

  /** The first k windows of width w of bits. */
  function Windows(bits: seq<nat>, w: nat, k: nat): seq<seq<nat>>
    requires w > 0 && k <= |bits| / w
  {
    seq(k, i requires 0 <= i < k => Window(bits, w, i))
  }

  /** Window i has w bits, and its bit k is bit i * w + k of the whole. */
  lemma WindowAt(bits: seq<nat>, w: nat, i: nat)
    requires w > 0 && i < |bits| / w
    ensures i * w + w <= |bits|
    ensures |Window(bits, w, i)| == w
    ensures forall k :: 0 <= k < w ==> Window(bits, w, i)[k] == bits[i * w + k]
  {
    WindowFits(i, w, |bits|);
  }

  /** All whole windows: trailing bits that do not fill a window are dropped. */
  function RealSegments(bits: seq<nat>, w: nat): seq<seq<nat>>
    requires w > 0
  {
    Windows(bits, w, |bits| / w)
  }

  /** n all-zero windows of width w. */
  function Filler(n: nat, w: nat): seq<seq<nat>>
  {
    seq(n, _ => Zeros(w))
  }

  /** The segment list the circuit receives: the real windows, then zero windows up to nCount. */
  function Segments(padded: seq<nat>, nCount: nat, nWidth: nat): seq<seq<nat>>
    requires nWidth > 0
  {
    var chunks := |padded| / nWidth;
    RealSegments(padded, nWidth) + Filler(if chunks < nCount then nCount - chunks else 0, nWidth)
  }

  /** tBlock: complete 512-bit blocks among the real windows, narrowed to uint8. */
  function TBlock(padded: seq<nat>, nWidth: nat): nat
    requires 0 < nWidth <= 512
  {
    |padded| / nWidth / (512 / nWidth) % 256
  }

  /** The concatenation of a list of windows. */
  function Flatten(ws: seq<seq<nat>>): seq<nat>
  {
    if |ws| == 0 then [] else Flatten(ws[..|ws| - 1]) + ws[|ws| - 1]
  }

  // ---------------------------------------------------------------------------
  // Properties

  /**
   * The segment list has max(nCount, |padded| / nWidth) entries, each nWidth
   * bits wide; entry i below the real count is window i of the padded
   * message, every later entry is all zeros, and the entries are 0/1 when the
   * padded message is.
   */
  lemma SegmentsShape(padded: seq<nat>, nCount: nat, nWidth: nat)
    requires nWidth > 0
    ensures var segs, chunks := Segments(padded, nCount, nWidth), |padded| / nWidth;
      && |segs| == Max(nCount, chunks)
      && (forall i :: 0 <= i < |segs| ==> |segs[i]| == nWidth)
      && (forall i :: 0 <= i < chunks ==> segs[i] == Window(padded, nWidth, i))
      && (forall i :: chunks <= i < |segs| ==> segs[i] == Zeros(nWidth))
      && (IsBits(padded) ==> forall i :: 0 <= i < |segs| ==> IsBits(segs[i]))
  {
    var segs, chunks := Segments(padded, nCount, nWidth), |padded| / nWidth;
    var windows := RealSegments(padded, nWidth);
    var fill := Filler(if chunks < nCount then nCount - chunks else 0, nWidth);
    assert segs == windows + fill;
    assert |windows| == chunks;
    forall i | 0 <= i < chunks
      ensures segs[i] == Window(padded, nWidth, i) && |segs[i]| == nWidth
      ensures IsBits(padded) ==> IsBits(segs[i])
    {
      WindowAt(padded, nWidth, i);
      assert segs[i] == windows[i];
    }
    forall i | chunks <= i < |segs|
      ensures segs[i] == Zeros(nWidth)
    {
      assert segs[i] == fill[i - chunks];
    }
  }

  /** The real windows, laid end to end, are the padded message minus its last |padded| % w bits. */
  lemma {:induction false} FlattenWindows(bits: seq<nat>, w: nat, k: nat)
    requires w > 0 && k <= |bits| / w
    ensures k * w <= |bits| && Flatten(Windows(bits, w, k)) == bits[..k * w]
  {
    if k == 0 {
      assert Windows(bits, w, k) == [];
    } else {
      FlattenWindows(bits, w, k - 1);
      WindowAt(bits, w, k - 1);
      var ws := Windows(bits, w, k);
      assert ws[..k - 1] == Windows(bits, w, k - 1);
      assert bits[..k * w] == bits[..(k - 1) * w] + bits[(k - 1) * w .. k * w];
    }
  }

  /** Only the remainder that does not fill a whole window is lost. */
  lemma RealSegmentsCover(bits: seq<nat>, w: nat)
    requires w > 0
    ensures |bits| - |bits| % w == |bits| / w * w
    ensures Flatten(RealSegments(bits, w)) == bits[..|bits| - |bits| % w]
  {
    var q := |bits| / w;
    DivFloor(|bits|, w);
    FlattenWindows(bits, w, q);
    assert RealSegments(bits, w) == Windows(bits, w, q);
  }

  /** Rounding n down to a multiple of w. */
  lemma DivFloor(n: nat, w: nat)
    requires w > 0
    ensures n - n % w == n / w * w
  {
    assert n == w * (n / w) + n % w;
  }

  /**
   * A whole number of 512-bit blocks cut into windows whose width divides
   * 512 leaves no remainder, and tBlock is the number of blocks.
   */
  lemma TBlockOfBlocks(padded: seq<nat>, nWidth: nat)
    requires 0 < nWidth <= 512 && 512 % nWidth == 0 && |padded| % 512 == 0
    ensures |padded| % nWidth == 0
    ensures TBlock(padded, nWidth) == |padded| / 512 % 256
  {
    var blocks, per := |padded| / 512, 512 / nWidth;
    assert |padded| == 512 * blocks;
    assert 512 == nWidth * per;
    MulAssoc(nWidth, per, blocks);
    DivModUnique(|padded|, nWidth, per * blocks, 0);
    DivModUnique(per * blocks, per, blocks, 0);
  }

  /**
   * With a window width that divides 512, nothing of the padded message is
   * dropped and tBlock is its number of 512-bit blocks.
   */
  lemma TBlockCountsBlocks(input: seq<byte>, nWidth: nat)
    requires 0 < nWidth <= 512 && 512 % nWidth == 0
    ensures var padded := Padded(BytesToBits(input));
      && Flatten(RealSegments(padded, nWidth)) == padded
      && TBlock(padded, nWidth) == |padded| / 512 % 256
  {
    var padded := Padded(BytesToBits(input));
    PaddedLength(BytesToBits(input));
    TBlockOfBlocks(padded, nWidth);
    RealSegmentsCover(padded, nWidth);
  }

  // ---------------------------------------------------------------------------
  // The source's loops

  /** The first loop of genSha256Inputs: cut bits into whole windows. */
  method CutWindows(bits: seq<nat>, nWidth: nat) returns (segments: seq<seq<nat>>)
    requires nWidth > 0
    ensures |segments| == |bits| / nWidth
    ensures segments == RealSegments(bits, nWidth)
  {
    var chunkSize := nWidth;
    var chunks := |bits| / nWidth;
    segments := [];
    for i := 0 to chunks
      invariant segments == Windows(bits, nWidth, i)
    {
      WindowAt(bits, nWidth, i);
      var chunkStart := i * chunkSize;
      var chunkEnd := chunkSize + i * chunkSize;
      segments := segments + [bits[chunkStart..chunkEnd]];
    }
  }

  /** The zero window `empty`. */
  method ZeroWindow(nWidth: nat) returns (empty: seq<nat>)
    ensures empty == Zeros(nWidth)
  {
    empty := [];
    for i := 0 to nWidth
      invariant empty == Zeros(i)
    {
      empty := empty + [0];
    }
  }

  /**
   * genSha256Inputs, with the filler loop appending nCount - chunks zero
   * windows. `exceeded` is the condition the source only reports: more real
   * windows than the circuit takes (nothing is truncated).
   */
  method GenSha256Inputs(input: seq<byte>, nCount: nat, nWidth: nat)
    returns (segments: seq<seq<nat>>, tBlock: nat, exceeded: bool)
    requires 0 < nWidth <= 512
    ensures var padded := Padded(BytesToBits(input));
      && segments == Segments(padded, nCount, nWidth)
      && tBlock == TBlock(padded, nWidth)
      && exceeded == (|padded| / nWidth > nCount)
  {
    var bits := ToBits(input);
    bits := PadMessage(bits);
    segments := CutWindows(bits, nWidth);
    tBlock := |segments| / (512 / nWidth) % 256;
    if |segments| < nCount {
      var empty := ZeroWindow(nWidth);
      var missing := nCount - |segments|;
      for i := 0 to missing
        invariant segments == RealSegments(bits, nWidth) + Filler(i, nWidth)
      {
        segments := segments + [empty];
      }
    } else {
      assert segments + Filler(0, nWidth) == segments;
    }
    exceeded := |segments| > nCount;
  }

  // ---------------------------------------------------------------------------
  // The filler loop as the source writes it

  /**
   * The number of zero windows the source's filler loop appends: its bound
   * nCount - len(segments) is re-read after every append, so the loop stops
   * half way, after ceil((nCount - chunks) / 2) windows.
   */
  function FillerCountAsWritten(chunks: nat, nCount: nat): nat
  {
    if chunks < nCount then (nCount - chunks + 1) / 2 else 0
  }

  /**
   * The source's filler loop: its bound nCount - len(segments) is re-read
   * with the grown list. The list stays shorter than nCount, so the unsigned
   * subtraction never wraps.
   */
  method FillAsWritten(windows: seq<seq<nat>>, nCount: nat, nWidth: nat, empty: seq<nat>)
    returns (segments: seq<seq<nat>>)
    requires |windows| < nCount && empty == Zeros(nWidth)
    ensures segments == windows + Filler(FillerCountAsWritten(|windows|, nCount), nWidth)
    ensures |segments| <= nCount
  {
    segments := windows;
    var i := 0;
    while i < nCount - |segments|
      invariant segments == windows + Filler(i, nWidth)
      invariant |segments| == |windows| + i <= nCount
      invariant 2 * i <= nCount - |windows| + 1
      decreases nCount - |segments| - i
    {
      segments := segments + [empty];
      i := i + 1;
    }
  }

  /** The segments the source's genSha256Inputs returns for padded bits. */
  function SegmentsAsWritten(padded: seq<nat>, nCount: nat, nWidth: nat): seq<seq<nat>>
    requires nWidth > 0
  {
    RealSegments(padded, nWidth) + Filler(FillerCountAsWritten(|padded| / nWidth, nCount), nWidth)
  }

  /** genSha256Inputs exactly as written, with the filler loop's shrinking bound. */
  method GenSha256InputsAsWritten(input: seq<byte>, nCount: nat, nWidth: nat)
    returns (segments: seq<seq<nat>>, tBlock: nat, exceeded: bool)
    requires 0 < nWidth <= 512
    ensures var padded := Padded(BytesToBits(input));
      && segments == SegmentsAsWritten(padded, nCount, nWidth)
      && tBlock == TBlock(padded, nWidth)
      && exceeded == (|padded| / nWidth > nCount)
  {
    var bits := ToBits(input);
    bits := PadMessage(bits);
    segments := CutWindows(bits, nWidth);
    ghost var windows, chunks := segments, |segments|;
    tBlock := |segments| / (512 / nWidth) % 256;
    if |segments| < nCount {
      var empty := ZeroWindow(nWidth);
      segments := FillAsWritten(segments, nCount, nWidth, empty);
    } else {
      assert segments + Filler(0, nWidth) == segments;
    }
    assert segments == windows + Filler(FillerCountAsWritten(chunks, nCount), nWidth);
    exceeded := |segments| > nCount;
  }

  /**
   * Whenever two or more filler windows are due, the source's segments fall
   * short of nCount, while the corrected ones reach it exactly.
   */
  lemma FillerShortfall(padded: seq<nat>, nCount: nat, nWidth: nat)
    requires nWidth > 0 && |padded| / nWidth + 2 <= nCount
    ensures |SegmentsAsWritten(padded, nCount, nWidth)| < nCount
    ensures |Segments(padded, nCount, nWidth)| == nCount
  {
    SegmentsShape(padded, nCount, nWidth);
  }

  /** For the empty message and the builder's parameters the source returns 368 segments, not 704. */
  lemma EmptyMessageShortfall()
    ensures |SegmentsAsWritten(Padded(BytesToBits([])), 704, 16)| == 368
    ensures |Segments(Padded(BytesToBits([])), 704, 16)| == 704
  {
    var padded := Padded(BytesToBits([]));
    PaddedShape(BytesToBits([]));
    assert |padded| == 512;
    SegmentsShape(padded, 704, 16);
  }
}
