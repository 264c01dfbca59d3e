/**
 * genJwtProofInputs: from a compact JWT (header.payload.signature) to the
 * request sent to the prover: the SHA-256 input of header bytes followed by
 * payload bytes as 704 16-bit words, the number of 512-bit blocks, and the
 * character mask of the disclosed claims.
 */
module JwtInputBuilder {
  import opened Wrappers
  import opened BitCodec
  import opened Sha256Padding
  import opened ChunkSegmenter
  import opened Base64
  import opened GoStrings
  import opened FieldMasker

  /** The request body: the padded message as words, the claim mask, and tBlock. */
  datatype ProveRequest = ProveRequest(payload: seq<nat>, mask: seq<nat>, tBlock: nat)

  /** The zero value ProveRequest{} the source returns when a part does not decode. */
  const EmptyRequest := ProveRequest([], [], 0)

  /** The ways genJwtProofInputs panics or does not return. */
  datatype BuildError =
    | MissingPayloadPart        // inputParts[1] with no '.' in the token
    | MaskFailed(cause: MaskError) // a panic inside genJwtMask
    | MaskPaddingOverflow       // nCount - len(decoded) wraps: the padding loop never ends

  /** The number of words and the word width the circuit takes. */
  const NCount: nat := 704
  const NWidth: nat := 16

  const Dot: byte := 46

  /** A string literal as Go bytes. */
  function Ascii(s: string): seq<byte>
  {
    seq(|s|, i requires 0 <= i < |s| => (s[i] as int) % 256)
  }

  /** The claims the mask discloses. */
  const Fields: seq<seq<byte>> := [Ascii("iss"), Ascii("aud"), Ascii("exp"), Ascii("iat"),
    Ascii("nonce"), Ascii("at_hash"), Ascii("c_hash"), Ascii("email_verified")]

  /** The decoded header, after the header part with "==" appended. */
  function HeaderBytes(input: seq<byte>): Option<seq<byte>>
  {
    Decode(Split(input, Dot)[0] + [Pad, Pad])
  }

  /** The decoded payload, after the payload part with "=" appended. */
  function PayloadBytes(input: seq<byte>): Option<seq<byte>>
    requires |Split(input, Dot)| >= 2
  {
    Decode(Split(input, Dot)[1] + [Pad])
  }

  /** fromBits applied to every segment. */
  function Words(segments: seq<seq<nat>>): seq<nat>
  {
    seq(|segments|, i requires 0 <= i < |segments| => Value(segments[i]) % Pow2(64))
  }

  /**
   * genJwtProofInputs: split on '.', decode the header and the payload
   * (either failing gives the empty request), hash-pad header bytes followed
   * by payload bytes and cut them into words, then the mask over the token's
   * characters, extended with nCount - len(decoded) zeros.
   */
  function Build(input: seq<byte>): Result<ProveRequest, BuildError>
  {
    var parts := Split(input, Dot);
    match HeaderBytes(input)
    case None => Ok(EmptyRequest)
    case Some(header) =>
      if |parts| < 2 then Err(MissingPayloadPart)
      else match PayloadBytes(input)
        case None => Ok(EmptyRequest)
        case Some(payload) => Assemble(header, payload, |parts[0]|, |input|)
  }

  /**
   * The rest of genJwtProofInputs once both parts have decoded: the words
   * and tBlock of header bytes followed by payload bytes, and the mask over
   * the token's tokenLen characters, the header part being headerLen long.
   */
  function Assemble(header: seq<byte>, payload: seq<byte>, headerLen: nat, tokenLen: nat): Result<ProveRequest, BuildError>
  {
    var decoded := header + payload;
    var padded := Padded(BytesToBits(decoded));
    match JwtMask(headerLen, payload, tokenLen, Fields)
    case Err(e) => Err(MaskFailed(e))
    case Ok(mask) =>
      if |decoded| > NCount then Err(MaskPaddingOverflow)
      else Ok(ProveRequest(Words(Segments(padded, NCount, NWidth)),
                           mask + Zeros(NCount - |decoded|),
                           TBlock(padded, NWidth)))
  }

  /** The header bytes followed by the payload bytes, when both decode. */
  function DecodedMessage(input: seq<byte>): Option<seq<byte>>
  {
    if |Split(input, Dot)| < 2 then None
    else match (HeaderBytes(input), PayloadBytes(input))
      case (Some(h), Some(p)) => Some(h + p)
      case _ => None
  }

  // ---------------------------------------------------------------------------
  // The source's procedure

  /** fromBits on every segment, appended one by one. */
  method PackWords(segments: seq<seq<nat>>) returns (words: seq<nat>)
    requires forall i :: 0 <= i < |segments| ==> IsBits(segments[i])
    ensures words == Words(segments)
  {
    words := [];
    for i := 0 to |segments|
      invariant words == Words(segments[..i])
    {
      var w := FromBits(segments[i]);
      assert segments[..i + 1][..i] == segments[..i];
      words := words + [w];
    }
    assert segments[..|segments|] == segments;
  }

  /** genSha256Inputs on the decoded bytes, then fromBits on every segment. */
  method MessageWords(decoded: seq<byte>) returns (words: seq<nat>, tBlock: nat)
    ensures var padded := Padded(BytesToBits(decoded));
      && words == Words(Segments(padded, NCount, NWidth))
      && tBlock == TBlock(padded, NWidth)
  {
    var payloadBits, exceeded;
    payloadBits, tBlock, exceeded := GenSha256Inputs(decoded, NCount, NWidth);
    ghost var padded := Padded(BytesToBits(decoded));
    BytesToBitsLength(decoded);
    PaddedLength(BytesToBits(decoded));
    SegmentsShape(padded, NCount, NWidth);
    words := PackWords(payloadBits);
  }

  /** The source's final loop: n zeros appended to the mask. */
  method ExtendMask(mask: seq<nat>, n: nat) returns (extended: seq<nat>)
    ensures extended == mask + Zeros(n)
  {
    extended := mask;
    for i := 0 to n
      invariant extended == mask + Zeros(i)
    {
      extended := extended + [0];
    }
  }

  /** genJwtProofInputs. */
  method GenJwtProofInputs(input: seq<byte>) returns (r: Result<ProveRequest, BuildError>)
    ensures r == Build(input)
  {
    var inputParts := Split(input, Dot);
    var decodedHeader := Decode(inputParts[0] + [Pad, Pad]);
    if decodedHeader.None? {
      return Ok(EmptyRequest);
    }
    if |inputParts| < 2 {
      return Err(MissingPayloadPart);
    }
    var decodedPayload := Decode(inputParts[1] + [Pad]);
    if decodedPayload.None? {
      return Ok(EmptyRequest);
    }
    var decoded := decodedHeader.value + decodedPayload.value;
    var newPayload, tBlock := MessageWords(decoded);
    var mask := GenJwtMask(|inputParts[0]|, decodedPayload.value, |input|, Fields);
    if mask.Err? {
      return Err(MaskFailed(mask.error));
    }
    // The source's bound nCount - uint(len(decoded)) wraps below zero to
    // nearly 2^64: appending that many zeros never finishes.
    if |decoded| > NCount {
      return Err(MaskPaddingOverflow);
    }
    var extended := ExtendMask(mask.value, NCount - |decoded|);
    return Ok(ProveRequest(newPayload, extended, tBlock));
  }

  // ---------------------------------------------------------------------------
  // What the request holds

  /** Word i of the padded message, inside the message, is bytes 2i and 2i + 1 big-endian. */
  lemma MessageWord(decoded: seq<byte>, i: nat)
    requires 2 * i + 1 < |decoded|
    ensures |Padded(BytesToBits(decoded))| / 16 > i
    ensures Value(Window(Padded(BytesToBits(decoded)), 16, i)) == decoded[2 * i] as int * 256 + decoded[2 * i + 1]
  {
    var bits := BytesToBits(decoded);
    var padded := Padded(bits);
    BytesToBitsLength(decoded);
    PaddedPrefix(bits);
    WindowAt(padded, 16, i);
    assert Window(padded, 16, i) == padded[..|bits|][16 * i .. 16 * i + 16];
    WordRoundTrip(decoded, 2 * i);
  }

  /** An all-zero window folds to 0. */
  lemma {:induction false} ValueOfZeros(n: nat)
    ensures Value(Zeros(n)) == 0
  {
    if n > 0 {
      assert Zeros(n)[..n - 1] == Zeros(n - 1);
      ValueOfZeros(n - 1);
    }
  }

  /** fromBits of a 16-bit segment is its plain value: the 64-bit truncation never bites. */
  lemma SegmentWord(seg: seq<nat>)
    requires IsBits(seg) && |seg| == 16
    ensures Value(seg) % Pow2(64) == Value(seg) < Pow2(16)
  {
    ValueBound(seg);
    Pow2Monotone(16, 64);
    ModBelow(Value(seg), Pow2(64));
  }

  /**
   * fromBits over the segments of a 0/1 sequence of at most 704 windows:
   * 704 words of 16 bits, the values of its windows followed by zero words.
   */
  lemma WindowWords(padded: seq<nat>)
    requires IsBits(padded) && |padded| / 16 <= 704
    ensures var words := Words(Segments(padded, 704, 16));
      && |words| == 704
      && (forall i :: 0 <= i < 704 ==> words[i] < Pow2(16))
      && (forall i :: 0 <= i < |padded| / 16 ==> words[i] == Value(Window(padded, 16, i)))
      && (forall i :: |padded| / 16 <= i < 704 ==> words[i] == 0)
  {
    SegmentsShape(padded, 704, 16);
    forall i | 0 <= i < 704 {
      WindowWord(padded, i);
    }
  }

  /** Word i of WindowWords. */
  lemma WindowWord(padded: seq<nat>, i: nat)
    requires IsBits(padded) && |padded| / 16 <= 704 && i < 704
    ensures var words := Words(Segments(padded, 704, 16));
      && |words| == 704
      && words[i] < Pow2(16)
      && (i < |padded| / 16 ==> words[i] == Value(Window(padded, 16, i)))
      && (|padded| / 16 <= i ==> words[i] == 0)
  {
    var segs := Segments(padded, 704, 16);
    SegmentsShape(padded, 704, 16);
    SegmentWord(segs[i]);
    if |padded| / 16 <= i {
      ValueOfZeros(16);
    }
  }

  /**
   * The payload words of a message of at most 704 bytes: 704 words of 16
   * bits, the real windows of the padded message followed by zero words.
   */
  lemma MessageWordsShape(decoded: seq<byte>)
    requires |decoded| <= 704
    ensures var padded := Padded(BytesToBits(decoded));
      var words := Words(Segments(padded, 704, 16));
      && |padded| / 16 <= 704
      && |words| == 704
      && (forall i :: 0 <= i < 704 ==> words[i] < Pow2(16))
      && (forall i :: 0 <= i < |padded| / 16 ==> words[i] == Value(Window(padded, 16, i)))
      && (forall i :: |padded| / 16 <= i < 704 ==> words[i] == 0)
  {
    BytesToBitsLength(decoded);
    PaddedLength(BytesToBits(decoded));
    WindowWords(Padded(BytesToBits(decoded)));
  }

  /** Each payload word inside the message is two message bytes, big-endian. */
  lemma MessageWordPairs(decoded: seq<byte>)
    requires |decoded| <= 704
    ensures var words := Words(Segments(Padded(BytesToBits(decoded)), 704, 16));
      && |words| == 704
      && forall i :: 0 <= i && 2 * i + 1 < |decoded| ==> words[i] == decoded[2 * i] as int * 256 + decoded[2 * i + 1]
  {
    MessageWordsShape(decoded);
    forall i | 0 <= i && 2 * i + 1 < |decoded|
      ensures Words(Segments(Padded(BytesToBits(decoded)), 704, 16))[i] == decoded[2 * i] as int * 256 + decoded[2 * i + 1]
    {
      MessageWord(decoded, i);
    }
  }

  /** tBlock of a message of at most 704 bytes: its number of 512-bit blocks, at most 12. */
  lemma MessageBlocks(decoded: seq<byte>)
    requires |decoded| <= 704
    ensures var padded := Padded(BytesToBits(decoded));
      TBlock(padded, 16) == |padded| / 512 <= 12
  {
    var padded := Padded(BytesToBits(decoded));
    BytesToBitsLength(decoded);
    PaddedLength(BytesToBits(decoded));
    TBlockOfBlocks(padded, 16);
    BlockCountBound(|padded|);
  }

  /** A block-aligned length of at most 6208 bits is at most 12 blocks. */
  lemma BlockCountBound(n: nat)
    requires n % 512 == 0 && n <= 6208
    ensures n / 512 <= 12 && n / 512 % 256 == n / 512
  {
  }

  /** A successful mask followed by n zeros: 0/1 valued, the mask first, zeros after. */
  lemma ExtendedMask(headerLen: nat, payload: seq<byte>, masklen: nat, fields: seq<seq<byte>>, n: nat)
    requires JwtMask(headerLen, payload, masklen, fields).Ok?
    ensures var m := JwtMask(headerLen, payload, masklen, fields).value;
      && |m + Zeros(n)| == masklen + n
      && IsBits(m + Zeros(n))
      && (m + Zeros(n))[..masklen] == m
      && forall j :: masklen <= j < masklen + n ==> (m + Zeros(n))[j] == 0
  {
    var m := JwtMask(headerLen, payload, masklen, fields).value;
    JwtMaskMeaning(headerLen, payload, masklen, fields);
    assert (m + Zeros(n))[..masklen] == m;
  }

  /**
   * A request built from a token whose parts decode: the message words and
   * tBlock above, and the mask: the token-length genJwtMask result, 0/1
   * valued, followed by 704 - len(decoded) zeros.
   */
  lemma BuildSuccess(input: seq<byte>)
    requires Build(input).Ok? && DecodedMessage(input).Some?
    ensures var req, decoded := Build(input).value, DecodedMessage(input).value;
      var padded := Padded(BytesToBits(decoded));
      && |decoded| <= 704
      && req.payload == Words(Segments(padded, 704, 16))
      && req.tBlock == TBlock(padded, 16)
      && |req.mask| == |input| + 704 - |decoded|
      && IsBits(req.mask)
      && req.mask[..|input|] == JwtMask(|Split(input, Dot)[0]|, PayloadBytes(input).value, |input|, Fields).value
      && (forall j :: |input| <= j < |req.mask| ==> req.mask[j] == 0)
  {
    AssembleSuccess(HeaderBytes(input).value, PayloadBytes(input).value, |Split(input, Dot)[0]|, |input|);
  }

  /** BuildSuccess once both parts have decoded. */
  lemma AssembleSuccess(header: seq<byte>, payload: seq<byte>, headerLen: nat, tokenLen: nat)
    requires Assemble(header, payload, headerLen, tokenLen).Ok?
    ensures var req, decoded := Assemble(header, payload, headerLen, tokenLen).value, header + payload;
      var padded := Padded(BytesToBits(decoded));
      && |decoded| <= 704
      && req.payload == Words(Segments(padded, 704, 16))
      && req.tBlock == TBlock(padded, 16)
      && |req.mask| == tokenLen + 704 - |decoded|
      && IsBits(req.mask)
      && req.mask[..tokenLen] == JwtMask(headerLen, payload, tokenLen, Fields).value
      && (forall j :: tokenLen <= j < |req.mask| ==> req.mask[j] == 0)
  {
    ExtendedMask(headerLen, payload, tokenLen, Fields, 704 - |header + payload|);
  }

  /** A part that does not decode gives the empty request, whatever the rest of the token holds. */
  lemma DecodeFailureGivesEmpty(input: seq<byte>)
    ensures HeaderBytes(input).None? ==> Build(input) == Ok(EmptyRequest)
    ensures |Split(input, Dot)| >= 2 && PayloadBytes(input).None? ==> Build(input) == Ok(EmptyRequest)
  {
  }

  /**
   * A token with a third (signature) part is longer than the header, the
   * dot and the payload's base64 text together: no claim range then runs
   * past the mask, so a mask failure is a missing key or comma.
   */
  lemma SignedTokenNoOverrun(input: seq<byte>)
    requires |Split(input, Dot)| >= 3
    ensures Build(input).Err? && Build(input).error.MaskFailed? ==>
      Build(input).error.cause == FieldKeyNotFound || Build(input).error.cause == CommaNotFound
  {
    var parts := Split(input, Dot);
    if HeaderBytes(input).Some? && PayloadBytes(input).Some? {
      PayloadText(parts[1]);
      JoinSplit(input, Dot);
      JoinLength(parts, Dot);
      MaskNoOverrun(|parts[0]|, PayloadBytes(input).value, |input|, Fields, |StripNewlines(parts[1])| + 1);
    }
  }

  /**
   * Without a signature part the mask is exactly as long as the header, the
   * dot and the payload part, and the payload's last group is completed by
   * the appended '=', which the token does not hold. The token
   * "ew.ImlzcyI6MCw" decodes to the header `{` and the payload `"iss":0,`;
   * the range of "iss" is positions 3 to 14 of a 14-position mask, so the
   * write loop panics on mask[14].
   */
  lemma TwoPartTokenOverrun()
    ensures Build(Ascii("ew.ImlzcyI6MCw")) == Err(MaskFailed(IndexOutOfRange(14)))
  {
    OverrunTokenParts();
    TwoPartOverrun(Ascii("ew.ImlzcyI6MCw"));
  }

  /** Any 14-byte token with the two parts of the token above, whatever the bytes are called. */
  lemma TwoPartOverrun(input: seq<byte>)
    requires |input| == 14
    requires Split(input, Dot) == [[101, 119], [73, 109, 108, 122, 99, 121, 73, 54, 77, 67, 119]]
    ensures Build(input) == Err(MaskFailed(IndexOutOfRange(14)))
  {
    var payload: seq<byte> := [34, 105, 115, 115, 34, 58, 48, 44];
    OverrunTokenDecodes();
    assert Split(input, Dot)[0] + [Pad, Pad] == [101, 119, Pad, Pad];
    assert HeaderBytes(input) == Some([123]);
    assert Split(input, Dot)[1] + [Pad] == [73, 109, 108, 122, 99, 121, 73, 54, 77, 67, 119, Pad];
    assert PayloadBytes(input) == Some(payload);
    IssOverruns();
    assert Assemble([123], payload, 2, 14) == Err(MaskFailed(IndexOutOfRange(14)));
  }

  /** The token above is 14 bytes: a 2-byte header part and an 11-byte payload part. */
  lemma OverrunTokenParts()
    ensures var input := Ascii("ew.ImlzcyI6MCw");
      && |input| == 14
      && Split(input, Dot) == [[101, 119], [73, 109, 108, 122, 99, 121, 73, 54, 77, 67, 119]]
  {
    OverrunTokenBytes();
    SplitTwoParts([101, 119], [73, 109, 108, 122, 99, 121, 73, 54, 77, 67, 119]);
  }

  /** The bytes of the token above. */
  lemma OverrunTokenBytes()
    ensures Ascii("ew.ImlzcyI6MCw") == [101, 119] + [Dot] + [73, 109, 108, 122, 99, 121, 73, 54, 77, 67, 119]
  {
  }

  /** Two dot-free pieces around one dot split back into those pieces. */
  lemma SplitTwoParts(head: seq<byte>, tail: seq<byte>)
    requires Dot !in head && Dot !in tail
    ensures Split(head + [Dot] + tail, Dot) == [head, tail]
  {
    SplitPrefix(head, Dot, tail);
    SplitFree(tail, Dot);
  }

  /** The two parts of the token above, with their fixed padding, decode to `{` and `"iss":0,`. */
  lemma OverrunTokenDecodes()
    ensures Decode([101, 119, Pad, Pad]) == Some([123])
    ensures Decode([73, 109, 108, 122, 99, 121, 73, 54, 77, 67, 119, Pad]) == Some([34, 105, 115, 115, 34, 58, 48, 44])
  {
    StripNoNewlines([101, 119, Pad, Pad]);
    HeaderGroup();
    StripNoNewlines([73, 109, 108, 122, 99, 121, 73, 54, 77, 67, 119, Pad]);
    PayloadGroups();
  }

  /** "ew==" is the single byte `{`. */
  lemma HeaderGroup()
    ensures DecodeGroups([101, 119, Pad, Pad]) == Some([123])
  {
    DecodeOneByteGroup([101, 119, Pad, Pad]);
    assert DecodeSextet(101) == 30 && DecodeSextet(119) == 48;
    assert DecodeGroup(30, 48, 0, 0)[..1] == [123];
  }

  /** "ImlzcyI6MCw=" is the eight bytes `"iss":0,`. */
  lemma PayloadGroups()
    ensures DecodeGroups([73, 109, 108, 122, 99, 121, 73, 54, 77, 67, 119, Pad]) == Some([34, 105, 115, 115, 34, 58, 48, 44])
  {
    var g1: seq<byte> := [73, 109, 108, 122];
    var g2: seq<byte> := [99, 121, 73, 54];
    var g3: seq<byte> := [77, 67, 119, Pad];
    DecodeTwoByteGroup(g3);
    assert DecodeSextet(77) == 12 && DecodeSextet(67) == 2 && DecodeSextet(119) == 48;
    assert DecodeGroup(12, 2, 48, 0)[..2] == [48, 44];
    DecodeFullGroup(g2, g3, [48, 44]);
    assert DecodeSextet(99) == 28 && DecodeSextet(121) == 50 && DecodeSextet(73) == 8 && DecodeSextet(54) == 58;
    assert DecodeGroup(28, 50, 8, 58) + [48, 44] == [115, 34, 58, 48, 44];
    DecodeFullGroup(g1, g2 + g3, [115, 34, 58, 48, 44]);
    assert DecodeSextet(109) == 38 && DecodeSextet(108) == 37 && DecodeSextet(122) == 51;
    assert DecodeGroup(8, 38, 37, 51) + [115, 34, 58, 48, 44] == [34, 105, 115, 115, 34, 58, 48, 44];
    assert g1 + (g2 + g3) == [73, 109, 108, 122, 99, 121, 73, 54, 77, 67, 119, Pad];
  }

  /** The first disclosed claim is "iss". */
  lemma IssField()
    ensures Fields[0] == [105, 115, 115]
  {
  }

  /**
   * In the payload `"iss":0,` the claim of "iss" is bytes 0 to 7, whose
   * groups are characters 0 to 11; past a 2-character header and the dot
   * that is positions 3 to 14, one past a 14-position mask.
   */
  lemma IssOverruns()
    ensures JwtMask(2, [34, 105, 115, 115, 34, 58, 48, 44], 14, Fields) == Err(IndexOutOfRange(14))
  {
    var payload: seq<byte> := [34, 105, 115, 115, 34, 58, 48, 44];
    var iss: seq<byte> := [105, 115, 115];
    IssField();
    IssClaim();
    assert MaskRange(2, 14, payload, Span(0, 7)) == Range(3, 14);
    assert FieldRange(2, 14, payload, iss) == Err(IndexOutOfRange(14));
  }

  /** The claim of "iss" in `"iss":0,` runs from its key at byte 0 to the comma at byte 7. */
  lemma IssClaim()
    ensures LocateField([34, 105, 115, 115, 34, 58, 48, 44], [105, 115, 115]) == Ok(Span(0, 7))
  {
    var payload: seq<byte> := [34, 105, 115, 115, 34, 58, 48, 44];
    var iss: seq<byte> := [105, 115, 115];
    assert FieldKey(iss) == payload[..6];
    assert IndexFrom(payload, FieldKey(iss), 0) == 0;
    var rest: seq<byte> := [48, 44];
    assert payload[6..] == rest;
    assert rest[0..1] == [48];
    assert IndexFrom(rest, [Comma], 1) == 1;
    assert IndexOf(rest, [Comma]) == 1;
  }

  /**
   * A token whose header part holds a base64url character ('-' or '_')
   * does not decode with the standard alphabet: the request is empty.
   */
  lemma UrlSafeHeaderGivesEmpty(input: seq<byte>)
    requires 45 in Split(input, Dot)[0] || 95 in Split(input, Dot)[0]
    ensures Build(input) == Ok(EmptyRequest)
  {
    var s := Split(input, Dot)[0] + [Pad, Pad];
    assert 45 in s || 95 in s;
    UrlSafeCharsRejected(s);
  }

  /**
   * Likewise for a base64url character in the payload part, once the
   * header has decoded.
   */
  lemma UrlSafePayloadGivesEmpty(input: seq<byte>)
    requires |Split(input, Dot)| >= 2 && HeaderBytes(input).Some?
    requires 45 in Split(input, Dot)[1] || 95 in Split(input, Dot)[1]
    ensures Build(input) == Ok(EmptyRequest)
  {
    var s := Split(input, Dot)[1] + [Pad];
    assert 45 in s || 95 in s;
    UrlSafeCharsRejected(s);
  }

  /**
   * The payload part with its '=' is base64 text of whole groups, at most
   * one character longer than the part, carrying at most three bytes per
   * group.
   */
  lemma PayloadText(part: seq<byte>)
    requires Decode(part + [Pad]).Some?
    ensures var textLen := |StripNewlines(part)| + 1;
      && 4 * |Decode(part + [Pad]).value| <= 3 * textLen
      && textLen % 4 == 0
      && textLen <= |part| + 1
  {
    var text := StripNewlines(part + [Pad]);
    DecodeGroupsSize(text);
    DecodeGroupsLength(text);
    StripAppend(part, [Pad]);
    StripNoNewlines([Pad]);
  }

  /** A part decodes with k padding characters appended only when, newlines aside, it is k short of a multiple of 4. */
  lemma PaddedPartLength(part: seq<byte>, pad: seq<byte>)
    requires pad == [Pad] || pad == [Pad, Pad]
    requires Decode(part + pad).Some?
    ensures (|StripNewlines(part)| + |pad|) % 4 == 0
  {
    DecodeLengthMultiple(part + pad);
    StripAppend(part, pad);
    StripNoNewlines(pad);
    assert |StripNewlines(part + pad)| == |StripNewlines(part)| + |pad|;
  }

  /**
   * Decoding with fixed padding: both parts decode only when, newlines
   * aside, the header part is 2 characters past a multiple of 4 and the
   * payload part 3 characters past one.
   */
  lemma DecodablePartLengths(input: seq<byte>)
    requires DecodedMessage(input).Some?
    ensures |StripNewlines(Split(input, Dot)[0])| % 4 == 2
    ensures |StripNewlines(Split(input, Dot)[1])| % 4 == 3
  {
    var parts := Split(input, Dot);
    PaddedPartLength(parts[0], [Pad, Pad]);
    PaddedPartLength(parts[1], [Pad]);
  }
}
