# JWT prover inputs, modelled in Dafny

This project models how the zero-knowledge proving server turns a compact
JSON Web Token (`header.payload.signature`, each part base64) into the
inputs of its SHA-256 circuit. The result is a `ProveRequest` with three
parts:

- **payload**: the decoded header and payload bytes, padded as SHA-256 pads
  a message, cut into 704 words of 16 bits (the source as written returns
  fewer words, see "## Findings"; the model uses the intended 704);
- **tBlock**: the number of 512-bit blocks in the padded message;
- **mask**: one bit per character of the token, set on the base64
  characters that carry a disclosed claim (`iss`, `aud`, `exp`, `iat`,
  `nonce`, `at_hash`, `c_hash`, `email_verified`), followed by zeros.

The modules follow the steps of `pkg/server/proof_utils.go`:

| module | file | what it models |
|---|---|---|
| `Wrappers` | `wrappers.dfy` | `Option` and `Result` |
| `BitCodec` | `bit_codec.dfy` | `toBits`, `fromBits`, big-endian bit values |
| `Sha256Padding` | `sha256_padding.dfy` | `padMessage` (section 4.1 of RFC 4634, section 5.1.1 of FIPS 180-4) |
| `ChunkSegmenter` | `chunk_segmenter.dfy` | `genSha256Inputs`: windows, zero filler, `tBlock`, the "exceeds" report |
| `GoStrings` | `go_strings.dfy` | `strings.Index` and `strings.Split` |
| `Base64` | `base64.dfy` | `base64.StdEncoding`: encoding, and decoding that skips CR/LF and requires padding |
| `FieldMasker` | `field_masker.dfy` | `genJwtMask` |
| `JwtInputBuilder` | `jwt_input_builder.dfy` | `genJwtProofInputs` and `ProveRequest` |

Modelling conventions:

- Go strings are byte sequences (`seq<byte>`), and a `[]uint` of bits is a
  `seq<nat>` whose elements are 0 or 1 (`IsBits`).
- A `log.Panic`, an index out of range and the endless mask-extension loop
  become `Err` values (`MaskError`, `BuildError`).
- A base64 decode failure gives the empty request, as in the source.
- A token without a signature part can make genJwtMask write past the
  mask, and the model reports this as the source panics: the mask is only
  as long as the token, while the payload's last base64 group is completed
  by the '=' the code appends. With a signature part this cannot happen.
- Each loop of the source is a `method` with loop invariants, proved equal
  to a specification function. The lemmas then state what that function
  means.
- The mask buffer, which the source writes element by element, is an
  `array<nat>` in `FieldMasker.SetRange` and `FieldMasker.MarkField`.

## Model

| member | source | states |
|---|---|---|
| BitCodec.ToBits | pkg/server/proof_utils.go:18-29 | the loop emits exactly the big-endian bit expansion `BytesToBits` of its input |
| BitCodec.BytesToBitsShape | pkg/server/proof_utils.go:18-29 | the expansion has 8 bits per byte, each 0 or 1; bit 8j+i is bit 7-i of byte j (most significant first) |
| BitCodec.BytesRoundTrip | pkg/server/proof_utils.go:18-40 | the eight bits of byte j read back as a big-endian number give byte j: `fromBits(toBits([b])) == b` |
| BitCodec.WordRoundTrip | pkg/server/proof_utils.go:18-40 | the 16 bits of two consecutive bytes read back as the big-endian value 256·hi + lo |
| BitCodec.FromBits | pkg/server/proof_utils.go:31-40 | the or-and-shift loop returns the big-endian value of the bits reduced to a 64-bit `uint` (shifts of 64 or more contribute nothing); with at most 64 bits the result is that value, below 2^len(bits) |
| BitCodec.ShiftInValue | pkg/server/proof_utils.go:33-38 | after i passes of the loop the accumulator holds the value of the last i bits modulo 2^64 |
| Sha256Padding.PadMessage | pkg/server/proof_utils.go:42-58 | the padding loop produces exactly `Padded(bits)` |
| Sha256Padding.PaddedShape | pkg/server/proof_utils.go:43-57 | padded = bits, then a 1, then K zeros, then the 64-bit big-endian length L; the total is a multiple of 512 and grows by 65 to 576 bits; 0/1 entries stay 0/1 |
| Sha256Padding.PaddedLength | pkg/server/proof_utils.go:43-57 | the padded length is a multiple of 512 and exceeds the message length by 65 to 576 bits; 0/1 entries stay 0/1 |
| Sha256Padding.PaddedPrefix | pkg/server/proof_utils.go:47 | padding is strictly longer than the message and keeps the message as its prefix |
| Sha256Padding.PaddedLengthField | pkg/server/proof_utils.go:53-55 | for a message shorter than 2^64 bits, the last 64 bits read back as its bit length |
| ChunkSegmenter.GenSha256Inputs | pkg/server/proof_utils.go:105-137 | the segments are the nWidth-bit windows of the padded message followed by zero windows up to nCount; tBlock is the window count over the windows per block, cut to 8 bits; `exceeded` holds exactly when there are more windows than nCount (corrected filler bound, see Findings) |
| ChunkSegmenter.CutWindows | pkg/server/proof_utils.go:110-117 | the chunk loop yields len(bits)/nWidth windows, window i being bits[i·nWidth .. (i+1)·nWidth] |
| ChunkSegmenter.ZeroWindow | pkg/server/proof_utils.go:123-126 | the zero segment is nWidth zeros |
| ChunkSegmenter.SegmentsShape | pkg/server/proof_utils.go:110-130 | max(nCount, chunks) segments, each nWidth bits wide; window i of the padded bits below chunks, zeros after; 0/1 entries when the padded bits are |
| ChunkSegmenter.RealSegmentsCover | pkg/server/proof_utils.go:111-117 | the windows laid end to end are the padded bits minus only the trailing len % nWidth bits the integer division drops |
| ChunkSegmenter.TBlockCountsBlocks | pkg/server/proof_utils.go:111-119 | when nWidth divides 512 nothing of the padded message is dropped and tBlock is its number of 512-bit blocks modulo 256 |
| ChunkSegmenter.GenSha256InputsAsWritten | pkg/server/proof_utils.go:105-137 | the function with its filler loop exactly as written: the windows followed by only ceil((nCount - chunks)/2) zero windows |
| ChunkSegmenter.FillAsWritten | pkg/server/proof_utils.go:127-129 | the loop whose bound is re-read after each append adds ceil((nCount - chunks)/2) zero windows and never overshoots nCount |
| ChunkSegmenter.FillerShortfall | pkg/server/proof_utils.go:127 | whenever at least two windows are missing, the as-written loop returns fewer than nCount segments, while the corrected one returns exactly nCount |
| ChunkSegmenter.EmptyMessageShortfall | pkg/server/proof_utils.go:127 | for the empty message with nCount 704 and nWidth 16, the as-written loop gives 368 segments and the corrected one 704 |
| GoStrings.IndexOf | pkg/server/proof_utils.go:69 | strings.Index: -1 exactly when the needle occurs nowhere; otherwise an occurrence with no earlier one |
| GoStrings.IndexOfSingle | pkg/server/proof_utils.go:74 | a one-byte needle is found at the first position holding it, and is -1 exactly when absent |
| GoStrings.Split | pkg/server/proof_utils.go:140 | strings.Split gives at least one piece, no piece contains the separator, and there is one piece exactly when the separator is absent |
| GoStrings.JoinSplit | pkg/server/proof_utils.go:140 | the pieces joined with the separator give the input back |
| GoStrings.JoinLength | pkg/server/proof_utils.go:140 | a token of two pieces is exactly the two pieces and one dot long; with three or more pieces it is at least one byte longer |
| GoStrings.SplitJoin | pkg/server/proof_utils.go:140 | separator-free pieces joined and split again give the pieces back |
| Base64.EncodeLength | pkg/server/proof_utils.go:81-86 | EncodeToString of n bytes is 4·ceil(n/3) characters |
| Base64.TrimmedLength | pkg/server/proof_utils.go:81-86 | after trimming at most two '=', the encoding of n bytes is ceil(4n/3) characters long |
| Base64.EncodeChars | pkg/server/proof_utils.go:81-86 | the encoding uses only the standard alphabet and '=' |
| Base64.DecodeEncode | pkg/server/proof_utils.go:142-147 | DecodeString(EncodeToString(b)) == b |
| Base64.UrlSafeCharsRejected | pkg/server/proof_utils.go:142-147 | a text holding '-' or '_' does not decode with the standard encoding |
| Base64.DecodeGroupsChars | pkg/server/proof_utils.go:142-147 | text that decodes holds only alphabet characters and '=' |
| Base64.DecodeGroupsSize | pkg/server/proof_utils.go:142-147 | newline-free text that decodes carries at most three bytes per four characters |
| Base64.DecodeLengthMultiple | pkg/server/proof_utils.go:142-147 | text that decodes is a multiple of four characters once CR/LF are removed |
| FieldMasker.LocateField | pkg/server/proof_utils.go:66-79 | the claim starts at the first occurrence of `"field":` and ends at the first comma after the key; a missing key is FieldKeyNotFound exactly when the key occurs nowhere, and a missing comma is CommaNotFound |
| FieldMasker.FindClaim | pkg/server/proof_utils.go:66-79 | the search in the loop body returns the claim `LocateField` describes, or its panic |
| FieldMasker.MaskRange | pkg/server/proof_utils.go:81-95 | the range starts at the first character of the base64 group holding the key's first byte, past the header and the dot, and ends at the last character of the group holding the byte before the comma; when that end reaches masklen it is clamped to header + masklen |
| FieldMasker.ClaimRange | pkg/server/proof_utils.go:81-95 | the encode, trim, floor/ceil and clamp steps compute the same group-aligned start and end as `MaskRange` |
| FieldMasker.SetRange | pkg/server/proof_utils.go:97-99 | the write loop sets positions lo..hi to 1 and leaves the rest; a non-empty range reaching past the mask fails at the first position past the buffer |
| FieldMasker.MarkField | pkg/server/proof_utils.go:66-99 | one pass of the field loop updates the mask exactly as `ApplyField` says, or fails with its panic |
| FieldMasker.GenJwtMask | pkg/server/proof_utils.go:60-103 | the method computes the `JwtMask` specification: masklen zeros, then every field's range set to 1, or the first panic |
| FieldMasker.MaskFieldsOk | pkg/server/proof_utils.go:66-100 | the field loop succeeds exactly when every field's range fits |
| FieldMasker.MaskFieldsValue | pkg/server/proof_utils.go:66-100 | on success each position is 1 exactly when some field covers it, and keeps its old value otherwise |
| FieldMasker.MaskFieldsErr | pkg/server/proof_utils.go:66-100 | on failure the error is that of the first field that does not fit, all earlier fields fitting |
| FieldMasker.JwtMaskMeaning | pkg/server/proof_utils.go:60-103 | genJwtMask succeeds iff every field fits; then the mask has masklen 0/1 entries and bit j is 1 iff some field's range covers j (so a later field never clears an earlier one); otherwise the error is the first failing field's |
| FieldMasker.RangeFits | pkg/server/proof_utils.go:81-99 | a field's range never runs past a mask longer than the header, the dot and the payload's whole base64 text: the field fails only on a missing key or comma |
| FieldMasker.MaskNoOverrun | pkg/server/proof_utils.go:60-103 | over such a mask, genJwtMask fails only with FieldKeyNotFound or CommaNotFound |
| FieldMasker.MissingKeyFails | pkg/server/proof_utils.go:69-72 | a field whose key occurs nowhere in the payload makes genJwtMask fail |
| JwtInputBuilder.GenJwtProofInputs | pkg/server/proof_utils.go:139-177 | the procedure computes `Build`: the empty request when a part does not decode, an error when there is no payload part or the mask panics, the overflow error when the decoded message exceeds nCount bytes, else the request |
| JwtInputBuilder.PackWords | pkg/server/proof_utils.go:164-167 | each segment becomes one word, `fromBits` of it |
| JwtInputBuilder.MessageWords | pkg/server/proof_utils.go:163-167 | genSha256Inputs with nCount 704 and nWidth 16, then fromBits on every segment: the words of the padded decoded message's 16-bit windows and zero filler, and its tBlock |
| JwtInputBuilder.ExtendMask | pkg/server/proof_utils.go:172-174 | the mask is extended with exactly n zeros |
| JwtInputBuilder.MessageWordsShape | pkg/server/proof_utils.go:160-167 | for a message of at most 704 bytes: exactly 704 words, each below 2^16; word i is window i of the padded message, zero past the windows |
| JwtInputBuilder.MessageWordPairs | pkg/server/proof_utils.go:160-167 | each word inside the message is two message bytes, big-endian: 256·decoded[2i] + decoded[2i+1] |
| JwtInputBuilder.MessageBlocks | pkg/server/proof_utils.go:119-163 | for a message of at most 704 bytes tBlock is the number of 512-bit blocks of the padded message, at most 12, so the 8-bit cut loses nothing |
| JwtInputBuilder.ExtendedMask | pkg/server/proof_utils.go:171-174 | the extended mask is the genJwtMask result followed by n zeros, all entries 0/1 |
| JwtInputBuilder.BuildSuccess | pkg/server/proof_utils.go:139-177 | a request built from a decodable token: at most 704 message bytes, payload and tBlock from the padded message, and a mask of len(token) + 704 - len(decoded) 0/1 entries, genJwtMask's result first and zeros after |
| JwtInputBuilder.AssembleSuccess | pkg/server/proof_utils.go:152-177 | the same facts once both parts have decoded |
| JwtInputBuilder.DecodeFailureGivesEmpty | pkg/server/proof_utils.go:142-151 | a header part that does not decode gives the empty request; so does a payload part that does not decode |
| JwtInputBuilder.SignedTokenNoOverrun | pkg/server/proof_utils.go:139-177 | for a token with a third (signature) part, genJwtProofInputs never fails with an index past the mask: a mask failure is a missing key or comma |
| JwtInputBuilder.TwoPartTokenOverrun | pkg/server/proof_utils.go:97-98 | the two-part token "ew.ImlzcyI6MCw" (header `{`, payload `"iss":0,`) gives a range 3..14 for "iss" in a 14-entry mask, so the write at mask[14] panics |
| JwtInputBuilder.UrlSafeHeaderGivesEmpty | pkg/server/proof_utils.go:142-146 | a header part holding a base64url character gives the empty request |
| JwtInputBuilder.UrlSafePayloadGivesEmpty | pkg/server/proof_utils.go:147-151 | a payload part holding a base64url character, after a decodable header, gives the empty request |
| JwtInputBuilder.DecodablePartLengths | pkg/server/proof_utils.go:142-147 | only a header part of length 2 mod 4 and a payload part of length 3 mod 4 (CR/LF aside) decode, because of the fixed "==" and "=" suffixes |

## Left out

- Printing, logging and the panic messages: a panic is an error value. The "exceeds maximum blocks" print is the `exceeded` result of `ChunkSegmenter.GenSha256Inputs`.
- `math.Floor` and `math.Ceil` over `float64` become integer division. The lengths involved are far below 2^53, so this is exact.
- 64-bit overflow of lengths and index sums (`headerLen + 1 + end`) is not modelled. The places where the width shows are modelled: fromBits' 64-bit word, the `uint8` tBlock, the wrap of `masklen - 1` when masklen is 0 (`FieldMasker.ClaimRange`), and the wrap of `nCount - len(decoded)` at line 172 (`MaskPaddingOverflow`).
- BitCodec.FromBits: requires its input to be 0/1 bits, which is all the source ever passes. It does not model how `|` combines wider values.
- `binary.BigEndian.PutUint64` followed by `toBits` is modelled directly as the 64 big-endian bits of the length (`UintBits`).
- JSON tags and the serialisation of `ProveRequest` are not modelled.
- The `zkp-server` example program (`main.go`) is not part of this model: HTTP handling, files and the prover subprocess are I/O outside the core.
- Base64 decoding is modelled as success or failure. Go's error offsets and messages are not modelled.
- The slice aliasing of `append(decodedHeader, decodedPayload...)` is not modelled. The decoded message is the value `header + payload`.
- The mask extension at line 172 loops forever (unsigned wrap) when the decoded message exceeds nCount bytes. It is modelled as the `MaskPaddingOverflow` error.
- FieldMasker.MaskRange: the clamp writes `masklen - 1` in payload positions. When a claim's group end reaches masklen, the clamped range overruns the mask, and the model reports this as `IndexOutOfRange`, as the source would panic. From `genJwtProofInputs` the clamp itself never fires, because a group end is at most the payload part's length plus one, which is less than the token's length. This is argued, not proved. The overrun without the clamp is proved reachable (`JwtInputBuilder.TwoPartTokenOverrun`).
- ChunkSegmenter.GenSha256Inputs: requires 0 < nWidth <= 512, and so do `TBlock` and the as-written method. Outside that range the source panics with an integer division by zero at line 111 (nWidth 0) or line 119 (nWidth over 512). The model does not represent that panic. The only caller passes 16.
- The source's filler loop at line 127 (see Findings) is modelled as written in `ChunkSegmenter.GenSha256InputsAsWritten`. `JwtInputBuilder.Build` uses the corrected count, which gives the 704 payload words the circuit expects.

## Findings

| source | as written | input that shows it | evidently intended | confidence | as-written member | corrected member |
|---|---|---|---|---|---|---|
| pkg/server/proof_utils.go:127 | the loop bound `nCount - len(segments)` is re-read after every append while `i` also grows, so only ceil((nCount - chunks)/2) zero windows are added | the empty decoded message with nCount 704 and nWidth 16: 32 windows plus 336 zero windows, 368 segments instead of 704 | segments padded with zero windows to exactly nCount | high, not executed | ChunkSegmenter.GenSha256InputsAsWritten | ChunkSegmenter.GenSha256Inputs |
