/**
 * genJwtMask: the bit mask over the characters of a compact JWT that marks
 * the base64 characters carrying each disclosed claim of the payload.
 *
 * For every field name the payload JSON is searched for the key `"name":`
 * and for the first comma after it; the bytes from the key to that comma
 * are the claim. Base64 turns each group of three payload bytes into four
 * characters, so the mask covers the whole four-character groups that hold
 * any byte of the claim, shifted past the header and the dot.
 */
module FieldMasker {
  import opened Wrappers
  import opened BitCodec
  import opened Base64
  import opened GoStrings

  /** The ways genJwtMask panics. */
  datatype MaskError =
    | FieldKeyNotFound           // "fieldKey not found"
    | CommaNotFound              // "comma after fieldKey not found"
    | IndexOutOfRange(index: nat) // mask[i] with i >= len(mask)

  /** Where a claim sits in the payload: from its key to the comma after it. */
  datatype Span = Span(keyStart: nat, valueEnd: nat)

  /** An inclusive range of mask positions; empty when lo > hi. */
  datatype Range = Range(lo: nat, hi: nat)

  const Quote: byte := 34
  const Colon: byte := 58
  const Comma: byte := 44

  /** The JSON key `"field":` searched for in the payload. */
  function FieldKey(field: seq<byte>): (key: seq<byte>)
    ensures |key| == |field| + 3
  {
    [Quote] + field + [Quote, Colon]
  }

  /**
   * The claim of `field`: the first occurrence of its key, and the first
   * comma after the key.
   */
  function LocateField(payload: seq<byte>, field: seq<byte>): (r: Result<Span, MaskError>)
    ensures r.Err? ==> r.error == FieldKeyNotFound || r.error == CommaNotFound
    ensures r == Err(FieldKeyNotFound) <==>
      forall k :: 0 <= k <= |payload| ==> !OccursAt(payload, FieldKey(field), k)
    ensures r.Ok? ==>
      var key, ks, ve := FieldKey(field), r.value.keyStart, r.value.valueEnd;
      && OccursAt(payload, key, ks)
      && (forall k :: 0 <= k < ks ==> !OccursAt(payload, key, k))
      && ks + |key| <= ve < |payload|
      && payload[ve] == Comma
      && Comma !in payload[ks + |key|..ve]
    ensures r == Err(CommaNotFound) ==>
      var key, ks := FieldKey(field), IndexOf(payload, FieldKey(field));
      && OccursAt(payload, key, ks)
      && Comma !in payload[ks + |key|..]
  {
    var key := FieldKey(field);
    var ks := IndexOf(payload, key);
    if ks == -1 then Err(FieldKeyNotFound)
    else
      var trimmed := payload[ks + |key|..];
      var ve := IndexOf(trimmed, [Comma]);
      IndexOfSingle(trimmed, Comma);
      if ve == -1 then Err(CommaNotFound)
      else
        assert trimmed[..ve] == payload[ks + |key|..ks + |key| + ve];
        Ok(Span(ks, ve + (|payload| - |trimmed|)))
  }

  // ---------------------------------------------------------------------------
  // Base64 group arithmetic

  /** The unpadded encoding of n = 3a + r bytes is 4a characters plus 0, 2 or 3. */
  lemma UnpaddedSplit(n: nat)
    ensures UnpaddedLength(n) == 4 * (n / 3) + (if n % 3 == 0 then 0 else n % 3 + 1)
  {
    var a, r := n / 3, n % 3;
    var c := if r == 0 then 0 else r + 1;
    assert 4 * n + 2 == 3 * (4 * a + c) + (4 * r + 2 - 3 * c);
    DivModUnique(4 * n + 2, 3, 4 * a + c, 4 * r + 2 - 3 * c);
  }

  /** The encoded prefix before byte ks, rounded down to whole groups, ends where group ks / 3 starts. */
  lemma GroupStart(ks: nat)
    ensures UnpaddedLength(ks) / 4 * 4 == 4 * (ks / 3)
  {
    UnpaddedSplit(ks);
    var c := UnpaddedLength(ks) - 4 * (ks / 3);
    DivModUnique(UnpaddedLength(ks), 4, ks / 3, c);
  }

  /**
   * The encoded prefix and the encoded claim, rounded up to whole groups,
   * end where the group after the one holding the claim's last byte starts.
   */
  lemma GroupEnd(ks: nat, n: nat)
    requires n >= 1
    ensures (UnpaddedLength(ks) + UnpaddedLength(n) - 1 + 3) / 4 * 4 == 4 * ((ks + n - 1) / 3) + 4
  {
    UnpaddedSplit(ks);
    UnpaddedSplit(n);
    var a, r1 := ks / 3, ks % 3;
    var b, r2 := n / 3, n % 3;
    var c1 := if r1 == 0 then 0 else r1 + 1;
    var c2 := if r2 == 0 then 0 else r2 + 1;
    var q := a + b;
    var sum := c1 + c2 + 2;
    assert UnpaddedLength(ks) + UnpaddedLength(n) - 1 + 3 == 4 * q + sum;
    DivModUnique(4 * q + sum, 4, q + sum / 4, sum % 4);
    var t := if r1 + r2 == 0 then -1 else if r1 + r2 == 4 then 1 else 0;
    DivModUnique(ks + n - 1, 3, q + t, r1 + r2 - 1 - 3 * t);
  }

  /** The group-rounded start and end of a claim spanning bytes ks up to ve. */
  lemma GroupBounds(ks: nat, ve: nat, leadLen: nat, targetLen: nat)
    requires ks < ve && leadLen == UnpaddedLength(ks) && targetLen == UnpaddedLength(ve - ks)
    ensures leadLen / 4 * 4 == 4 * (ks / 3)
    ensures (leadLen + targetLen - 1 + 3) / 4 * 4 == 4 * ((ve - 1) / 3) + 4
  {
    GroupStart(ks);
    GroupEnd(ks, ve - ks);
  }

  /**
   * The mask positions of a claim: from the first character of the group
   * holding its key's first byte to the last character of the group holding
   * the byte before the comma, past the header and the dot. When that end
   * reaches masklen, the end is clamped to masklen - 1 in payload
   * positions, which puts it past the mask once the header is added.
   */
  function MaskRange(headerLen: nat, masklen: nat, payload: seq<byte>, span: Span): (r: Range)
    requires span.keyStart < span.valueEnd <= |payload|
    ensures r.lo == headerLen + 1 + 4 * (span.keyStart / 3)
    ensures 4 * ((span.valueEnd - 1) / 3) + 4 < masklen ==>
      r.hi == headerLen + 1 + 4 * ((span.valueEnd - 1) / 3) + 3
    ensures 4 * ((span.valueEnd - 1) / 3) + 4 >= masklen ==> r.hi == headerLen + masklen
  {
    var lead := TrimPadding(Encode(payload[0..span.keyStart]));
    var target := TrimPadding(Encode(payload[span.keyStart..span.valueEnd]));
    TrimmedLength(payload[0..span.keyStart]);
    TrimmedLength(payload[span.keyStart..span.valueEnd]);
    GroupBounds(span.keyStart, span.valueEnd, |lead|, |target|);
    var start := |lead| / 4 * 4;
    var end := (|lead + target| - 1 + 3) / 4 * 4;
    var last: int := if end >= masklen then masklen - 1 else end - 1;
    Range(headerLen + 1 + start, headerLen + 1 + last)
  }

  /**
   * The mask positions of one field, or the panic: a missing key, a
   * missing comma, or a non-empty range that runs past the mask.
   */
  function FieldRange(headerLen: nat, masklen: nat, payload: seq<byte>, field: seq<byte>): Result<Range, MaskError>
  {
    match LocateField(payload, field)
    case Err(e) => Err(e)
    case Ok(span) =>
      var rg := MaskRange(headerLen, masklen, payload, span);
      if rg.lo <= rg.hi && rg.hi >= masklen then Err(IndexOutOfRange(Max(rg.lo, masklen)))
      else Ok(rg)
  }

  /** The mask with positions lo..hi set to 1. */
  function SetOnes(m: seq<nat>, lo: int, hi: int): seq<nat>
  {
    seq(|m|, j requires 0 <= j < |m| => if lo <= j <= hi then 1 else m[j])
  }

  /** One pass of the field loop. */
  function ApplyField(m: seq<nat>, headerLen: nat, payload: seq<byte>, field: seq<byte>): Result<seq<nat>, MaskError>
  {
    match FieldRange(headerLen, |m|, payload, field)
    case Err(e) => Err(e)
    case Ok(rg) => Ok(SetOnes(m, rg.lo, rg.hi))
  }

  /** The field loop, from the mask built so far. */
  function MaskFields(m: seq<nat>, headerLen: nat, payload: seq<byte>, fields: seq<seq<byte>>): Result<seq<nat>, MaskError>
    decreases |fields|
  {
    if |fields| == 0 then Ok(m)
    else match ApplyField(m, headerLen, payload, fields[0])
      case Err(e) => Err(e)
      case Ok(m') => MaskFields(m', headerLen, payload, fields[1..])
  }

  /** genJwtMask: masklen zeros, then every field's range set to 1. */
  function JwtMask(headerLen: nat, payload: seq<byte>, masklen: nat, fields: seq<seq<byte>>): Result<seq<nat>, MaskError>
  {
    MaskFields(Zeros(masklen), headerLen, payload, fields)
  }

  // ---------------------------------------------------------------------------
  // What the mask is

  predicate Covers(rg: Range, j: int)
  {
    rg.lo <= j <= rg.hi
  }

  /** Position j lies in the range of one of the fields. */
  predicate Covered(headerLen: nat, masklen: nat, payload: seq<byte>, fields: seq<seq<byte>>, j: int)
  {
    exists k :: 0 <= k < |fields| && FieldRange(headerLen, masklen, payload, fields[k]).Ok?
      && Covers(FieldRange(headerLen, masklen, payload, fields[k]).value, j)
  }

  /** Field k is the first whose range does not fit, failing with e. */
  predicate FirstFailure(headerLen: nat, masklen: nat, payload: seq<byte>, fields: seq<seq<byte>>, k: int, e: MaskError)
  {
    && 0 <= k < |fields|
    && FieldRange(headerLen, masklen, payload, fields[k]) == Err(e)
    && AllFit(headerLen, masklen, payload, fields[..k])
  }

  /** Every field's range fits. */
  predicate AllFit(headerLen: nat, masklen: nat, payload: seq<byte>, fields: seq<seq<byte>>)
  {
    forall k :: 0 <= k < |fields| ==> FieldRange(headerLen, masklen, payload, fields[k]).Ok?
  }

  /** Covered splits into the first field and the rest. */
  lemma CoveredCons(headerLen: nat, masklen: nat, payload: seq<byte>, fields: seq<seq<byte>>, j: int)
    requires |fields| > 0
    ensures var f := FieldRange(headerLen, masklen, payload, fields[0]);
      Covered(headerLen, masklen, payload, fields, j) <==>
        (f.Ok? && Covers(f.value, j)) || Covered(headerLen, masklen, payload, fields[1..], j)
  {
    if Covered(headerLen, masklen, payload, fields, j) {
      var k :| 0 <= k < |fields| && FieldRange(headerLen, masklen, payload, fields[k]).Ok?
        && Covers(FieldRange(headerLen, masklen, payload, fields[k]).value, j);
      if k > 0 {
        assert fields[1..][k - 1] == fields[k];
      }
    }
    if Covered(headerLen, masklen, payload, fields[1..], j) {
      var k :| 0 <= k < |fields| - 1 && FieldRange(headerLen, masklen, payload, fields[1..][k]).Ok?
        && Covers(FieldRange(headerLen, masklen, payload, fields[1..][k]).value, j);
      assert fields[1..][k] == fields[k + 1];
    }
  }

  /** AllFit splits into the first field and the rest. */
  lemma AllFitCons(headerLen: nat, masklen: nat, payload: seq<byte>, fields: seq<seq<byte>>)
    requires |fields| > 0
    ensures AllFit(headerLen, masklen, payload, fields) <==>
      FieldRange(headerLen, masklen, payload, fields[0]).Ok? && AllFit(headerLen, masklen, payload, fields[1..])
  {
    if FieldRange(headerLen, masklen, payload, fields[0]).Ok? && AllFit(headerLen, masklen, payload, fields[1..]) {
      forall k | 1 <= k < |fields|
        ensures FieldRange(headerLen, masklen, payload, fields[k]).Ok?
      {
        assert fields[k] == fields[1..][k - 1];
      }
    }
  }

  /** The field loop succeeds exactly when every field's range fits. */
  lemma {:induction false} MaskFieldsOk(m: seq<nat>, headerLen: nat, payload: seq<byte>, fields: seq<seq<byte>>)
    ensures MaskFields(m, headerLen, payload, fields).Ok? <==> AllFit(headerLen, |m|, payload, fields)
    decreases |fields|
  {
    if |fields| > 0 {
      AllFitCons(headerLen, |m|, payload, fields);
      var f := FieldRange(headerLen, |m|, payload, fields[0]);
      if f.Ok? {
        MaskFieldsOk(SetOnes(m, f.value.lo, f.value.hi), headerLen, payload, fields[1..]);
      }
    }
  }

  /** On success the field loop sets to 1 exactly the positions some field covers. */
  lemma {:induction false} MaskFieldsValue(m: seq<nat>, headerLen: nat, payload: seq<byte>, fields: seq<seq<byte>>)
    requires MaskFields(m, headerLen, payload, fields).Ok?
    ensures var v := MaskFields(m, headerLen, payload, fields).value;
      && |v| == |m|
      && forall j :: 0 <= j < |m| ==> v[j] == if Covered(headerLen, |m|, payload, fields, j) then 1 else m[j]
    decreases |fields|
  {
    if |fields| > 0 {
      var f := FieldRange(headerLen, |m|, payload, fields[0]);
      var m' := SetOnes(m, f.value.lo, f.value.hi);
      MaskFieldsValue(m', headerLen, payload, fields[1..]);
      forall j | 0 <= j < |m|
        ensures MaskFields(m, headerLen, payload, fields).value[j] ==
          if Covered(headerLen, |m|, payload, fields, j) then 1 else m[j]
      {
        CoveredCons(headerLen, |m|, payload, fields, j);
      }
    }
  }

  /** A first failure among the later fields, after a first field that fits, is a first failure of all. */
  lemma FirstFailureCons(headerLen: nat, masklen: nat, payload: seq<byte>, fields: seq<seq<byte>>, k: int, e: MaskError)
    requires |fields| > 0 && FieldRange(headerLen, masklen, payload, fields[0]).Ok?
    requires FirstFailure(headerLen, masklen, payload, fields[1..], k, e)
    ensures FirstFailure(headerLen, masklen, payload, fields, k + 1, e)
  {
    assert fields[1..][k] == fields[k + 1];
    assert fields[..k + 1][1..] == fields[1..][..k];
    AllFitCons(headerLen, masklen, payload, fields[..k + 1]);
  }

  /** On failure the error is that of the first field that does not fit. */
  lemma {:induction false} MaskFieldsErr(m: seq<nat>, headerLen: nat, payload: seq<byte>, fields: seq<seq<byte>>)
    requires MaskFields(m, headerLen, payload, fields).Err?
    ensures exists k :: FirstFailure(headerLen, |m|, payload, fields, k, MaskFields(m, headerLen, payload, fields).error)
    decreases |fields|
  {
    var e := MaskFields(m, headerLen, payload, fields).error;
    var f := FieldRange(headerLen, |m|, payload, fields[0]);
    if f.Ok? {
      var m' := SetOnes(m, f.value.lo, f.value.hi);
      MaskFieldsErr(m', headerLen, payload, fields[1..]);
      var k :| FirstFailure(headerLen, |m|, payload, fields[1..], k, e);
      FirstFailureCons(headerLen, |m|, payload, fields, k, e);
    } else {
      assert AllFit(headerLen, |m|, payload, fields[..0]);
      assert FirstFailure(headerLen, |m|, payload, fields, 0, e);
    }
  }

  /**
   * The mask genJwtMask returns: it fails exactly when some field's key or
   * comma is missing or its range runs past the mask, with the first such
   * field's error; otherwise it has masklen bits, set exactly at the
   * positions some field's range covers.
   */
  lemma JwtMaskMeaning(headerLen: nat, payload: seq<byte>, masklen: nat, fields: seq<seq<byte>>)
    ensures JwtMask(headerLen, payload, masklen, fields).Ok? <==> AllFit(headerLen, masklen, payload, fields)
    ensures var r := JwtMask(headerLen, payload, masklen, fields);
      r.Ok? ==> (
        && |r.value| == masklen
        && IsBits(r.value)
        && forall j :: 0 <= j < masklen ==> (r.value[j] == 1 <==> Covered(headerLen, masklen, payload, fields, j)))
    ensures var r := JwtMask(headerLen, payload, masklen, fields);
      r.Err? ==> exists k :: FirstFailure(headerLen, masklen, payload, fields, k, r.error)
  {
    var r := JwtMask(headerLen, payload, masklen, fields);
    MaskFieldsOk(Zeros(masklen), headerLen, payload, fields);
    if r.Ok? {
      MaskFieldsValue(Zeros(masklen), headerLen, payload, fields);
    } else {
      MaskFieldsErr(Zeros(masklen), headerLen, payload, fields);
    }
  }

  /** A field whose key is absent from the payload makes genJwtMask fail. */
  lemma MissingKeyFails(headerLen: nat, payload: seq<byte>, masklen: nat, fields: seq<seq<byte>>, k: nat)
    requires k < |fields|
    requires forall i :: 0 <= i <= |payload| ==> !OccursAt(payload, FieldKey(fields[k]), i)
    ensures JwtMask(headerLen, payload, masklen, fields).Err?
  {
    JwtMaskMeaning(headerLen, payload, masklen, fields);
    assert LocateField(payload, fields[k]) == Err(FieldKeyNotFound);
  }

  /**
   * A claim range fits a mask that reaches past the header, the dot and
   * the whole base64 text of the payload: when that text has textLen
   * characters in whole groups of four, with at most three payload bytes
   * per group, the field never fails with IndexOutOfRange.
   */
  lemma RangeFits(headerLen: nat, masklen: nat, payload: seq<byte>, field: seq<byte>, textLen: nat)
    requires 4 * |payload| <= 3 * textLen && textLen % 4 == 0
    requires headerLen + textLen < masklen
    ensures var f := FieldRange(headerLen, masklen, payload, field);
      f.Err? ==> f.error == FieldKeyNotFound || f.error == CommaNotFound
  {
    var located := LocateField(payload, field);
    if located.Ok? {
      var ve := located.value.valueEnd;
      GroupEndWithin(ve, |payload|, textLen);
    }
  }

  /** genJwtMask over a mask longer than the header, the dot and the payload's text fails only on a missing key or comma. */
  lemma MaskNoOverrun(headerLen: nat, payload: seq<byte>, masklen: nat, fields: seq<seq<byte>>, textLen: nat)
    requires 4 * |payload| <= 3 * textLen && textLen % 4 == 0
    requires headerLen + textLen < masklen
    ensures var m := JwtMask(headerLen, payload, masklen, fields);
      m.Err? ==> m.error == FieldKeyNotFound || m.error == CommaNotFound
  {
    var m := JwtMask(headerLen, payload, masklen, fields);
    if m.Err? {
      JwtMaskMeaning(headerLen, payload, masklen, fields);
      var k :| FirstFailure(headerLen, masklen, payload, fields, k, m.error);
      RangeFits(headerLen, masklen, payload, fields[k], textLen);
    }
  }

  /** The group holding byte ve - 1 of an n-byte payload ends inside its textLen-character encoding. */
  lemma GroupEndWithin(ve: nat, n: nat, textLen: nat)
    requires 1 <= ve < n && 4 * n <= 3 * textLen && textLen % 4 == 0
    ensures 4 * ((ve - 1) / 3) + 4 <= textLen
  {
    var q, k := (ve - 1) / 3, textLen / 4;
    assert 3 * q <= ve - 1;
    assert textLen == 4 * k;
    assert 12 * q + 8 <= 12 * k;
  }

  // ---------------------------------------------------------------------------
  // The source's loops

  /**
   * The source's write loop: positions lo..hi set one by one; the first
   * position past the buffer is the panic.
   */
  method SetRange(mask: array<nat>, lo: nat, hi: int) returns (err: Option<MaskError>)
    modifies mask
    ensures lo <= hi && hi >= mask.Length ==> err == Some(IndexOutOfRange(Max(lo, mask.Length)))
    ensures !(lo <= hi && hi >= mask.Length) ==> err == None && mask[..] == SetOnes(old(mask[..]), lo, hi)
  {
    ghost var m0 := mask[..];
    var i := lo;
    while i <= hi
      invariant lo <= i && (i <= hi + 1 || i == lo)
      invariant i == lo || i <= mask.Length
      invariant mask[..] == SetOnes(m0, lo, i - 1)
      decreases hi + 1 - i
    {
      if i >= mask.Length {
        return Some(IndexOutOfRange(i));
      }
      mask[i] := 1;
      i := i + 1;
    }
    assert mask[..] == SetOnes(m0, lo, hi);
    return None;
  }

  /**
   * The character positions of the claim at payload[keyStart..fieldEnd]:
   * through the lengths of the unpadded base64 encodings of the bytes before
   * it and of the claim, rounded out to whole groups, then clamped.
   */
  method ClaimRange(headerLen: nat, masklen: nat, payload: seq<byte>, fieldKeyStart: nat, fieldEnd: nat)
    returns (lo: nat, hi: nat)
    requires fieldKeyStart < fieldEnd <= |payload|
    ensures lo == headerLen + 1 + 4 * (fieldKeyStart / 3)
    ensures 4 * ((fieldEnd - 1) / 3) + 4 < masklen ==> hi == headerLen + 1 + 4 * ((fieldEnd - 1) / 3) + 3
    ensures 4 * ((fieldEnd - 1) / 3) + 4 >= masklen ==> hi == headerLen + masklen
  {
    var lead := TrimPadding(Encode(payload[0..fieldKeyStart]));
    var target := TrimPadding(Encode(payload[fieldKeyStart..fieldEnd]));
    TrimmedLength(payload[0..fieldKeyStart]);
    TrimmedLength(payload[fieldKeyStart..fieldEnd]);
    GroupBounds(fieldKeyStart, fieldEnd, |lead|, |target|);
    var start := |lead| / 4 * 4;
    var end := (|lead + target| - 1 + 3) / 4 * 4;
    // With masklen == 0 the source's uint64 end wraps to 2^64 - 1 and
    // headerLen + 1 + end wraps to headerLen: the same empty loop as here.
    if end >= masklen {
      end := masklen - 1;
    } else {
      end := end - 1;
    }
    lo := headerLen + 1 + start;
    hi := headerLen + 1 + end;
  }

  /** The search for a field's key and for the comma after it. */
  method FindClaim(payload: seq<byte>, field: seq<byte>) returns (r: Result<Span, MaskError>)
    ensures r == LocateField(payload, field)
  {
    var fieldKey := FieldKey(field);
    var fieldKeyStart := IndexOf(payload, fieldKey);
    if fieldKeyStart == -1 {
      return Err(FieldKeyNotFound);
    }
    var trimmedInput := payload[fieldKeyStart + |fieldKey|..];
    var fieldValueEnd := IndexOf(trimmedInput, [Comma]);
    if fieldValueEnd == -1 {
      return Err(CommaNotFound);
    }
    var trimmedLen := |payload| - |trimmedInput|;
    var fieldEnd := fieldValueEnd + trimmedLen;
    return Ok(Span(fieldKeyStart, fieldEnd));
  }

  /**
   * One pass of the field loop on the mask buffer: locate the claim, turn
   * its byte positions into character positions, and set them one by one.
   * A panic is returned as the error; the buffer is then left part-written.
   */
  method MarkField(mask: array<nat>, headerLen: nat, payload: seq<byte>, field: seq<byte>)
    returns (err: Option<MaskError>)
    modifies mask
    ensures ApplyField(old(mask[..]), headerLen, payload, field).Ok? ==>
      err == None && mask[..] == ApplyField(old(mask[..]), headerLen, payload, field).value
    ensures ApplyField(old(mask[..]), headerLen, payload, field).Err? ==>
      err == Some(ApplyField(old(mask[..]), headerLen, payload, field).error)
  {
    var claim := FindClaim(payload, field);
    if claim.Err? {
      return Some(claim.error);
    }
    var lo, hi := ClaimRange(headerLen, mask.Length, payload, claim.value.keyStart, claim.value.valueEnd);
    assert Range(lo, hi) == MaskRange(headerLen, mask.Length, payload, claim.value);
    err := SetRange(mask, lo, hi);
  }

  /** genJwtMask on a mask buffer of masklen positions. */
  method GenJwtMask(headerLen: nat, payload: seq<byte>, masklen: nat, fields: seq<seq<byte>>)
    returns (r: Result<seq<nat>, MaskError>)
    ensures r == JwtMask(headerLen, payload, masklen, fields)
  {
    var mask := new nat[masklen];
    for i := 0 to masklen
      invariant forall j :: 0 <= j < i ==> mask[j] == 0
    {
      mask[i] := 0;
    }
    assert mask[..] == Zeros(masklen);
    for k := 0 to |fields|
      invariant mask.Length == masklen
      invariant JwtMask(headerLen, payload, masklen, fields) == MaskFields(mask[..], headerLen, payload, fields[k..])
    {
      assert fields[k..][1..] == fields[k + 1..];
      var err := MarkField(mask, headerLen, payload, fields[k]);
      if err.Some? {
        return Err(err.value);
      }
    }
    return Ok(mask[..]);
  }
}
