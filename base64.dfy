/**
 * The standard base64 alphabet with '=' padding, as Go's
 * `base64.StdEncoding` uses it: the encoder behind `EncodeToString` and the
 * non-strict decoder behind `DecodeString` (carriage returns and line feeds
 * are skipped, padding is required, unused low bits of the last group are
 * ignored).
 */
module Base64 {
  import opened Wrappers
  import opened BitCodec

  /** The padding character '='. */
  const Pad: byte := 61

  /** A character of the standard alphabet: A-Z, a-z, 0-9, '+', '/'. */
  predicate IsSextetChar(c: byte)
  {
    (65 <= c <= 90) || (97 <= c <= 122) || (48 <= c <= 57) || c == 43 || c == 47
  }

  /** The character encoding the six-bit value `v`. */
  function EncodeSextet(v: nat): byte
    requires v < 64
  {
    if v < 26 then 65 + v
    else if v < 52 then 97 + (v - 26)
    else if v < 62 then 48 + (v - 52)
    else if v == 62 then 43
    else 47
  }

  /** The six-bit value of an alphabet character. */
  function DecodeSextet(c: byte): nat
    requires IsSextetChar(c)
  {
    if 65 <= c <= 90 then c - 65
    else if 97 <= c <= 122 then c - 97 + 26
    else if 48 <= c <= 57 then c - 48 + 52
    else if c == 43 then 62
    else 63
  }

  /** Every six-bit value has a character that decodes back to it. */
  lemma SextetRoundTrip(v: nat)
    requires v < 64
    ensures IsSextetChar(EncodeSextet(v)) && DecodeSextet(EncodeSextet(v)) == v
  {
  }

  // ---------------------------------------------------------------------------
  // Encoding

  /**
   * The four characters of a three-byte group: the 24 bits x y z cut into
   * four six-bit fields, most significant first.
   */
  function EncodeGroup(x: byte, y: byte, z: byte): seq<byte>
  {
    [EncodeSextet(x / 4), EncodeSextet(x % 4 * 16 + y / 16),
     EncodeSextet(y % 16 * 4 + z / 64), EncodeSextet(z % 64)]
  }

  /**
   * EncodeToString: whole groups, then a last group of one byte (two
   * characters and "==") or two bytes (three characters and "=").
   */
  function Encode(b: seq<byte>): seq<byte>
    decreases |b|
  {
    if |b| == 0 then []
    else if |b| == 1 then EncodeGroup(b[0], 0, 0)[..2] + [Pad, Pad]
    else if |b| == 2 then EncodeGroup(b[0], b[1], 0)[..3] + [Pad]
    else EncodeGroup(b[0], b[1], b[2]) + Encode(b[3..])
  }

  /** strings.TrimSuffix(s, "="). */
  function TrimPad(s: seq<byte>): (r: seq<byte>)
  {
    if |s| > 0 && s[|s| - 1] == Pad then s[..|s| - 1] else s
  }

  /** The source's two TrimSuffix(_, "=") calls in a row. */
  function TrimPadding(s: seq<byte>): seq<byte>
  {
    TrimPad(TrimPad(s))
  }

  /** The length of the unpadded encoding of n bytes: ceil(4n / 3). */
  function UnpaddedLength(n: nat): nat
  {
    (4 * n + 2) / 3
  }

  /** An encoding holds four characters for every started group of three bytes. */
  lemma {:induction false} EncodeLength(b: seq<byte>)
    ensures |Encode(b)| == 4 * ((|b| + 2) / 3)
    decreases |b|
  {
    if |b| >= 3 {
      EncodeLength(b[3..]);
      GroupMore(|b| - 3);
    }
  }

  lemma GroupMore(n: nat)
    ensures 4 * ((n + 3 + 2) / 3) == 4 + 4 * ((n + 2) / 3)
  {
  }

  /** An encoding holds only alphabet characters and '='. */
  lemma {:induction false} EncodeChars(b: seq<byte>)
    ensures AlphabetOnly(Encode(b))
    decreases |b|
  {
    if |b| >= 3 {
      EncodeChars(b[3..]);
      SextetRoundTrip(b[0] / 4);
      SextetRoundTrip(b[0] % 4 * 16 + b[1] / 16);
      SextetRoundTrip(b[1] % 16 * 4 + b[2] / 64);
      SextetRoundTrip(b[2] % 64);
      AlphabetAppend(EncodeGroup(b[0], b[1], b[2]), Encode(b[3..]));
    } else if |b| > 0 {
      var y := if |b| == 2 then b[1] else 0;
      SextetRoundTrip(b[0] / 4);
      SextetRoundTrip(b[0] % 4 * 16 + y / 16);
      SextetRoundTrip(y % 16 * 4);
    }
  }

  /** Alphabet-only pieces make an alphabet-only whole. */
  lemma AlphabetAppend(a: seq<byte>, c: seq<byte>)
    requires AlphabetOnly(a) && AlphabetOnly(c)
    ensures AlphabetOnly(a + c)
  {
    forall i | |a| <= i < |a + c|
      ensures IsSextetChar((a + c)[i]) || (a + c)[i] == Pad
    {
      assert (a + c)[i] == c[i - |a|];
    }
  }

  /** Trimming one '=' only looks at the last character. */
  lemma TrimPadAppend(head: seq<byte>, tail: seq<byte>)
    requires |tail| > 0
    ensures TrimPad(head + tail) == head + TrimPad(tail)
  {
    var s := head + tail;
    assert s[|s| - 1] == tail[|tail| - 1];
    if tail[|tail| - 1] == Pad {
      assert s[..|s| - 1] == head + tail[..|tail| - 1];
    }
  }

  /** Trimming the padding off an encoding leaves ceil(4n / 3) characters. */
  lemma {:induction false} TrimmedLength(b: seq<byte>)
    ensures |TrimPadding(Encode(b))| == UnpaddedLength(|b|)
    decreases |b|
  {
    if |b| >= 3 {
      var head := EncodeGroup(b[0], b[1], b[2]);
      var tail := Encode(b[3..]);
      assert Encode(b) == head + tail;
      TrimmedLength(b[3..]);
      EncodeLength(b[3..]);
      if |tail| == 0 {
        SextetRoundTrip(b[2] % 64);
        assert head + tail == head;
        assert head[3] != Pad;
      } else {
        TrimPadAppend(head, tail);
        TrimPadAppend(head, TrimPad(tail));
      }
    } else if |b| > 0 {
      var y := if |b| == 2 then b[1] else 0;
      SextetRoundTrip(b[0] % 4 * 16 + y / 16);
      SextetRoundTrip(y % 16 * 4);
    }
  }

  // ---------------------------------------------------------------------------
  // Decoding

  /** The input with every carriage return and line feed removed. */
  function StripNewlines(s: seq<byte>): (r: seq<byte>)
    ensures |r| <= |s|
    ensures forall i :: 0 <= i < |r| ==> r[i] != 10 && r[i] != 13
  {
    if |s| == 0 then []
    else if s[0] == 10 || s[0] == 13 then StripNewlines(s[1..])
    else [s[0]] + StripNewlines(s[1..])
  }

  /** The three bytes a full group of four sextets carries. */
  function DecodeGroup(a: nat, b: nat, c: nat, d: nat): seq<byte>
    requires a < 64 && b < 64 && c < 64 && d < 64
  {
    [a * 4 + b / 16, b % 16 * 16 + c / 4, c % 4 * 64 + d]
  }

  /**
   * Decoding of a newline-free input, group by group. Padding may appear
   * only in the last group, as "xx==" (one byte) or "xxx=" (two bytes); an
   * incomplete last group, padding in the first two places, a character
   * outside the alphabet or anything after the padding is an error.
   */
  function DecodeGroups(t: seq<byte>): Option<seq<byte>>
    decreases |t|
  {
    if |t| == 0 then Some([])
    else if |t| < 4 then None
    else if IsSextetChar(t[0]) && IsSextetChar(t[1]) && IsSextetChar(t[2]) && IsSextetChar(t[3]) then
      var group := DecodeGroup(DecodeSextet(t[0]), DecodeSextet(t[1]), DecodeSextet(t[2]), DecodeSextet(t[3]));
      match DecodeGroups(t[4..])
      case None => None
      case Some(rest) => Some(group + rest)
    else if |t| == 4 && IsSextetChar(t[0]) && IsSextetChar(t[1]) && t[2] == Pad && t[3] == Pad then
      Some(DecodeGroup(DecodeSextet(t[0]), DecodeSextet(t[1]), 0, 0)[..1])
    else if |t| == 4 && IsSextetChar(t[0]) && IsSextetChar(t[1]) && IsSextetChar(t[2]) && t[3] == Pad then
      Some(DecodeGroup(DecodeSextet(t[0]), DecodeSextet(t[1]), DecodeSextet(t[2]), 0)[..2])
    else None
  }

  /** DecodeString: newlines are skipped wherever they appear. */
  function Decode(s: seq<byte>): Option<seq<byte>>
  {
    DecodeGroups(StripNewlines(s))
  }

  /** The first byte of a group comes back from its first two sextets. */
  lemma FirstByteBack(x: byte, y: byte)
    ensures x / 4 * 4 + (x % 4 * 16 + y / 16) / 16 == x
  {
    DivModUnique(x % 4 * 16 + y / 16, 16, x % 4, y / 16);
  }

  /** The second byte of a group comes back from its second and third sextets. */
  lemma SecondByteBack(x: byte, y: byte, z: byte)
    ensures (x % 4 * 16 + y / 16) % 16 * 16 + (y % 16 * 4 + z / 64) / 4 == y
  {
    DivModUnique(x % 4 * 16 + y / 16, 16, x % 4, y / 16);
    DivModUnique(y % 16 * 4 + z / 64, 4, y % 16, z / 64);
  }

  /** The third byte of a group comes back from its last two sextets. */
  lemma ThirdByteBack(y: byte, z: byte)
    ensures (y % 16 * 4 + z / 64) % 4 * 64 + z % 64 == z
  {
    DivModUnique(y % 16 * 4 + z / 64, 4, y % 16, z / 64);
  }

  /** A group of three bytes survives encoding and decoding. */
  lemma GroupRoundTrip(x: byte, y: byte, z: byte)
    ensures var e := EncodeGroup(x, y, z);
      && IsSextetChar(e[0]) && IsSextetChar(e[1]) && IsSextetChar(e[2]) && IsSextetChar(e[3])
      && DecodeGroup(DecodeSextet(e[0]), DecodeSextet(e[1]), DecodeSextet(e[2]), DecodeSextet(e[3])) == [x, y, z]
  {
    var a, b, c, d := x / 4, x % 4 * 16 + y / 16, y % 16 * 4 + z / 64, z % 64;
    SextetRoundTrip(a);
    SextetRoundTrip(b);
    SextetRoundTrip(c);
    SextetRoundTrip(d);
    FirstByteBack(x, y);
    SecondByteBack(x, y, z);
    ThirdByteBack(y, z);
    assert DecodeGroup(a, b, c, d) == [x, y, z];
  }

  /** An encoding holds no newline, so decoding sees it unchanged. */
  lemma {:induction false} StripNoNewlines(s: seq<byte>)
    requires forall i :: 0 <= i < |s| ==> s[i] != 10 && s[i] != 13
    ensures StripNewlines(s) == s
  {
    if |s| > 0 {
      StripNoNewlines(s[1..]);
      assert [s[0]] + s[1..] == s;
    }
  }

  /** The decoding of a last group "xxx=". */
  lemma DecodeTwoByteGroup(t: seq<byte>)
    requires |t| == 4 && IsSextetChar(t[0]) && IsSextetChar(t[1]) && IsSextetChar(t[2]) && t[3] == Pad
    ensures DecodeGroups(t) == Some(DecodeGroup(DecodeSextet(t[0]), DecodeSextet(t[1]), DecodeSextet(t[2]), 0)[..2])
  {
  }

  /** The decoding of a last group "xx==". */
  lemma DecodeOneByteGroup(t: seq<byte>)
    requires |t| == 4 && IsSextetChar(t[0]) && IsSextetChar(t[1]) && t[2] == Pad && t[3] == Pad
    ensures DecodeGroups(t) == Some(DecodeGroup(DecodeSextet(t[0]), DecodeSextet(t[1]), 0, 0)[..1])
  {
  }

  /** A last group of two bytes, "xxx=", decodes back to them. */
  lemma TwoByteGroupRoundTrip(x: byte, y: byte)
    ensures DecodeGroups(Encode([x, y])) == Some([x, y])
  {
    var e := EncodeGroup(x, y, 0);
    GroupRoundTrip(x, y, 0);
    var t := [e[0], e[1], e[2], Pad];
    assert Encode([x, y]) == t;
    DecodeTwoByteGroup(t);
    assert DecodeSextet(e[3]) == 0;
    var g := DecodeGroup(DecodeSextet(t[0]), DecodeSextet(t[1]), DecodeSextet(t[2]), 0);
    assert g == [x, y, 0];
    assert g[..2] == [x, y];
  }

  /** A last group of one byte, "xx==", decodes back to it. */
  lemma OneByteGroupRoundTrip(x: byte)
    ensures DecodeGroups(Encode([x])) == Some([x])
  {
    var e := EncodeGroup(x, 0, 0);
    GroupRoundTrip(x, 0, 0);
    var t := [e[0], e[1], Pad, Pad];
    assert Encode([x]) == t;
    DecodeOneByteGroup(t);
    assert DecodeSextet(e[2]) == 0 && DecodeSextet(e[3]) == 0;
    var g := DecodeGroup(DecodeSextet(t[0]), DecodeSextet(t[1]), 0, 0);
    assert g == [x, 0, 0];
    assert g[..1] == [x];
  }

  /** A full group in front decodes to its three bytes in front. */
  lemma DecodeFullGroup(head: seq<byte>, tail: seq<byte>, rest: seq<byte>)
    requires |head| == 4 && IsSextetChar(head[0]) && IsSextetChar(head[1])
    requires IsSextetChar(head[2]) && IsSextetChar(head[3])
    requires DecodeGroups(tail) == Some(rest)
    ensures DecodeGroups(head + tail) ==
      Some(DecodeGroup(DecodeSextet(head[0]), DecodeSextet(head[1]), DecodeSextet(head[2]), DecodeSextet(head[3])) + rest)
  {
    assert (head + tail)[4..] == tail;
    assert (head + tail)[..4] == head;
  }

  /** An encoded group in front decodes back to its three bytes in front. */
  lemma EncodedGroupDecodes(x: byte, y: byte, z: byte, tail: seq<byte>, rest: seq<byte>)
    requires DecodeGroups(tail) == Some(rest)
    ensures DecodeGroups(EncodeGroup(x, y, z) + tail) == Some([x, y, z] + rest)
  {
    GroupRoundTrip(x, y, z);
    DecodeFullGroup(EncodeGroup(x, y, z), tail, rest);
  }

  /** One step of the round trip: a full group in front of a tail that round-trips. */
  lemma FullGroupRoundTrip(x: byte, y: byte, z: byte, rest: seq<byte>)
    requires DecodeGroups(Encode(rest)) == Some(rest)
    ensures DecodeGroups(Encode([x, y, z] + rest)) == Some([x, y, z] + rest)
  {
    var b := [x, y, z] + rest;
    assert b[3..] == rest;
    assert Encode(b) == EncodeGroup(x, y, z) + Encode(rest);
    EncodedGroupDecodes(x, y, z, Encode(rest), rest);
  }

  /** Decoding undoes encoding on the newline-free groups. */
  lemma {:induction false} DecodeGroupsEncode(b: seq<byte>)
    ensures DecodeGroups(Encode(b)) == Some(b)
    decreases |b|
  {
    if |b| >= 3 {
      assert b == [b[0], b[1], b[2]] + b[3..];
      DecodeGroupsEncode(b[3..]);
      FullGroupRoundTrip(b[0], b[1], b[2], b[3..]);
    } else if |b| == 2 {
      assert b == [b[0], b[1]];
      TwoByteGroupRoundTrip(b[0], b[1]);
    } else if |b| == 1 {
      assert b == [b[0]];
      OneByteGroupRoundTrip(b[0]);
    }
  }

  /** DecodeString inverts EncodeToString. */
  lemma DecodeEncode(b: seq<byte>)
    ensures Decode(Encode(b)) == Some(b)
  {
    EncodeChars(b);
    StripNoNewlines(Encode(b));
    DecodeGroupsEncode(b);
  }

  /** Every character of t is in the alphabet or '='. */
  predicate AlphabetOnly(t: seq<byte>)
  {
    forall i :: 0 <= i < |t| ==> IsSextetChar(t[i]) || t[i] == Pad
  }

  /** Every character of a decodable newline-free input is in the alphabet or '='. */
  lemma {:induction false} DecodeGroupsChars(t: seq<byte>)
    requires DecodeGroups(t).Some?
    ensures AlphabetOnly(t)
    decreases |t|
  {
    if |t| > 0 {
      DecodeGroupsHead(t);
      if |t| > 4 {
        DecodeGroupsChars(t[4..]);
      }
      AlphabetCons(t);
    }
  }

  /** Each group of four characters carries at most three bytes. */
  lemma {:induction false} DecodeGroupsSize(t: seq<byte>)
    requires DecodeGroups(t).Some?
    ensures 4 * |DecodeGroups(t).value| <= 3 * |t|
    decreases |t|
  {
    if |t| >= 4 && IsSextetChar(t[0]) && IsSextetChar(t[1]) && IsSextetChar(t[2]) && IsSextetChar(t[3]) {
      DecodeGroupsSize(t[4..]);
    }
  }

  /** A decodable newline-free input is a whole number of four-character groups. */
  lemma {:induction false} DecodeGroupsLength(t: seq<byte>)
    requires DecodeGroups(t).Some?
    ensures |t| % 4 == 0
    decreases |t|
  {
    if |t| > 0 {
      DecodeGroupsHead(t);
      if |t| > 4 {
        DecodeGroupsLength(t[4..]);
        FourMore(|t| - 4);
      }
    }
  }

  lemma FourMore(n: nat)
    requires n % 4 == 0
    ensures (n + 4) % 4 == 0
  {
  }

  /** A decodable non-empty input starts with two alphabet characters and two alphabet or '=' characters, and the rest decodes. */
  lemma DecodeGroupsHead(t: seq<byte>)
    requires |t| > 0 && DecodeGroups(t).Some?
    ensures |t| >= 4
    ensures IsSextetChar(t[0]) && IsSextetChar(t[1])
    ensures IsSextetChar(t[2]) || t[2] == Pad
    ensures IsSextetChar(t[3]) || t[3] == Pad
    ensures |t| > 4 ==> DecodeGroups(t[4..]).Some?
  {
  }

  /** A group of alphabet or '=' characters followed by an alphabet-only rest is alphabet-only. */
  lemma AlphabetCons(t: seq<byte>)
    requires |t| >= 4
    requires IsSextetChar(t[0]) && IsSextetChar(t[1])
    requires IsSextetChar(t[2]) || t[2] == Pad
    requires IsSextetChar(t[3]) || t[3] == Pad
    requires |t| > 4 ==> AlphabetOnly(t[4..])
    ensures AlphabetOnly(t)
  {
    forall i | 4 <= i < |t|
      ensures IsSextetChar(t[i]) || t[i] == Pad
    {
      assert t[i] == t[4..][i - 4];
    }
  }

  /** Stripping newlines keeps every other character: c occurs before stripping exactly when it occurs after. */
  lemma {:induction false} StripKeeps(s: seq<byte>, c: byte)
    requires c != 10 && c != 13
    ensures c in s <==> c in StripNewlines(s)
  {
    if |s| > 0 {
      StripKeeps(s[1..], c);
      assert s == [s[0]] + s[1..];
    }
  }

  /**
   * The URL-safe characters '-' and '_' are outside the standard alphabet:
   * an input holding either does not decode.
   */
  lemma UrlSafeCharsRejected(s: seq<byte>)
    requires 45 in s || 95 in s
    ensures Decode(s) == None
  {
    var t := StripNewlines(s);
    StripKeeps(s, 45);
    StripKeeps(s, 95);
    if DecodeGroups(t).Some? {
      DecodeGroupsChars(t);
      assert false;
    }
  }

  /** Stripping newlines works piece by piece. */
  lemma {:induction false} StripAppend(a: seq<byte>, b: seq<byte>)
    ensures StripNewlines(a + b) == StripNewlines(a) + StripNewlines(b)
  {
    if |a| > 0 {
      StripAppend(a[1..], b);
      assert (a + b)[1..] == a[1..] + b;
    } else {
      assert a + b == b;
    }
  }

  /** A decodable input holds a whole number of four-character groups besides its newlines. */
  lemma DecodeLengthMultiple(s: seq<byte>)
    requires Decode(s).Some?
    ensures |StripNewlines(s)| % 4 == 0
  {
    DecodeGroupsLength(StripNewlines(s));
  }
}
