/** The identifiers of users and chirps (google/uuid): sixteen bytes, written
    in the 8-4-4-4-12 lowercase hex form of RFC 4122 section 3 and read back
    by a parser that works on the string's UTF-8 bytes and accepts the four
    layouts google/uuid's Parse accepts. */
module Uuids {
  import opened Results
  import opened Encoding

  type Uuid = b: seq<byte> | |b| == 16 witness [0, 0, 0, 0, 0, 0, 0, 0, 0, 0, 0, 0, 0, 0, 0, 0]

  datatype UuidError = InvalidLength(length: nat) | InvalidUrnPrefix | InvalidFormat

  /** uuid.UUID.String: five hex groups of 4, 2, 2, 2 and 6 bytes. */
  function Format(u: Uuid): (s: string)
    ensures |s| == 36
  {
    HexEncode(u[..4]) + "-" + HexEncode(u[4..6]) + "-" + HexEncode(u[6..8]) + "-"
      + HexEncode(u[8..10]) + "-" + HexEncode(u[10..])
  }

  /** Bytes read as Latin-1 characters; on hex digits this is the digit. */
  function AsChars(b: seq<byte>): string {
    seq(|b|, i requires 0 <= i < |b| => b[i] as char)
  }

  /** Sixteen bytes from 32 hex-digit bytes, each pair high digit first
      (google/uuid's xtob over consecutive pairs). */
  function DecodeDigits(b: seq<byte>): Result<Uuid, UuidError>
    requires |b| == 32
  {
    match HexDecode(AsChars(b))
    case Some(u) => Ok(u)
    case None => Err(InvalidFormat)
  }

  /** The hyphenated layout read from the first 36 bytes of `b`: hyphens at
      8, 13, 18 and 23 and hex pairs everywhere else. */
  function ParseHyphenated(b: seq<byte>): Result<Uuid, UuidError>
    requires |b| >= 36
  {
    if b[8] != '-' as int || b[13] != '-' as int || b[18] != '-' as int || b[23] != '-' as int then
      Err(InvalidFormat)
    else
      DecodeDigits(b[..8] + b[9..13] + b[14..18] + b[19..23] + b[24..36])
  }

  /** ASCII case-insensitive equality with an ASCII text. For the prefix
      "urn:uuid:", which holds no letter with a non-ASCII case partner, this
      is what strings.EqualFold decides. */
  predicate EqualFoldAscii(b: seq<byte>, t: string)
    requires IsAscii(t)
  {
    |b| == |t| && forall i :: 0 <= i < |b| ==>
      b[i] == t[i] as int || ('A' <= t[i] <= 'Z' && b[i] == t[i] as int + 32)
                          || ('a' <= t[i] <= 'z' && b[i] == t[i] as int - 32)
  }

  /** uuid.Parse on the bytes of a string. The length selects the layout:
      36 hyphenated, 45 with an "urn:uuid:" prefix in any case, 38 with one
      byte on either side (which is skipped without being looked at, so the
      braces are not checked), 32 plain digits; any other length is an
      error that reports it. */
  function ParseBytes(b: seq<byte>): (r: Result<Uuid, UuidError>)
    ensures r.Err? && r.error.InvalidLength? <==> |b| !in {32, 36, 38, 45}
  {
    if |b| == 36 then ParseHyphenated(b)
    else if |b| == 45 then
      if EqualFoldAscii(b[..9], "urn:uuid:") then ParseHyphenated(b[9..]) else Err(InvalidUrnPrefix)
    else if |b| == 38 then ParseHyphenated(b[1..])
    else if |b| == 32 then DecodeDigits(b)
    else Err(InvalidLength(|b|))
  }

  /** uuid.Parse. */
  function Parse(s: string): Result<Uuid, UuidError> {
    ParseBytes(Utf8(s))
  }

  // ------------------------------------------------------------ round trip

  /** Positions inside five groups joined by hyphens. */
  lemma HyphenJoin(g0: string, g1: string, g2: string, g3: string, g4: string, s: string)
    requires |g0| == 8 && |g1| == 4 && |g2| == 4 && |g3| == 4 && |g4| == 12
    requires s == g0 + "-" + g1 + "-" + g2 + "-" + g3 + "-" + g4
    ensures |s| == 36
    ensures s[8] == '-' && s[13] == '-' && s[18] == '-' && s[23] == '-'
    ensures s[..8] == g0 && s[9..13] == g1 && s[14..18] == g2 && s[19..23] == g3 && s[24..] == g4
  {
  }

  lemma AsciiConcat(a: string, b: string)
    requires IsAscii(a) && IsAscii(b)
    ensures IsAscii(a + b)
  {
    forall i | 0 <= i < |a + b| ensures (a + b)[i] as int < 0x80 {
      if i >= |a| { assert (a + b)[i] == b[i - |a|]; }
    }
  }

  /** The formatted text is ASCII with hyphens at 8, 13, 18 and 23, and
      without them it is the plain hex rendering of the identifier. */
  lemma FormatShape(u: Uuid)
    ensures Format(u)[8] == '-' && Format(u)[13] == '-' && Format(u)[18] == '-' && Format(u)[23] == '-'
    ensures IsAscii(Format(u))
    ensures var s := Format(u); s[..8] + s[9..13] + s[14..18] + s[19..23] + s[24..] == HexEncode(u)
  {
    var g0, g1, g2, g3, g4 := HexEncode(u[..4]), HexEncode(u[4..6]), HexEncode(u[6..8]), HexEncode(u[8..10]), HexEncode(u[10..]);
    HyphenJoin(g0, g1, g2, g3, g4, Format(u));
    FormatAscii(g0, g1, g2, g3, g4);
    FormatDigits(u);
  }

  lemma FormatAscii(g0: string, g1: string, g2: string, g3: string, g4: string)
    requires forall i :: 0 <= i < |g0| ==> IsLowerHexDigit(g0[i])
    requires forall i :: 0 <= i < |g1| ==> IsLowerHexDigit(g1[i])
    requires forall i :: 0 <= i < |g2| ==> IsLowerHexDigit(g2[i])
    requires forall i :: 0 <= i < |g3| ==> IsLowerHexDigit(g3[i])
    requires forall i :: 0 <= i < |g4| ==> IsLowerHexDigit(g4[i])
    ensures IsAscii(g0 + "-" + g1 + "-" + g2 + "-" + g3 + "-" + g4)
  {
    assert IsAscii("-");
    AsciiConcat(g0, "-");
    AsciiConcat(g0 + "-", g1);
    AsciiConcat(g0 + "-" + g1, "-");
    AsciiConcat(g0 + "-" + g1 + "-", g2);
    AsciiConcat(g0 + "-" + g1 + "-" + g2, "-");
    AsciiConcat(g0 + "-" + g1 + "-" + g2 + "-", g3);
    AsciiConcat(g0 + "-" + g1 + "-" + g2 + "-" + g3, "-");
    AsciiConcat(g0 + "-" + g1 + "-" + g2 + "-" + g3 + "-", g4);
  }

  lemma FormatDigits(u: Uuid)
    ensures HexEncode(u[..4]) + HexEncode(u[4..6]) + HexEncode(u[6..8]) + HexEncode(u[8..10]) + HexEncode(u[10..])
         == HexEncode(u)
  {
    HexEncodeAppend(u[..4], u[4..6]);
    HexEncodeAppend(u[..6], u[6..8]);
    HexEncodeAppend(u[..8], u[8..10]);
    HexEncodeAppend(u[..10], u[10..]);
    assert u[..4] + u[4..6] == u[..6];
    assert u[..6] + u[6..8] == u[..8];
    assert u[..8] + u[8..10] == u[..10];
    assert u[..10] + u[10..] == u;
  }

  /** Hex rendering distributes over concatenation. */
  lemma {:induction false} HexEncodeAppend(a: seq<byte>, b: seq<byte>)
    ensures HexEncode(a + b) == HexEncode(a) + HexEncode(b)
  {
    if |a| > 0 {
      assert (a + b)[1..] == a[1..] + b;
      HexEncodeAppend(a[1..], b);
      assert (a + b)[0] == a[0];
    } else {
      assert a + b == b;
    }
  }

  /** Parsing the text form of an identifier gives the identifier back; a
      user id written into a token's subject is read back unchanged. */
  lemma ParseFormat(u: Uuid)
    ensures Parse(Format(u)) == Ok(u)
  {
    var s := Format(u);
    FormatShape(u);
    AsciiUtf8(s);
    var b := Utf8(s);
    assert AsChars(b) == s;
    StripHyphensAsChars(b);
    HexRoundTrip(u);
    assert ParseHyphenated(b) == Ok(u);
  }

  lemma AsCharsAppend(x: seq<byte>, y: seq<byte>)
    ensures AsChars(x + y) == AsChars(x) + AsChars(y)
  {
  }

  lemma AsCharsSlice(b: seq<byte>, i: nat, j: nat)
    requires i <= j <= |b|
    ensures AsChars(b[i..j]) == AsChars(b)[i..j]
  {
  }

  /** Reading bytes as characters commutes with cutting out the hyphens. */
  lemma StripHyphensAsChars(b: seq<byte>)
    requires |b| == 36
    ensures var s := AsChars(b);
            AsChars(b[..8] + b[9..13] + b[14..18] + b[19..23] + b[24..36])
              == s[..8] + s[9..13] + s[14..18] + s[19..23] + s[24..]
  {
    var s := AsChars(b);
    AsCharsSlice(b, 0, 8);
    AsCharsSlice(b, 9, 13);
    AsCharsSlice(b, 14, 18);
    AsCharsSlice(b, 19, 23);
    AsCharsSlice(b, 24, 36);
    assert b[..8] == b[0..8];
    assert s[..8] == s[0..8] && s[24..] == s[24..36];
    AsCharsAppend(b[..8], b[9..13]);
    AsCharsAppend(b[..8] + b[9..13], b[14..18]);
    AsCharsAppend(b[..8] + b[9..13] + b[14..18], b[19..23]);
    AsCharsAppend(b[..8] + b[9..13] + b[14..18] + b[19..23], b[24..36]);
  }

  /** Distinct identifiers have distinct text forms. */
  lemma FormatInjective(u: Uuid, v: Uuid)
    ensures Format(u) == Format(v) ==> u == v
  {
    ParseFormat(u);
    ParseFormat(v);
  }
}
