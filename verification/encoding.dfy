/** Byte-level encodings the handlers rely on: Go's 64-bit integer
    wrap-around, the UTF-8 form of a string (what Go's `len` counts) and
    lowercase Base16 as written by Go's encoding/hex (RFC 4648 section 8). */
module Encoding {
  import opened Results

  type byte = x: int | 0 <= x < 0x100
  type nibble = x: int | 0 <= x < 0x10

  const Int64Min: int := -0x8000_0000_0000_0000
  const Int64Max: int := 0x7FFF_FFFF_FFFF_FFFF

  /** Go's `int`, 64 bits wide on the platforms the server targets. */
  type int64 = x: int | Int64Min <= x <= Int64Max

  /** What Go's int64 arithmetic yields when the exact result is `x`:
      two's-complement wrap-around modulo 2^64. */
  function Wrap64(x: int): (r: int64)
    ensures (x - r) % 0x1_0000_0000_0000_0000 == 0
    ensures Int64Min <= x <= Int64Max ==> r == x
  {
    (x - Int64Min) % 0x1_0000_0000_0000_0000 + Int64Min
  }

  // ---------------------------------------------------------------- UTF-8

  /** The UTF-8 encoding of one Unicode scalar value (RFC 3629 section 3). */
  function Utf8Rune(c: char): (bs: seq<byte>)
    ensures 1 <= |bs| <= 4
    ensures |bs| == 1 <==> c as int < 0x80
    ensures |bs| == 1 ==> bs[0] == c as int
    ensures forall i :: 0 <= i < |bs| && 1 < |bs| ==> 0x80 <= bs[i]
  {
    var n := c as int;
    if n < 0x80 then [n]
    else if n < 0x800 then [0xC0 + n / 0x40, 0x80 + n % 0x40]
    else if n < 0x1_0000 then [0xE0 + n / 0x1000, 0x80 + (n / 0x40) % 0x40, 0x80 + n % 0x40]
    else [0xF0 + n / 0x4_0000, 0x80 + (n / 0x1000) % 0x40, 0x80 + (n / 0x40) % 0x40, 0x80 + n % 0x40]
  }

  predicate IsAscii(s: string) {
    forall i :: 0 <= i < |s| ==> s[i] as int < 0x80
  }

  /** The bytes a Go string holds for the text `s`; `|Utf8(s)|` is Go's
      `len(s)`. It is never shorter than the rune count, and equal to it
      exactly for ASCII text. */
  function Utf8(s: string): (bs: seq<byte>)
    ensures |s| <= |bs| <= 4 * |s|
    ensures |bs| == |s| <==> IsAscii(s)
  {
    if |s| == 0 then []
    else
      assert IsAscii(s) <==> s[0] as int < 0x80 && IsAscii(s[1..]) by {
        if s[0] as int < 0x80 && IsAscii(s[1..]) {
          forall i | 0 <= i < |s| ensures s[i] as int < 0x80 {
            if i > 0 { assert s[i] == s[1..][i - 1]; }
          }
        }
      }
      Utf8Rune(s[0]) + Utf8(s[1..])
  }

  /** On ASCII text the UTF-8 bytes are the character codes themselves. */
  lemma {:induction false} AsciiUtf8(s: string)
    requires IsAscii(s)
    ensures |Utf8(s)| == |s|
    ensures forall i :: 0 <= i < |s| ==> Utf8(s)[i] == s[i] as int
  {
    if |s| > 0 {
      assert IsAscii(s[1..]) by {
        forall i | 0 <= i < |s[1..]| ensures s[1..][i] as int < 0x80 {
          assert s[1..][i] == s[i + 1];
        }
      }
      AsciiUtf8(s[1..]);
      assert Utf8(s) == [s[0] as int] + Utf8(s[1..]);
    }
  }

  /** The bytes of a concatenation are the concatenated bytes. */
  lemma {:induction false} Utf8Append(a: string, b: string)
    ensures Utf8(a + b) == Utf8(a) + Utf8(b)
  {
    if |a| == 0 {
      assert a + b == b;
    } else {
      assert (a + b)[1..] == a[1..] + b;
      Utf8Append(a[1..], b);
    }
  }

  // ---------------------------------------------------------------- Base16

  /** The lowercase Base16 alphabet "0123456789abcdef". */
  function HexDigit(n: nibble): (c: char)
    ensures IsLowerHexDigit(c)
  {
    if n < 10 then ('0' as int + n) as char else ('a' as int + n - 10) as char
  }

  predicate IsLowerHexDigit(c: char) {
    '0' <= c <= '9' || 'a' <= c <= 'f'
  }

  /** Lowercase Base16, high nibble first: what hex.EncodeToString writes. */
  function HexEncode(bs: seq<byte>): (s: string)
    ensures |s| == 2 * |bs|
    ensures forall i :: 0 <= i < |s| ==> IsLowerHexDigit(s[i])
    ensures forall i :: 0 <= i < |bs| ==>
              s[2 * i] == HexDigit(bs[i] / 0x10) && s[2 * i + 1] == HexDigit(bs[i] % 0x10)
  {
    if |bs| == 0 then ""
    else
      var rest := HexEncode(bs[1..]);
      var s := [HexDigit(bs[0] / 0x10), HexDigit(bs[0] % 0x10)] + rest;
      assert forall i :: 1 <= i < |bs| ==> s[2 * i] == rest[2 * (i - 1)] && bs[i] == bs[1..][i - 1];
      s
  }

  /** The value of one Base16 digit; both letter cases are accepted, as by
      encoding/hex and google/uuid. */
  function HexValue(c: char): Option<nibble> {
    if '0' <= c <= '9' then Some(c as int - '0' as int)
    else if 'a' <= c <= 'f' then Some(c as int - 'a' as int + 10)
    else if 'A' <= c <= 'F' then Some(c as int - 'A' as int + 10)
    else None
  }

  /** Base16 decoding: the reference the encoder is checked against. An odd
      length or a non-digit is rejected, as by hex.DecodeString. */
  function HexDecode(s: string): (r: Option<seq<byte>>)
    ensures r.Some? ==> 2 * |r.value| == |s|
    decreases |s|
  {
    if |s| == 0 then Some([])
    else if |s| == 1 then None
    else
      match (HexValue(s[0]), HexValue(s[1]), HexDecode(s[2..]))
      case (Some(hi), Some(lo), Some(rest)) =>
        var b: byte := hi as int * 0x10 + lo as int;
        Some([b] + rest)
      case _ => None
  }

  lemma HexDigitValue(n: nibble)
    ensures HexValue(HexDigit(n)) == Some(n)
  {
  }

  lemma HexDecodeCons(s: string, hi: nibble, lo: nibble, rest: seq<byte>)
    requires 2 <= |s| && HexValue(s[0]) == Some(hi) && HexValue(s[1]) == Some(lo)
    requires HexDecode(s[2..]) == Some(rest)
    ensures HexDecode(s) == Some([hi * 0x10 + lo] + rest)
  {
  }

  /** Decoding undoes encoding. */
  lemma {:induction false} HexRoundTrip(bs: seq<byte>)
    ensures HexDecode(HexEncode(bs)) == Some(bs)
  {
    if |bs| > 0 {
      var s := HexEncode(bs);
      var hi: nibble, lo: nibble := bs[0] / 0x10, bs[0] % 0x10;
      assert s[0] == HexDigit(hi) && s[1] == HexDigit(lo);
      assert s[2..] == HexEncode(bs[1..]);
      HexRoundTrip(bs[1..]);
      HexDigitValue(hi);
      HexDigitValue(lo);
      HexDecodeCons(s, hi, lo, bs[1..]);
      assert [hi * 0x10 + lo] + bs[1..] == bs;
    }
  }

  /** Hence distinct byte strings never render to the same text. */
  lemma HexEncodeInjective(a: seq<byte>, b: seq<byte>)
    ensures HexEncode(a) == HexEncode(b) ==> a == b
  {
    HexRoundTrip(a);
    HexRoundTrip(b);
  }
}
