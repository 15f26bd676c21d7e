/** The text form of `getStableHash`: each byte of a SHA-1 digest rendered with
    `String.format("%02x", it)` and the pieces joined with no separator. */
module Hex {
  import opened Wrappers

  /** Kotlin's signed 8-bit `Byte`, the element type of a digest. */
  newtype SByte = x: int | -128 <= x < 128

  /** A SHA-1 digest: always twenty bytes. */
  type Digest = s: seq<SByte> | |s| == 20 witness seq(20, _ => 0)

  predicate IsLowerHex(c: char) {
    '0' <= c <= '9' || 'a' <= c <= 'f'
  }

  /** The value of a lower-case hex digit. */
  function HexValue(c: char): (v: nat)
    requires IsLowerHex(c)
    ensures v < 16 && HexDigit(v) == c
  {
    if c <= '9' then (c as int - '0' as int) as nat else (c as int - 'a' as int + 10) as nat
  }

  /** The lower-case hex digit of a value below sixteen. */
  function HexDigit(v: nat): (c: char)
    requires v < 16
    ensures IsLowerHex(c)
  {
    if v < 10 then ('0' as int + v) as char else ('a' as int + v - 10) as char
  }

  /** `%x` applied to a negative `Byte` prints it as the unsigned value 2^8 + b. */
  function Unsigned(b: SByte): (u: nat)
    ensures u < 256
    ensures u == (b as int) % 256
  {
    if b < 0 then (b as int + 256) as nat else b as nat
  }

  /** The inverse of `Unsigned`: reads an octet as a signed byte. */
  function Signed(u: nat): (b: SByte)
    requires u < 256
    ensures Unsigned(b) == u
  {
    if u >= 128 then (u - 256) as SByte else u as SByte
  }

  /** `String.format("%02x", b)`: two lower-case digits, zero-padded. */
  function FormatByte(b: SByte): (s: string)
    ensures |s| == 2 && IsLowerHex(s[0]) && IsLowerHex(s[1])
    ensures HexValue(s[0]) * 16 + HexValue(s[1]) == Unsigned(b)
  {
    var u := Unsigned(b);
    [HexDigit(u / 16), HexDigit(u % 16)]
  }

  /** `joinToString("")` over the formatted bytes. */
  function HexEncode(bytes: seq<SByte>): (s: string)
    ensures |s| == 2 * |bytes|
    ensures forall i :: 0 <= i < |s| ==> IsLowerHex(s[i])
  {
    if |bytes| == 0 then "" else FormatByte(bytes[0]) + HexEncode(bytes[1..])
  }

  /** Reads back a string of lower-case hex digit pairs; any other input is rejected. */
  function HexDecode(s: string): Option<seq<SByte>>
  {
    if |s| == 0 then Some([])
    else if |s| == 1 || !IsLowerHex(s[0]) || !IsLowerHex(s[1]) then None
    else
      match HexDecode(s[2..])
      case None => None
      case Some(rest) => Some([Signed(HexValue(s[0]) * 16 + HexValue(s[1]))] + rest)
  }

  /** `getStableHash` with the foreign steps as a parameter: `sha1` stands for
      `MessageDigest.getInstance("SHA-1").digest(repr.toByteArray())`, and
      `repr` for `obj.toString()`. */
  function StableHash(sha1: string -> Digest, repr: string): (h: string)
    ensures |h| == 40
    ensures forall i :: 0 <= i < |h| ==> IsLowerHex(h[i])
    ensures HexDecode(h) == Some(sha1(repr))
  {
    var d := sha1(repr);
    HexDecodeEncode(d);
    HexEncode(d)
  }

  /** Decoding the encoding of a byte sequence gives the bytes back. */
  lemma {:induction false} HexDecodeEncode(bytes: seq<SByte>)
    ensures HexDecode(HexEncode(bytes)) == Some(bytes)
  {
    if |bytes| > 0 {
      var s := HexEncode(bytes);
      var f := FormatByte(bytes[0]);
      assert s[..2] == f;
      assert s[2..] == HexEncode(bytes[1..]);
      HexDecodeEncode(bytes[1..]);
      assert Signed(Unsigned(bytes[0])) == bytes[0];
      assert [bytes[0]] + bytes[1..] == bytes;
    }
  }

  /** A string the decoder accepts is exactly the encoding of what it returns. */
  lemma {:induction false} HexEncodeDecode(s: string, bytes: seq<SByte>)
    requires HexDecode(s) == Some(bytes)
    ensures HexEncode(bytes) == s
  {
    if |s| > 0 {
      var rest := HexDecode(s[2..]).value;
      HexEncodeDecode(s[2..], rest);
      var b := Signed(HexValue(s[0]) * 16 + HexValue(s[1]));
      assert bytes == [b] + rest;
      assert bytes[1..] == rest;
      var f := FormatByte(b);
      assert f[0] == s[0] && f[1] == s[1] by {
        HexDigitsUnique(f[0], f[1], s[0], s[1]);
      }
      assert s == s[..2] + s[2..];
    }
  }

  lemma HexDigitsUnique(a: char, b: char, c: char, d: char)
    requires IsLowerHex(a) && IsLowerHex(b) && IsLowerHex(c) && IsLowerHex(d)
    requires HexValue(a) * 16 + HexValue(b) == HexValue(c) * 16 + HexValue(d)
    ensures a == c && b == d
  {
  }

  /** The decoder accepts a string exactly when it is the encoding of some bytes. */
  lemma HexCodecBijective(s: string, bytes: seq<SByte>)
    ensures HexDecode(s) == Some(bytes) <==> HexEncode(bytes) == s
  {
    if HexDecode(s) == Some(bytes) {
      HexEncodeDecode(s, bytes);
    }
    if HexEncode(bytes) == s {
      HexDecodeEncode(bytes);
    }
  }

  /** Distinct digests never share a hash string. */
  lemma StableHashInjective(sha1: string -> Digest, a: string, b: string)
    requires StableHash(sha1, a) == StableHash(sha1, b)
    ensures sha1(a) == sha1(b)
  {
  }
}
