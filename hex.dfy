/**
  Hexadecimal text for byte strings: the encoder every rendering of an
  identifier is built from (two lowercase digits per byte, high nibble
  first), and a decoder that reads either case, used to state that the
  encoding loses nothing.
*/
module Hex {
  import opened Wrappers
  import opened Ascii

  /** An octet, as Rust's `u8`. */
  type Byte = x: int | 0 <= x < 256

  predicate IsLowerHexDigit(c: char) { '0' <= c <= '9' || 'a' <= c <= 'f' }

  predicate IsUpperHexDigit(c: char) { '0' <= c <= '9' || 'A' <= c <= 'F' }

  /** The lowercase hexadecimal digit of a nibble. */
  function HexDigit(n: int): (c: char)
    requires 0 <= n < 16
    ensures IsLowerHexDigit(c)
    ensures n < 10 <==> '0' <= c <= '9'
  {
    if n < 10 then ('0' as int + n) as char else ('a' as int + n - 10) as char
  }

  /** The value of a hexadecimal digit in either case; None for any other character. */
  function HexValue(c: char): (r: Option<int>)
    ensures r.Some? <==> IsLowerHexDigit(c) || IsUpperHexDigit(c)
    ensures r.Some? ==> 0 <= r.value < 16
  {
    if '0' <= c <= '9' then Some(c as int - '0' as int)
    else if 'a' <= c <= 'f' then Some(c as int - 'a' as int + 10)
    else if 'A' <= c <= 'F' then Some(c as int - 'A' as int + 10)
    else None
  }

  /** Nibble k of a byte string, counting from the high nibble of the first byte. */
  function Nibble(bytes: seq<Byte>, k: nat): (n: int)
    requires k < 2 * |bytes|
    ensures 0 <= n < 16
  {
    if k % 2 == 0 then bytes[k / 2] / 16 else bytes[k / 2] % 16
  }

  /** The lowercase hexadecimal text of a byte string. */
  function Encode(bytes: seq<Byte>): (s: string)
    ensures |s| == 2 * |bytes|
    ensures forall k :: 0 <= k < |s| ==> s[k] == HexDigit(Nibble(bytes, k))
  {
    if bytes == [] then []
    else
      var rest := Encode(bytes[1..]);
      assert forall k :: 2 <= k < 2 * |bytes| ==> Nibble(bytes[1..], k - 2) == Nibble(bytes, k);
      [HexDigit(bytes[0] / 16), HexDigit(bytes[0] % 16)] + rest
  }

  /** Read hexadecimal text (either case) back into bytes; None on odd length or a non-digit. */
  function Decode(s: string): (r: Option<seq<Byte>>)
    ensures r.Some? ==> 2 * |r.value| == |s|
  {
    if s == [] then Some([])
    else if |s| == 1 then None
    else
      match (HexValue(s[0]), HexValue(s[1]), Decode(s[2..]))
      case (Some(hi), Some(lo), Some(rest)) => Some([hi * 16 + lo] + rest)
      case _ => None
  }

  /** The encoding uses only lowercase hexadecimal digits. */
  lemma EncodeIsLowerHex(bytes: seq<Byte>)
    ensures forall k :: 0 <= k < |Encode(bytes)| ==> IsLowerHexDigit(Encode(bytes)[k])
    ensures HasNoUpper(Encode(bytes))
  {
  }

  /** Encoding is a homomorphism of concatenation. */
  lemma {:induction false} EncodeAppend(a: seq<Byte>, b: seq<Byte>)
    ensures Encode(a + b) == Encode(a) + Encode(b)
  {
    if a == [] {
      assert a + b == b;
    } else {
      assert (a + b)[1..] == a[1..] + b;
      EncodeAppend(a[1..], b);
    }
  }

  /** Decoding the encoding gives back the bytes. */
  lemma {:induction false} DecodeEncode(bytes: seq<Byte>)
    ensures Decode(Encode(bytes)) == Some(bytes)
  {
    if bytes != [] {
      var s := Encode(bytes);
      assert s[2..] == Encode(bytes[1..]);
      DecodeEncode(bytes[1..]);
      assert HexValue(s[0]) == Some(bytes[0] / 16);
      assert HexValue(s[1]) == Some(bytes[0] % 16);
      assert [bytes[0]] + bytes[1..] == bytes;
    }
  }

  /** Decoding does not depend on the case of the digits. */
  lemma {:induction false} DecodeIgnoresCase(s: string)
    ensures Decode(AsciiUpper(s)) == Decode(s)
  {
    if 2 <= |s| {
      var u := AsciiUpper(s);
      UpperOfSlice(s, 2, |s|);
      assert u[2..] == AsciiUpper(s[2..]);
      DecodeIgnoresCase(s[2..]);
      assert HexValue(u[0]) == HexValue(s[0]) && HexValue(u[1]) == HexValue(s[1]);
    }
  }
}
