/**
 * Bytes and the three character codings the core uses: String.getBytes(UTF_8)
 * on the way out, the US-ASCII decoder of the protocol sniffer, and the
 * one-byte-per-character decoding the request parser is modelled with.
 */
module Bytes {
  import opened Wrappers

  /** Java's `byte`, taken as its unsigned value as InputStream.read() returns it. */
  newtype byte = x: int | 0 <= x < 256

  /** The replacement character a decoder writes for a byte it cannot map. */
  const Replacement: char := '\U{FFFD}'

  /** The UTF-8 encoding of one Unicode scalar value. */
  function EncodeChar(c: char): (r: seq<byte>)
    ensures 1 <= |r| <= 4
    ensures |r| == 1 <==> c as int < 0x80
    ensures |r| == 1 ==> r[0] as int == c as int
    ensures forall k :: 1 <= k < |r| ==> 0x80 <= r[k] < 0xC0
    ensures 0x80 <= c as int ==> 0xC0 <= r[0]
  {
    var cp := c as int;
    if cp < 0x80 then [cp as byte]
    else if cp < 0x800 then [(0xC0 + cp / 0x40) as byte, (0x80 + cp % 0x40) as byte]
    else if cp < 0x1_0000 then
      [(0xE0 + cp / 0x1000) as byte, (0x80 + (cp / 0x40) % 0x40) as byte, (0x80 + cp % 0x40) as byte]
    else
      [(0xF0 + cp / 0x4_0000) as byte, (0x80 + (cp / 0x1000) % 0x40) as byte,
       (0x80 + (cp / 0x40) % 0x40) as byte, (0x80 + cp % 0x40) as byte]
  }

  /** `s.getBytes(StandardCharsets.UTF_8)`. */
  function Utf8Encode(s: string): (r: seq<byte>)
    ensures |r| >= |s|
  {
    if |s| == 0 then [] else Utf8Encode(s[..|s| - 1]) + EncodeChar(s[|s| - 1])
  }

  /** Encoding distributes over concatenation, so the bytes of a built-up string are the bytes of its parts. */
  lemma {:induction false} Utf8Append(a: string, b: string)
    ensures Utf8Encode(a + b) == Utf8Encode(a) + Utf8Encode(b)
    decreases |b|
  {
    if |b| == 0 {
      assert a + b == a;
    } else {
      var b' := b[..|b| - 1];
      var last := EncodeChar(b[|b| - 1]);
      assert (a + b)[..|a + b| - 1] == a + b';
      assert (a + b)[|a + b| - 1] == b[|b| - 1];
      assert Utf8Encode(a + b) == Utf8Encode(a + b') + last;
      Utf8Append(a, b');
      ConcatAssoc(Utf8Encode(a), Utf8Encode(b'), last);
    }
  }

  predicate IsAscii(s: string)
  {
    forall i :: 0 <= i < |s| ==> s[i] as int < 0x80
  }

  /** An ASCII string is encoded one byte per character, each byte its code. */
  lemma {:induction false} Utf8Ascii(s: string)
    requires IsAscii(s)
    ensures |Utf8Encode(s)| == |s|
    ensures forall i :: 0 <= i < |s| ==> Utf8Encode(s)[i] as int == s[i] as int
  {
    if |s| > 0 {
      Utf8Ascii(s[..|s| - 1]);
    }
  }

  /** `new String(bytes, StandardCharsets.US_ASCII)`: bytes from 0x80 up become the replacement character. */
  function AsciiDecode(bs: seq<byte>): (r: string)
    ensures |r| == |bs|
    ensures forall i :: 0 <= i < |bs| ==> (bs[i] < 0x80 ==> r[i] as int == bs[i] as int) && (0x80 <= bs[i] ==> r[i] == Replacement)
  {
    seq(|bs|, i requires 0 <= i < |bs| => if bs[i] < 0x80 then bs[i] as int as char else Replacement)
  }

  /** One character per byte, with the byte's value as its code; exact for ASCII text. */
  function ByteChars(bs: seq<byte>): (r: string)
    ensures |r| == |bs|
    ensures forall i :: 0 <= i < |bs| ==> r[i] as int == bs[i] as int
  {
    seq(|bs|, i requires 0 <= i < |bs| => bs[i] as int as char)
  }

  /** ASCII text survives encoding and decoding with either decoder. */
  lemma AsciiRoundTrip(s: string)
    requires IsAscii(s)
    ensures AsciiDecode(Utf8Encode(s)) == s
    ensures ByteChars(Utf8Encode(s)) == s
  {
    Utf8Ascii(s);
  }
}
