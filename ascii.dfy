/**
 * Bytes on the serial line and the US-ASCII charset the connection uses to turn
 * them into text and back.
 */
module Ascii {
  /** One octet as the serial port delivers or accepts it. */
  type byte = b: int | 0 <= b < 256

  /** The carriage return that terminates every request. */
  const CR: byte := 0x0D

  /** What the US-ASCII decoder produces for a byte outside 7 bits. */
  const DecodeReplacement: char := '\U{FFFD}'

  /** What the US-ASCII encoder produces for a character outside 7 bits (`?`). */
  const EncodeReplacement: byte := 0x3F

  predicate IsAscii(c: char) {
    c as int < 128
  }

  predicate IsAsciiText(s: string) {
    forall i :: 0 <= i < |s| ==> IsAscii(s[i])
  }

  predicate IsSevenBit(bs: seq<byte>) {
    forall i :: 0 <= i < |bs| ==> bs[i] < 128
  }

  function DecodeByte(b: byte): char {
    if b < 128 then b as char else DecodeReplacement
  }

  function EncodeChar(c: char): byte {
    if IsAscii(c) then c as int else EncodeReplacement
  }

  /** US-ASCII decoding: one character per byte. */
  function Decode(bs: seq<byte>): (s: string)
    ensures |s| == |bs|
    ensures forall i :: 0 <= i < |bs| ==> s[i] == DecodeByte(bs[i])
  {
    seq(|bs|, i requires 0 <= i < |bs| => DecodeByte(bs[i]))
  }

  /** US-ASCII encoding: one byte per character. */
  function Encode(s: string): (bs: seq<byte>)
    ensures |bs| == |s|
    ensures forall i :: 0 <= i < |s| ==> bs[i] == EncodeChar(s[i])
  {
    seq(|s|, i requires 0 <= i < |s| => EncodeChar(s[i]))
  }

  /** Decoding what was encoded gives the ASCII text back. */
  lemma DecodeEncode(s: string)
    requires IsAsciiText(s)
    ensures Decode(Encode(s)) == s
  {
  }

  /** Encoding what was decoded gives the 7-bit bytes back. */
  lemma EncodeDecode(bs: seq<byte>)
    requires IsSevenBit(bs)
    ensures Encode(Decode(bs)) == bs
  {
  }

  /** Decoded text is pure ASCII exactly when every byte had 7 bits. */
  lemma DecodeAsciiIffSevenBit(bs: seq<byte>)
    ensures IsAsciiText(Decode(bs)) <==> IsSevenBit(bs)
  {
  }

  lemma EncodeAppend(a: string, b: string)
    ensures Encode(a + b) == Encode(a) + Encode(b)
  {
  }
}
