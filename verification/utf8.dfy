/** `Buffer.from(string)`: the UTF-8 encoding of a string. The hash-key
    check compares keys as byte buffers, so equality of buffers must mean
    equality of keys; that is what `EncodeInjective` establishes. */
module Utf8 {

  type byte = b: int | 0 <= b < 256

  /** Number of bytes a sequence starting with lead byte `b` occupies, or 0
      when `b` cannot start a shortest-form sequence (a continuation byte,
      an overlong lead `0xC0`/`0xC1`, or a lead beyond U+10FFFF). */
  function LeadLength(b: byte): nat
  {
    if b < 0x80 then 1
    else if b < 0xC2 then 0
    else if b < 0xE0 then 2
    else if b < 0xF0 then 3
    else if b < 0xF5 then 4
    else 0
  }

  predicate IsContinuation(b: byte)
  {
    0x80 <= b < 0xC0
  }

  /** A complete shortest-form sequence for one scalar value. */
  predicate IsSequence(bs: seq<byte>)
  {
    |bs| >= 1 && LeadLength(bs[0]) == |bs|
    && forall k :: 1 <= k < |bs| ==> IsContinuation(bs[k])
  }

  /** The bytes of one scalar value, lead byte first. */
  function EncodeChar(c: char): (r: seq<byte>)
    ensures IsSequence(r)
    ensures |r| == 1 <==> (c as int) < 0x80
    ensures |r| == 2 <==> 0x80 <= (c as int) < 0x800
    ensures |r| == 3 <==> 0x800 <= (c as int) < 0x10000
    ensures |r| == 4 <==> 0x10000 <= (c as int)
  {
    var n := c as int;
    var q1 := n / 64;
    var q2 := q1 / 64;
    var q3 := q2 / 64;
    if n < 0x80 then [n]
    else if n < 0x800 then [0xC0 + q1, 0x80 + n % 64]
    else if n < 0x10000 then [0xE0 + q2, 0x80 + q1 % 64, 0x80 + n % 64]
    else [0xF0 + q3, 0x80 + q2 % 64, 0x80 + q1 % 64, 0x80 + n % 64]
  }

  /** The scalar value a complete sequence stands for: the payload bits of
      the lead byte followed by six bits from each continuation byte. */
  function DecodeScalar(bs: seq<byte>): int
    requires IsSequence(bs)
  {
    var b: seq<int> := bs;
    if |b| == 1 then b[0]
    else if |b| == 2 then (b[0] - 0xC0) * 64 + (b[1] - 0x80)
    else if |b| == 3 then ((b[0] - 0xE0) * 64 + (b[1] - 0x80)) * 64 + (b[2] - 0x80)
    else (((b[0] - 0xF0) * 64 + (b[1] - 0x80)) * 64 + (b[2] - 0x80)) * 64 + (b[3] - 0x80)
  }

  /** Decoding undoes encoding for every character. */
  lemma DecodeEncodeChar(c: char)
    ensures DecodeScalar(EncodeChar(c)) == c as int
  {
    var n := c as int;
    var q1 := n / 64;
    var q2 := q1 / 64;
    assert n == q1 * 64 + n % 64;
    assert q1 == q2 * 64 + q1 % 64;
    assert q2 == (q2 / 64) * 64 + q2 % 64;
  }

  /** Different characters have different encodings. */
  lemma EncodeCharInjective(a: char, b: char)
    requires EncodeChar(a) == EncodeChar(b)
    ensures a == b
  {
    DecodeEncodeChar(a);
    DecodeEncodeChar(b);
  }

  /** `Buffer.from(s)`: the characters' encodings, concatenated in order. */
  function Encode(s: string): (r: seq<byte>)
    ensures |s| <= |r| <= 4 * |s|
  {
    if |s| == 0 then [] else EncodeChar(s[0]) + Encode(s[1..])
  }

  /** The encoding of a string begins with a complete sequence for its first
      character, so the lead byte tells how many bytes that character took. */
  lemma EncodeHead(s: string)
    requires |s| > 0
    ensures LeadLength(Encode(s)[0]) == |EncodeChar(s[0])|
    ensures Encode(s)[..|EncodeChar(s[0])|] == EncodeChar(s[0])
    ensures Encode(s)[|EncodeChar(s[0])|..] == Encode(s[1..])
  {
    var e := EncodeChar(s[0]);
    assert Encode(s) == e + Encode(s[1..]);
    assert Encode(s)[0] == e[0];
  }

  /** Equal buffers come only from equal strings, so comparing the buffers
      of two keys compares the keys. */
  lemma {:induction false} EncodeInjective(a: string, b: string)
    requires Encode(a) == Encode(b)
    ensures a == b
  {
    if |a| == 0 || |b| == 0 {
      assert |Encode(a)| == 0 || |Encode(b)| == 0;
    } else {
      EncodeHead(a);
      EncodeHead(b);
      var n := |EncodeChar(a[0])|;
      assert n == |EncodeChar(b[0])|;
      EncodeCharInjective(a[0], b[0]);
      EncodeInjective(a[1..], b[1..]);
      assert a == [a[0]] + a[1..];
      assert b == [b[0]] + b[1..];
    }
  }

  /** ASCII strings take one byte per character. */
  lemma {:induction false} AsciiLength(s: string)
    requires forall k :: 0 <= k < |s| ==> (s[k] as int) < 0x80
    ensures |Encode(s)| == |s|
  {
    if |s| > 0 {
      AsciiLength(s[1..]);
    }
  }
}
