/**
 * UTF-8 as RFC 3629 defines it: what `String.toByteArray(Charsets.UTF_8)` and
 * Kotlin's `String(bytes)`, which always decodes UTF-8, do at the two ends of
 * an AES-GCM envelope. A Dafny `char` is a Unicode scalar value, so every string
 * of the model is well-formed.
 */
module Utf8 {

  /** An octet, as an unsigned value. */
  type Byte = b: int | 0 <= b < 256

  /** True for the bytes 10xxxxxx that continue a multi-byte sequence. */
  predicate IsContinuation(b: Byte) {
    0x80 <= b < 0xC0
  }

  /** True for the integers that are Unicode scalar values, i.e. that a `char` can hold. */
  predicate IsScalar(n: int) {
    0 <= n < 0xD800 || 0xE000 <= n < 0x11_0000
  }

  /** The replacement character U+FFFD that a decoder emits for a malformed byte. */
  const Replacement: char := 0xFFFD as char

  /** The one- to four-byte encoding of one scalar value. */
  function EncodeChar(c: char): (r: seq<Byte>)
    ensures 1 <= |r| <= 4
    ensures r[0] < 0x80 || 0xC2 <= r[0] < 0xF5
    ensures forall i :: 1 <= i < |r| ==> IsContinuation(r[i])
  {
    var n := c as int;
    // n's six-bit groups, lowest first, come from dividing by 64 repeatedly.
    var q1 := n / 0x40;
    var q2 := q1 / 0x40;
    var q3 := q2 / 0x40;
    if n < 0x80 then [n]
    else if n < 0x800 then [0xC0 + q1, 0x80 + n % 0x40]
    else if n < 0x1_0000 then [0xE0 + q2, 0x80 + q1 % 0x40, 0x80 + n % 0x40]
    else [0xF0 + q3, 0x80 + q2 % 0x40, 0x80 + q1 % 0x40, 0x80 + n % 0x40]
  }

  /** `toByteArray(Charsets.UTF_8)`. */
  function Encode(s: string): (r: seq<Byte>)
    ensures |s| <= |r| <= 4 * |s|
  {
    if s == [] then [] else EncodeChar(s[0]) + Encode(s[1..])
  }

  /**
   * Decodes the scalar value at the front of `b` and says how many bytes it took.
   * A byte that does not start a well-formed sequence becomes U+FFFD and is skipped alone.
   */
  function DecodeFirst(b: seq<Byte>): (r: (char, nat))
    requires |b| > 0
    ensures 1 <= r.1 <= 4 && r.1 <= |b|
  {
    var b0: int := b[0];
    if b0 < 0x80 then
      (b0 as char, 1)
    else if 0xC2 <= b0 < 0xE0 && 2 <= |b| && IsContinuation(b[1]) then
      (((b0 - 0xC0) * 0x40 + (b[1] as int - 0x80)) as char, 2)
    else if 0xE0 <= b0 < 0xF0 && 3 <= |b| && IsContinuation(b[1]) && IsContinuation(b[2]) then
      var n: int := (b0 - 0xE0) * 0x1000 + (b[1] as int - 0x80) * 0x40 + (b[2] as int - 0x80);
      if 0x800 <= n && IsScalar(n) then (n as char, 3) else (Replacement, 1)
    else if 0xF0 <= b0 < 0xF5 && 4 <= |b| && IsContinuation(b[1]) && IsContinuation(b[2]) && IsContinuation(b[3]) then
      var n: int := (b0 - 0xF0) * 0x4_0000 + (b[1] as int - 0x80) * 0x1000 + (b[2] as int - 0x80) * 0x40 + (b[3] as int - 0x80);
      if 0x1_0000 <= n < 0x11_0000 then (n as char, 4) else (Replacement, 1)
    else
      (Replacement, 1)
  }

  /** `String(bytes)`: decodes a whole byte sequence; it never fails. */
  function Decode(b: seq<Byte>): (s: string)
    ensures |s| <= |b|
    decreases |b|
  {
    if b == [] then [] else
      var (c, n) := DecodeFirst(b);
      [c] + Decode(b[n..])
  }

  /** Decoding reads back exactly the character that `EncodeChar` wrote, and nothing after it. */
  lemma DecodeFirstEncodeChar(c: char, rest: seq<Byte>)
    ensures DecodeFirst(EncodeChar(c) + rest) == (c, |EncodeChar(c)|)
  {
    var n := c as int;
    if n < 0x80 {
      DecodeOneByte(c, rest);
    } else if n < 0x800 {
      DecodeTwoBytes(c, rest);
    } else if n < 0x1_0000 {
      DecodeThreeBytes(c, rest);
    } else {
      DecodeFourBytes(c, rest);
    }
  }

  lemma DecodeOneByte(c: char, rest: seq<Byte>)
    requires c as int < 0x80
    ensures DecodeFirst(EncodeChar(c) + rest) == (c, 1)
  {
  }

  lemma DecodeTwoBytes(c: char, rest: seq<Byte>)
    requires 0x80 <= c as int < 0x800
    ensures DecodeFirst(EncodeChar(c) + rest) == (c, 2)
  {
    var n := c as int;
    var q1 := n / 0x40;
    assert n == 0x40 * q1 + n % 0x40;
    var b := EncodeChar(c) + rest;
    assert b[0] == 0xC0 + q1 && b[1] == 0x80 + n % 0x40;
  }

  lemma DecodeThreeBytes(c: char, rest: seq<Byte>)
    requires 0x800 <= c as int < 0x1_0000
    ensures DecodeFirst(EncodeChar(c) + rest) == (c, 3)
  {
    var n := c as int;
    var q1 := n / 0x40;
    var q2 := q1 / 0x40;
    assert n == 0x40 * q1 + n % 0x40;
    assert q1 == 0x40 * q2 + q1 % 0x40;
    var b := EncodeChar(c) + rest;
    assert b[0] == 0xE0 + q2 && b[1] == 0x80 + q1 % 0x40 && b[2] == 0x80 + n % 0x40;
  }

  lemma DecodeFourBytes(c: char, rest: seq<Byte>)
    requires 0x1_0000 <= c as int
    ensures DecodeFirst(EncodeChar(c) + rest) == (c, 4)
  {
    var n := c as int;
    var q1 := n / 0x40;
    var q2 := q1 / 0x40;
    var q3 := q2 / 0x40;
    assert n == 0x40 * q1 + n % 0x40;
    assert q1 == 0x40 * q2 + q1 % 0x40;
    assert q2 == 0x40 * q3 + q2 % 0x40;
    var b := EncodeChar(c) + rest;
    assert b[0] == 0xF0 + q3 && b[1] == 0x80 + q2 % 0x40 && b[2] == 0x80 + q1 % 0x40 && b[3] == 0x80 + n % 0x40;
  }

  /** Every string survives an encode followed by a decode, multi-byte characters included. */
  lemma {:induction false} RoundTrip(s: string)
    ensures Decode(Encode(s)) == s
  {
    if s != [] {
      var head := EncodeChar(s[0]);
      var b := head + Encode(s[1..]);
      DecodeFirstEncodeChar(s[0], Encode(s[1..]));
      assert b[|head|..] == Encode(s[1..]);
      RoundTrip(s[1..]);
    }
  }

  /** Encoding is injective: two strings with the same bytes are the same string. */
  lemma EncodeInjective(s: string, t: string)
    requires Encode(s) == Encode(t)
    ensures s == t
  {
    RoundTrip(s);
    RoundTrip(t);
  }
}
