/**
 * The charset step of the codec: text to UTF-8 bytes on the way in, and
 * lenient UTF-8 decoding on the way out. Strings are sequences of Unicode
 * scalar values. The decoder never fails: a byte sequence that is not
 * well-formed UTF-8 is replaced by U+FFFD, one replacement per maximal
 * ill-formed subpart, so random padding decodes to some text.
 */
module Utf8 {
  import opened BitStream

  /** The replacement character U+FFFD that lenient decoding substitutes. */
  const Replacement: char := '�'

  /** The UTF-8 bytes of one scalar value: 1 to 4 bytes by magnitude. */
  function EncodeChar(c: char): (bytes: seq<Byte>)
    ensures 1 <= |bytes| <= 4
  {
    var n := c as int;
    if n < 0x80 then
      [n]
    else if n < 0x800 then
      [0xC0 + n / 64, 0x80 + n % 64]
    else if n < 0x1_0000 then
      [0xE0 + n / 4096, 0x80 + n / 64 % 64, 0x80 + n % 64]
    else
      [0xF0 + n / 262144, 0x80 + n / 4096 % 64,
       0x80 + n / 64 % 64, 0x80 + n % 64]
  }

  /** The UTF-8 bytes of a string. */
  function Encode(s: string): (bytes: seq<Byte>)
    ensures |s| <= |bytes| <= 4 * |s|
  {
    if s == [] then [] else EncodeChar(s[0]) + Encode(s[1..])
  }

  /** Encoding a concatenation gives the concatenation of the encodings. */
  lemma {:induction false} EncodeAppend(a: string, b: string)
    ensures Encode(a + b) == Encode(a) + Encode(b)
  {
    if a == [] {
      assert a + b == b;
    } else {
      assert (a + b)[1..] == a[1..] + b;
      EncodeAppend(a[1..], b);
    }
  }

  predicate IsContinuation(b: int)
  {
    0x80 <= b < 0xC0
  }

  /**
   * Decodes the scalar value at the head of `bytes`, or recognises a maximal
   * ill-formed subpart there and yields U+FFFD for it. Returns the character
   * and the number of bytes it took.
   */
  function DecodeHead(bytes: seq<Byte>): (r: (char, nat))
    requires |bytes| > 0
    ensures 1 <= r.1 <= |bytes|
  {
    var b0: int := bytes[0];
    var b1: int := if |bytes| > 1 then bytes[1] else -1;
    var b2: int := if |bytes| > 2 then bytes[2] else -1;
    var b3: int := if |bytes| > 3 then bytes[3] else -1;
    if b0 < 0x80 then
      (b0 as char, 1)
    else if 0xC2 <= b0 < 0xE0 then
      if !IsContinuation(b1) then (Replacement, 1)
      else (((b0 - 0xC0) * 64 + (b1 - 0x80)) as char, 2)
    else if 0xE0 <= b0 < 0xF0 then
      // E0 excludes overlong forms, ED excludes the surrogates D800..DFFF.
      var lo := if b0 == 0xE0 then 0xA0 else 0x80;
      var hi := if b0 == 0xED then 0xA0 else 0xC0;
      if !(lo <= b1 < hi) then (Replacement, 1)
      else if !IsContinuation(b2) then (Replacement, 2)
      else (((b0 - 0xE0) * 4096 + (b1 - 0x80) * 64 + (b2 - 0x80)) as char, 3)
    else if 0xF0 <= b0 < 0xF5 then
      // F0 excludes overlong forms, F4 excludes values above U+10FFFF.
      var lo := if b0 == 0xF0 then 0x90 else 0x80;
      var hi := if b0 == 0xF4 then 0x90 else 0xC0;
      if !(lo <= b1 < hi) then (Replacement, 1)
      else if !IsContinuation(b2) then (Replacement, 2)
      else if !IsContinuation(b3) then (Replacement, 3)
      else (((b0 - 0xF0) * 262144 + (b1 - 0x80) * 4096 + (b2 - 0x80) * 64 + (b3 - 0x80)) as char, 4)
    else
      (Replacement, 1)
  }

  /** Lenient decoding: every byte sequence decodes, malformed parts to U+FFFD. */
  function Decode(bytes: seq<Byte>): (s: string)
    ensures |s| <= |bytes|
    decreases |bytes|
  {
    if bytes == [] then []
    else
      var (c, n) := DecodeHead(bytes);
      [c] + Decode(bytes[n..])
  }

  /** The head of a well-formed encoding decodes to the character encoded there. */
  lemma DecodeHeadEncodeChar(c: char, rest: seq<Byte>)
    ensures DecodeHead(EncodeChar(c) + rest) == (c, |EncodeChar(c)|)
  {
    var n := c as int;
    if n < 0x80 {
    } else if n < 0x800 {
      DecodeHeadTwo(c, rest);
    } else if n < 0x1_0000 {
      DecodeHeadThree(c, rest);
    } else {
      DecodeHeadFour(c, rest);
    }
  }

  lemma DecodeHeadTwo(c: char, rest: seq<Byte>)
    requires 0x80 <= c as int < 0x800
    ensures DecodeHead(EncodeChar(c) + rest) == (c, 2)
  {
    var n := c as int;
    var bytes := EncodeChar(c) + rest;
    assert bytes[0] == 0xC0 + n / 64;
    assert bytes[1] == 0x80 + n % 64;
  }

  lemma DecodeHeadThree(c: char, rest: seq<Byte>)
    requires 0x800 <= c as int < 0x1_0000
    ensures DecodeHead(EncodeChar(c) + rest) == (c, 3)
  {
    var n := c as int;
    var bytes := EncodeChar(c) + rest;
    var b0, b1, b2 := 0xE0 + n / 4096, 0x80 + n / 64 % 64, 0x80 + n % 64;
    assert bytes[0] == b0 && bytes[1] == b1 && bytes[2] == b2;
    SplitThree(n);
    DecodeThreeBytes(bytes, b0, b1, b2);
  }

  lemma SplitThree(n: int)
    requires 0x800 <= n < 0x1_0000 && !(0xD800 <= n < 0xE000)
    ensures var b0, b1 := 0xE0 + n / 4096, 0x80 + n / 64 % 64;
      && (if b0 == 0xE0 then 0xA0 else 0x80) <= b1 < (if b0 == 0xED then 0xA0 else 0xC0)
      && (b0 - 0xE0) * 4096 + (b1 - 0x80) * 64 + n % 64 == n
  {
  }

  lemma DecodeThreeBytes(bytes: seq<Byte>, b0: int, b1: int, b2: int)
    requires |bytes| >= 3 && bytes[0] == b0 && bytes[1] == b1 && bytes[2] == b2
    requires 0xE0 <= b0 < 0xF0 && IsContinuation(b2)
    requires (if b0 == 0xE0 then 0xA0 else 0x80) <= b1 < (if b0 == 0xED then 0xA0 else 0xC0)
    ensures DecodeHead(bytes).1 == 3
    ensures DecodeHead(bytes).0 as int == (b0 - 0xE0) * 4096 + (b1 - 0x80) * 64 + (b2 - 0x80)
  {
  }

  lemma DecodeHeadFour(c: char, rest: seq<Byte>)
    requires 0x1_0000 <= c as int
    ensures DecodeHead(EncodeChar(c) + rest) == (c, 4)
  {
    var n := c as int;
    var bytes := EncodeChar(c) + rest;
    var b0, b1, b2, b3 := 0xF0 + n / 262144, 0x80 + n / 4096 % 64, 0x80 + n / 64 % 64, 0x80 + n % 64;
    assert bytes[0] == b0 && bytes[1] == b1;
    assert bytes[2] == b2 && bytes[3] == b3;
    SplitFour(n);
    DecodeFourBytes(bytes, b0, b1, b2, b3);
  }

  lemma SplitFour(n: int)
    requires 0x1_0000 <= n < 0x11_0000
    ensures var b0, b1 := 0xF0 + n / 262144, 0x80 + n / 4096 % 64;
      && 0xF0 <= b0 < 0xF5
      && (if b0 == 0xF0 then 0x90 else 0x80) <= b1 < (if b0 == 0xF4 then 0x90 else 0xC0)
      && (b0 - 0xF0) * 262144 + (b1 - 0x80) * 4096 + n / 64 % 64 * 64 + n % 64 == n
  {
  }

  lemma DecodeFourBytes(bytes: seq<Byte>, b0: int, b1: int, b2: int, b3: int)
    requires |bytes| >= 4 && bytes[0] == b0 && bytes[1] == b1
    requires bytes[2] == b2 && bytes[3] == b3
    requires 0xF0 <= b0 < 0xF5 && IsContinuation(b2) && IsContinuation(b3)
    requires (if b0 == 0xF0 then 0x90 else 0x80) <= b1 < (if b0 == 0xF4 then 0x90 else 0xC0)
    ensures DecodeHead(bytes).1 == 4
    ensures DecodeHead(bytes).0 as int
      == (b0 - 0xF0) * 262144 + (b1 - 0x80) * 4096 + (b2 - 0x80) * 64 + (b3 - 0x80)
  {
  }

  lemma DecodeCons(c: char, tail: seq<Byte>)
    ensures Decode(EncodeChar(c) + tail) == [c] + Decode(tail)
  {
    var bytes := EncodeChar(c) + tail;
    DecodeHeadEncodeChar(c, tail);
    assert bytes[|EncodeChar(c)|..] == tail;
  }

  /**
   * Decoding the encoding of `s` followed by anything gives `s` followed by
   * the decoding of what follows: a well-formed prefix is read back exactly.
   */
  lemma {:induction false} DecodeEncode(s: string, rest: seq<Byte>)
    ensures Decode(Encode(s) + rest) == s + Decode(rest)
  {
    if s == [] {
      assert Encode(s) + rest == rest;
    } else {
      var head := EncodeChar(s[0]);
      var tail := Encode(s[1..]) + rest;
      calc {
        Decode(Encode(s) + rest);
        { assert Encode(s) + rest == head + tail; }
        Decode(head + tail);
        { DecodeCons(s[0], tail); }
        [s[0]] + Decode(tail);
        { DecodeEncode(s[1..], rest); }
        [s[0]] + (s[1..] + Decode(rest));
        { assert s == [s[0]] + s[1..]; }
        s + Decode(rest);
      }
    }
  }

  /** Decoding undoes encoding. */
  lemma DecodeEncodeRoundTrip(s: string)
    ensures Decode(Encode(s)) == s
  {
    DecodeEncode(s, []);
    assert Encode(s) + [] == Encode(s);
  }

  /**
   * Bytes that are all 0x00 decode to NUL characters and bytes that are all
   * 0xFF, which never occur in UTF-8, to one U+FFFD each.
   */
  lemma {:induction false} DecodeUniform(bytes: seq<Byte>, v: Byte)
    requires v == 0 || v == 0xFF
    requires forall i :: 0 <= i < |bytes| ==> bytes[i] == v
    ensures var c := if v == 0 then 0 as char else Replacement;
      |Decode(bytes)| == |bytes| && forall i :: 0 <= i < |bytes| ==> Decode(bytes)[i] == c
  {
    if bytes != [] {
      assert DecodeHead(bytes).1 == 1;
      DecodeUniform(bytes[1..], v);
    }
  }
}
