/** UTF-8 (RFC 3629) over Unicode scalar values, which is what a Dafny `char` is.
    Encoding is `Encoding.UTF8.GetBytes`; decoding is `Encoding.UTF8.GetString`,
    which never fails: each maximal ill-formed subpart is replaced by U+FFFD, as
    the Unicode Standard (section 3.9, "U+FFFD Substitution of Maximal Subparts")
    recommends. */
module Utf8 {
  import opened Wrappers

  const Replacement: char := '\U{FFFD}'

  /** The bytes of one scalar value (Table 3-6 of the Unicode Standard). */
  function EncodeChar(c: char): (b: seq<byte>)
    ensures 1 <= |b| <= 4
  {
    var n := c as int;
    if n < 0x80 then [n]
    else if n < 0x800 then [0xC0 + n / 64, 0x80 + n % 64]
    else if n < 0x10000 then [0xE0 + n / 4096, 0x80 + (n / 64) % 64, 0x80 + n % 64]
    else [0xF0 + n / 262144, 0x80 + (n / 4096) % 64, 0x80 + (n / 64) % 64, 0x80 + n % 64]
  }

  /** `Encoding.UTF8.GetBytes`: the characters' encodings, concatenated. */
  function Encode(s: string): (b: seq<byte>)
    ensures |s| <= |b| <= 4 * |s|
  {
    if s == [] then [] else EncodeChar(s[0]) + Encode(s[1..])
  }

  predicate IsContinuation(x: byte) {
    0x80 <= x <= 0xBF
  }

  /** Length of the well-formed sequence a leading byte announces, 0 for a byte that
      cannot start one (Table 3-7 of the Unicode Standard). */
  function SequenceLength(lead: byte): nat {
    if lead < 0x80 then 1
    else if 0xC2 <= lead <= 0xDF then 2
    else if 0xE0 <= lead <= 0xEF then 3
    else if 0xF0 <= lead <= 0xF4 then 4
    else 0
  }

  /** The second byte's range narrows for some leading bytes, ruling out overlong
      forms, surrogates and values above U+10FFFF. */
  predicate IsSecondByte(lead: byte, x: byte) {
    if lead == 0xE0 then 0xA0 <= x <= 0xBF
    else if lead == 0xED then 0x80 <= x <= 0x9F
    else if lead == 0xF0 then 0x90 <= x <= 0xBF
    else if lead == 0xF4 then 0x80 <= x <= 0x8F
    else IsContinuation(x)
  }

  /** Length of the longest prefix of `b` that starts a well-formed sequence, at least 1:
      the whole sequence when `b` starts with one, otherwise the maximal subpart. */
  function PrefixLength(b: seq<byte>): (n: nat)
    requires |b| > 0
    ensures 1 <= n <= |b| && n <= 4
  {
    var len := SequenceLength(b[0]);
    if len <= 1 then 1
    else if |b| < 2 || !IsSecondByte(b[0], b[1]) then 1
    else if len == 2 then 2
    else if |b| < 3 || !IsContinuation(b[2]) then 2
    else if len == 3 then 3
    else if |b| < 4 || !IsContinuation(b[3]) then 3
    else 4
  }

  /** The scalar value of a well-formed sequence of `n` bytes at the start of `b`. */
  function ScalarOf(b: seq<byte>, n: nat): char
    requires |b| > 0 && n == SequenceLength(b[0]) && 1 <= n && PrefixLength(b) == n
  {
    if n == 1 then b[0] as char
    else if n == 2 then ((b[0] as int - 0xC0) * 64 + (b[1] as int - 0x80)) as char
    else if n == 3 then ((b[0] as int - 0xE0) * 4096 + (b[1] as int - 0x80) * 64 + (b[2] as int - 0x80)) as char
    else
      ((b[0] as int - 0xF0) * 262144 + (b[1] as int - 0x80) * 4096 + (b[2] as int - 0x80) * 64
       + (b[3] as int - 0x80)) as char
  }

  /** The character at the start of `b` and the number of bytes it consumes. */
  function DecodeStep(b: seq<byte>): (r: (char, nat))
    requires |b| > 0
    ensures 1 <= r.1 <= |b|
  {
    var n := PrefixLength(b);
    if n == SequenceLength(b[0]) then (ScalarOf(b, n), n) else (Replacement, n)
  }

  /** `Encoding.UTF8.GetString`. */
  function Decode(b: seq<byte>): (s: string)
    ensures |s| <= |b|
    decreases |b|
  {
    if b == [] then []
    else
      var (c, n) := DecodeStep(b);
      [c] + Decode(b[n..])
  }

  lemma {:induction false} DecodeTwoBytes(c: char, rest: seq<byte>)
    requires 0x80 <= c as int < 0x800
    ensures DecodeStep(EncodeChar(c) + rest) == (c, 2)
  {
    var n := c as int;
    var b := EncodeChar(c) + rest;
    assert n == (n / 64) * 64 + n % 64;
    assert b[0] == 0xC0 + n / 64 && b[1] == 0x80 + n % 64;
  }

  lemma {:induction false} DecodeThreeBytes(c: char, rest: seq<byte>)
    requires 0x800 <= c as int < 0x10000
    ensures DecodeStep(EncodeChar(c) + rest) == (c, 3)
  {
    var n := c as int;
    var b := EncodeChar(c) + rest;
    var q1, q2 := n / 64, n / 4096;
    assert n == q1 * 64 + n % 64;
    assert q1 == q2 * 64 + q1 % 64;
    assert b[0] == 0xE0 + q2 && b[1] == 0x80 + q1 % 64 && b[2] == 0x80 + n % 64;
  }

  /** The four base-64 digits of a scalar value above U+FFFF, most significant first. */
  lemma {:induction false} FourDigits(n: int)
    requires 0x10000 <= n < 0x110000
    ensures var d3, d2, d1, d0 := n / 262144, (n / 4096) % 64, (n / 64) % 64, n % 64;
      && n == d3 * 262144 + d2 * 4096 + d1 * 64 + d0
      && (d3 == 0 ==> d2 >= 0x10) && (d3 == 4 ==> d2 < 0x10) && d3 <= 4
  {
    var q1, q2, q3 := n / 64, n / 4096, n / 262144;
    assert n == q1 * 64 + n % 64;
    assert q1 == (q1 / 64) * 64 + q1 % 64;
    assert q2 == q1 / 64;
    assert q2 == (q2 / 64) * 64 + q2 % 64;
    assert q3 == q2 / 64;
  }

  lemma {:induction false} DecodeFourBytes(c: char, rest: seq<byte>)
    requires 0x10000 <= c as int
    ensures DecodeStep(EncodeChar(c) + rest) == (c, 4)
  {
    var n := c as int;
    var b := EncodeChar(c) + rest;
    FourDigits(n);
    assert b[0] == 0xF0 + n / 262144 && b[1] == 0x80 + (n / 4096) % 64;
    assert b[2] == 0x80 + (n / 64) % 64 && b[3] == 0x80 + n % 64;
    assert SequenceLength(b[0]) == 4 && PrefixLength(b) == 4;
    assert ScalarOf(b, 4) as int == n;
  }

  /** Decoding the bytes of one character gives that character back and consumes
      exactly its bytes, whatever follows. */
  lemma {:induction false} DecodeStepEncodeChar(c: char, rest: seq<byte>)
    ensures DecodeStep(EncodeChar(c) + rest) == (c, |EncodeChar(c)|)
  {
    var n := c as int;
    if n < 0x80 {
    } else if n < 0x800 {
      DecodeTwoBytes(c, rest);
    } else if n < 0x10000 {
      DecodeThreeBytes(c, rest);
    } else {
      DecodeFourBytes(c, rest);
    }
  }

  /** Decoding undoes encoding. */
  lemma {:induction false} DecodeEncode(s: string)
    ensures Decode(Encode(s)) == s
  {
    if s != [] {
      var e, rest := EncodeChar(s[0]), Encode(s[1..]);
      DecodeStepEncodeChar(s[0], rest);
      assert (e + rest)[|e|..] == rest;
      DecodeEncode(s[1..]);
      assert s == [s[0]] + s[1..];
    }
  }
}
