/**
 * UTF-8 as Node applies it: `Buffer.from(string)` encodes a string's code points,
 * `buffer.toString('utf8')` decodes and substitutes one U+FFFD for each maximal
 * subpart of an ill-formed sequence instead of failing.
 */
module Utf8 {
  import opened Bytes

  /** The character U+FFFD that the decoder substitutes for malformed bytes. */
  const Replacement: char := '\U{FFFD}'

  /** A continuation byte, 10xxxxxx. */
  predicate IsCont(b: byte) {
    0x80 <= b < 0xC0
  }

  /** A Unicode scalar value: a code point that is not a surrogate. */
  predicate IsScalar(n: int) {
    0 <= n < 0xD800 || 0xE000 <= n < 0x11_0000
  }

  /** The shortest UTF-8 form of one character. */
  function EncodeChar(c: char): (r: seq<byte>)
    ensures 1 <= |r| <= 4
    ensures (c as int < 0x80) <==> |r| == 1
  {
    var n := c as int;
    if n < 0x80 then [n as byte]
    else if n < 0x800 then [(0xC0 + n / 64) as byte, (0x80 + n % 64) as byte]
    else if n < 0x1_0000 then
      [(0xE0 + n / 4096) as byte, (0x80 + (n / 64) % 64) as byte, (0x80 + n % 64) as byte]
    else
      [(0xF0 + n / 262144) as byte, (0x80 + (n / 4096) % 64) as byte,
       (0x80 + (n / 64) % 64) as byte, (0x80 + n % 64) as byte]
  }

  /** `Buffer.from(s)`: the UTF-8 bytes of a string. */
  function Encode(s: string): (r: seq<byte>)
    ensures |r| >= |s|
  {
    if s == [] then [] else EncodeChar(s[0]) + Encode(s[1..])
  }

  /** The continuation bytes a lead byte announces; 0 for a byte that starts no
    * well-formed sequence (a continuation byte, `C0`, `C1`, `F5`-`FF`). */
  function Needed(b0: byte): nat {
    if 0xC2 <= b0 <= 0xDF then 1
    else if 0xE0 <= b0 <= 0xEF then 2
    else if 0xF0 <= b0 <= 0xF4 then 3
    else 0
  }

  /** The range the byte after lead `b0` must lie in (table 3-7 of the Unicode Standard):
    * narrower than `80`-`BF` after `E0` and `F0` (no overlong forms), `ED` (no
    * surrogates) and `F4` (nothing above U+10FFFF). */
  function SecondLow(b0: byte): byte {
    if b0 == 0xE0 then 0xA0 else if b0 == 0xF0 then 0x90 else 0x80
  }

  function SecondHigh(b0: byte): byte {
    if b0 == 0xED then 0x9F else if b0 == 0xF4 then 0x8F else 0xBF
  }

  /** How many bytes after the lead continue a well-formed sequence, at most `Needed`. */
  function Accepted(b: seq<byte>): (k: nat)
    requires |b| > 0
    ensures k <= Needed(b[0]) && k < |b|
  {
    var need := Needed(b[0]);
    if need == 0 || |b| < 2 || !(SecondLow(b[0]) <= b[1] <= SecondHigh(b[0])) then 0
    else if need == 1 || |b| < 3 || !IsCont(b[2]) then 1
    else if need == 2 || |b| < 4 || !IsCont(b[3]) then 2
    else 3
  }

  /** The character at the front of `b` and the number of bytes it takes. Where the bytes
    * do not form a well-formed sequence, the maximal subpart of one (its lead byte and the
    * continuation bytes that still fit) becomes a single U+FFFD, as in V8's decoder. */
  function DecodeFirst(b: seq<byte>): (r: (char, nat))
    requires |b| > 0
    ensures 1 <= r.1 <= |b|
    ensures r.1 == 1 + Accepted(b)
    ensures b[0] < 0x80 ==> r == (b[0] as char, 1)
    ensures b[0] >= 0x80 && Accepted(b) < Needed(b[0]) ==> r.0 == Replacement
    ensures Needed(b[0]) == 0 ==> r.1 == 1
  {
    var b0 := b[0] as int;
    var k := Accepted(b);
    if b0 < 0x80 then (b0 as char, 1)
    else if k < Needed(b[0]) || k == 0 then (Replacement, 1 + k)
    else if k == 1 then (((b0 - 0xC0) * 64 + (b[1] as int - 0x80)) as char, 2)
    else if k == 2 then
      (((b0 - 0xE0) * 4096 + (b[1] as int - 0x80) * 64 + (b[2] as int - 0x80)) as char, 3)
    else
      (((b0 - 0xF0) * 262144 + (b[1] as int - 0x80) * 4096
        + (b[2] as int - 0x80) * 64 + (b[3] as int - 0x80)) as char, 4)
  }

  /** A truncated sequence is one replacement, not one per byte: `E2 82 41` reads as U+FFFD
    * followed by `A`; a byte that leads nothing is replaced on its own, so the overlong
    * `C0 80` gives two. */
  lemma MaximalSubparts()
    ensures Decode([0xE2, 0x82, 0x41]) == [Replacement, 'A']
    ensures Decode([0xC0, 0x80]) == [Replacement, Replacement]
  {
    var b: seq<byte> := [0xE2, 0x82, 0x41];
    assert Accepted(b) == 1;
    assert b[2..] == [0x41];
    assert Decode(b[2..]) == ['A'];
    var c: seq<byte> := [0xC0, 0x80];
    assert c[1..] == [0x80];
    assert Decode(c[1..]) == [Replacement];
  }

  /** `buffer.toString('utf8')`: total; malformed input yields U+FFFD, never an error. */
  function Decode(b: seq<byte>): (r: string)
    ensures |r| <= |b|
    decreases |b|
  {
    if b == [] then "" else
      var (c, k) := DecodeFirst(b);
      [c] + Decode(b[k..])
  }

  /** The decoder reads back exactly the character the encoder wrote. */
  lemma DecodeFirstEncodeChar(c: char, rest: seq<byte>)
    ensures DecodeFirst(EncodeChar(c) + rest) == (c, |EncodeChar(c)|)
  {
    var n := c as int;
    if n < 0x80 {
    } else if n < 0x800 {
      DecodeTwo(c, rest);
    } else if n < 0x1_0000 {
      DecodeThree(c, rest);
    } else {
      DecodeFour(c, rest);
    }
  }

  lemma DecodeTwo(c: char, rest: seq<byte>)
    requires 0x80 <= c as int < 0x800
    ensures DecodeFirst(EncodeChar(c) + rest) == (c, 2)
  {
    var n := c as int;
    var e := EncodeChar(c) + rest;
    var q, r := n / 64, n % 64;
    assert n == q * 64 + r;
    assert 2 <= q < 32;
    assert e[0] as int == 0xC0 + q && e[1] as int == 0x80 + r;
    assert Needed(e[0]) == 1 && Accepted(e) == 1;
  }

  lemma DecodeThree(c: char, rest: seq<byte>)
    requires 0x800 <= c as int < 0x1_0000
    ensures DecodeFirst(EncodeChar(c) + rest) == (c, 3)
  {
    var n := c as int;
    var e := EncodeChar(c) + rest;
    var q2, q1, r := n / 4096, (n / 64) % 64, n % 64;
    assert n == (n / 64) * 64 + r;
    assert n / 64 == q2 * 64 + q1;
    assert e[0] as int == 0xE0 + q2 && e[1] as int == 0x80 + q1 && e[2] as int == 0x80 + r;
    assert q2 * 4096 + q1 * 64 + r == n;
    assert q2 == 0 ==> q1 >= 0x20;
    assert q2 == 0xD ==> n < 0xD800 && q1 < 0x20;
    assert Needed(e[0]) == 2 && Accepted(e) == 2;
  }

  lemma DecodeFour(c: char, rest: seq<byte>)
    requires 0x1_0000 <= c as int
    ensures DecodeFirst(EncodeChar(c) + rest) == (c, 4)
  {
    var n := c as int;
    var e := EncodeChar(c) + rest;
    var q3, q2, q1, r := n / 262144, (n / 4096) % 64, (n / 64) % 64, n % 64;
    FourDigits(n);
    assert e[0] as int == 0xF0 + q3 && e[1] as int == 0x80 + q2;
    assert e[2] as int == 0x80 + q1 && e[3] as int == 0x80 + r;
    assert q3 == 0 ==> q2 >= 0x10;
    assert q3 == 4 ==> q2 < 0x10;
    assert Needed(e[0]) == 3 && Accepted(e) == 3;
  }

  /** The four base-64 digits of a supplementary code point put back together. */
  lemma FourDigits(n: int)
    requires 0x1_0000 <= n <= 0x10_FFFF
    ensures n / 262144 < 8
    ensures n / 262144 * 262144 + (n / 4096) % 64 * 4096 + (n / 64) % 64 * 64 + n % 64 == n
  {
    var q3, q2, q1, r := n / 262144, (n / 4096) % 64, (n / 64) % 64, n % 64;
    assert n == (n / 64) * 64 + r;
    assert n / 64 == (n / 4096) * 64 + q1;
    assert n / 4096 == q3 * 64 + q2;
  }

  /** Round trip: decoding the UTF-8 form of any string gives the string back. */
  lemma {:induction false} DecodeEncode(s: string)
    ensures Decode(Encode(s)) == s
  {
    if s != [] {
      var e := EncodeChar(s[0]);
      DecodeFirstEncodeChar(s[0], Encode(s[1..]));
      assert (e + Encode(s[1..]))[|e|..] == Encode(s[1..]);
      DecodeEncode(s[1..]);
    }
  }
}
