/**
 * Base64 as Node's `Buffer` applies it. Encoding uses the URL-safe alphabet of
 * section 5 of RFC 4648 without padding (`toString('base64url')`); decoding is Node's
 * lenient decoder, which reads the low byte of each UTF-16 code unit of the text,
 * accepts both alphabets on those bytes, skips bytes outside them, stops at the first
 * `=` byte and never fails.
 */
module Base64 {
  import opened Bytes

  /** A 6-bit group value. */
  predicate IsSextet(v: int) {
    0 <= v < 64
  }

  predicate AllSextets(vs: seq<int>) {
    forall i :: 0 <= i < |vs| ==> IsSextet(vs[i])
  }

  /** A character of the URL-safe alphabet `[A-Za-z0-9_-]`. */
  predicate IsUrlSafe(c: char) {
    ('A' <= c <= 'Z') || ('a' <= c <= 'z') || ('0' <= c <= '9') || c == '-' || c == '_'
  }

  /** The URL-safe alphabet's character for a 6-bit value. */
  function UrlDigit(v: int): (c: char)
    requires IsSextet(v)
    ensures IsUrlSafe(c)
  {
    if v < 26 then ('A' as int + v) as char
    else if v < 52 then ('a' as int + v - 26) as char
    else if v < 62 then ('0' as int + v - 52) as char
    else if v == 62 then '-'
    else '_'
  }

  /** The value Node's decoder gives a character, in either alphabet; -1 for any other. */
  function SextetValue(c: char): (v: int)
    ensures v == -1 || IsSextet(v)
  {
    if 'A' <= c <= 'Z' then c as int - 'A' as int
    else if 'a' <= c <= 'z' then c as int - 'a' as int + 26
    else if '0' <= c <= '9' then c as int - '0' as int + 52
    else if c == '+' || c == '-' then 62
    else if c == '/' || c == '_' then 63
    else -1
  }

  lemma ValueOfDigit(v: int)
    requires IsSextet(v)
    ensures SextetValue(UrlDigit(v)) == v
  {
  }

  /** The 6-bit groups of `b`: four per three bytes, two or three for a short tail. */
  function EncodeSextets(b: seq<byte>): (r: seq<int>)
    ensures AllSextets(r)
    ensures |r| == (4 * |b| + 2) / 3
  {
    if |b| == 0 then []
    else if |b| == 1 then [b[0] as int / 4, (b[0] as int % 4) * 16]
    else if |b| == 2 then
      [b[0] as int / 4, (b[0] as int % 4) * 16 + b[1] as int / 16, (b[1] as int % 16) * 4]
    else
      [b[0] as int / 4, (b[0] as int % 4) * 16 + b[1] as int / 16,
       (b[1] as int % 16) * 4 + b[2] as int / 64, b[2] as int % 64] + EncodeSextets(b[3..])
  }

  /** `buffer.toString('base64url')`: URL-safe characters only, no padding. */
  function Encode(b: seq<byte>): (r: string)
    ensures forall i :: 0 <= i < |r| ==> IsUrlSafe(r[i])
    ensures |r| == (4 * |b| + 2) / 3
  {
    var vs := EncodeSextets(b);
    seq(|vs|, i requires 0 <= i < |vs| => UrlDigit(vs[i]))
  }

  /** The low byte of each UTF-16 code unit of `c`: a character outside the Basic
    * Multilingual Plane is a surrogate pair, and contributes the low bytes of both. */
  function UnitBytes(c: char): (r: seq<byte>)
    ensures |r| == (if c as int < 0x1_0000 then 1 else 2)
    ensures c as int < 0x100 ==> r == [c as int as byte]
  {
    var n := c as int;
    if n < 0x1_0000 then [(n % 256) as byte]
    else
      var m := n - 0x1_0000;
      [((0xD800 + m / 0x400) % 256) as byte, ((0xDC00 + m % 0x400) % 256) as byte]
  }

  /** The bytes the decoder looks at: one per UTF-16 code unit, so `|LowBytes(s)|` is the
    * JavaScript `length` of `s`. */
  function LowBytes(s: string): seq<byte> {
    if s == [] then [] else UnitBytes(s[0]) + LowBytes(s[1..])
  }

  lemma {:induction false} LowBytesConcat(a: string, b: string)
    ensures LowBytes(a + b) == LowBytes(a) + LowBytes(b)
  {
    if a == [] {
      assert a + b == b;
    } else {
      assert (a + b)[0] == a[0] && (a + b)[1..] == a[1..] + b;
      LowBytesConcat(a[1..], b);
      calc {
        LowBytes(a + b);
        UnitBytes(a[0]) + LowBytes(a[1..] + b);
        UnitBytes(a[0]) + (LowBytes(a[1..]) + LowBytes(b));
        (UnitBytes(a[0]) + LowBytes(a[1..])) + LowBytes(b);
      }
    }
  }

  /** Text in the one-byte range is read byte for byte. */
  lemma {:induction false} LowBytesLatin1(s: string)
    requires forall i :: 0 <= i < |s| ==> s[i] as int < 0x100
    ensures |LowBytes(s)| == |s|
    ensures forall i :: 0 <= i < |s| ==> LowBytes(s)[i] == s[i] as int as byte
  {
    if s != [] {
      LowBytesLatin1(s[1..]);
    }
  }

  /** The byte `=`. */
  const PadByte: byte := 0x3D

  /** The value the decoder gives a byte, read as a character of either alphabet. */
  function ByteValue(b: byte): (v: int)
    ensures v == -1 || IsSextet(v)
  {
    SextetValue(b as int as char)
  }

  /** The values the decoder reads from bytes: up to the first `=`, others skipped. */
  function ByteSextets(u: seq<byte>): (r: seq<int>)
    ensures AllSextets(r)
  {
    if u == [] || u[0] == PadByte then []
    else if ByteValue(u[0]) < 0 then ByteSextets(u[1..])
    else [ByteValue(u[0])] + ByteSextets(u[1..])
  }

  /** The values the decoder reads from a string. */
  function Sextets(s: string): (r: seq<int>)
    ensures AllSextets(r)
  {
    ByteSextets(LowBytes(s))
  }

  /** Bytes that read alike keep reading alike behind the same prefix. */
  lemma {:induction false} ByteSextetsBehind(p: seq<byte>, x: seq<byte>, y: seq<byte>)
    requires ByteSextets(x) == ByteSextets(y)
    ensures ByteSextets(p + x) == ByteSextets(p + y)
  {
    if p == [] {
      assert p + x == x && p + y == y;
    } else {
      assert (p + x)[0] == p[0] && (p + x)[1..] == p[1..] + x;
      assert (p + y)[0] == p[0] && (p + y)[1..] == p[1..] + y;
      ByteSextetsBehind(p[1..], x, y);
    }
  }

  /** Whatever follows an `=` byte is never read. */
  lemma {:induction false} ByteSextetsStopAtPad(u: seq<byte>, t: seq<byte>)
    requires t == [] || t[0] == PadByte
    ensures ByteSextets(u + t) == ByteSextets(u)
  {
    if u == [] {
      assert u + t == t;
    } else {
      assert (u + t)[0] == u[0] && (u + t)[1..] == u[1..] + t;
      ByteSextetsStopAtPad(u[1..], t);
    }
  }

  /** Bytes from 6-bit groups: three per four, one or two for a tail of two or three;
    * a single trailing group carries no whole byte and is dropped. */
  function DecodeSextets(vs: seq<int>): (r: seq<byte>)
    requires AllSextets(vs)
    ensures |r| == 3 * |vs| / 4
  {
    if |vs| < 2 then []
    else if |vs| == 2 then [(vs[0] * 4 + vs[1] / 16) as byte]
    else if |vs| == 3 then [(vs[0] * 4 + vs[1] / 16) as byte, ((vs[1] % 16) * 16 + vs[2] / 4) as byte]
    else
      [(vs[0] * 4 + vs[1] / 16) as byte, ((vs[1] % 16) * 16 + vs[2] / 4) as byte,
       ((vs[2] % 4) * 64 + vs[3]) as byte] + DecodeSextets(vs[4..])
  }

  /** `Buffer.from(s, 'base64')` and `Buffer.from(s, 'base64url')`: total. */
  function Decode(s: string): seq<byte> {
    DecodeSextets(Sextets(s))
  }

  /** The decoder reads back exactly the groups the encoder wrote. */
  lemma {:induction false} SextetsOfEncode(b: seq<byte>)
    ensures Sextets(Encode(b)) == EncodeSextets(b)
  {
    var vs := EncodeSextets(b);
    SextetsOfDigits(vs);
  }

  lemma {:induction false} SextetsOfDigits(vs: seq<int>)
    requires AllSextets(vs)
    ensures Sextets(seq(|vs|, i requires 0 <= i < |vs| => UrlDigit(vs[i]))) == vs
  {
    var s := seq(|vs|, i requires 0 <= i < |vs| => UrlDigit(vs[i]));
    if vs != [] {
      ValueOfDigit(vs[0]);
      var b := s[0] as int as byte;
      assert UnitBytes(s[0]) == [b] && b != PadByte && ByteValue(b) == vs[0];
      assert LowBytes(s) == [b] + LowBytes(s[1..]);
      assert ([b] + LowBytes(s[1..]))[1..] == LowBytes(s[1..]);
      assert s[1..] == seq(|vs[1..]|, i requires 0 <= i < |vs[1..]| => UrlDigit(vs[1..][i]));
      SextetsOfDigits(vs[1..]);
    }
  }

  lemma ByteGroup(b0: int, b1: int, b2: int)
    requires 0 <= b0 < 256 && 0 <= b1 < 256 && 0 <= b2 < 256
    ensures (b0 / 4) * 4 + ((b0 % 4) * 16 + b1 / 16) / 16 == b0
    ensures (((b0 % 4) * 16 + b1 / 16) % 16) * 16 + ((b1 % 16) * 4 + b2 / 64) / 4 == b1
    ensures (((b1 % 16) * 4 + b2 / 64) % 4) * 64 + b2 % 64 == b2
  {
    var h, l := b1 / 16, b1 % 16;
    assert ((b0 % 4) * 16 + h) / 16 == b0 % 4 && ((b0 % 4) * 16 + h) % 16 == h;
    var u, w := b2 / 64, b2 % 64;
    assert (l * 4 + u) / 4 == l && (l * 4 + u) % 4 == u;
  }

  /** Decoding the groups of any byte string gives the bytes back. */
  lemma {:induction false} DecodeEncodeSextets(b: seq<byte>)
    ensures DecodeSextets(EncodeSextets(b)) == b
    decreases |b|
  {
    if |b| >= 3 {
      DecodeFirstGroup(b);
      DecodeEncodeSextets(b[3..]);
      assert b == b[..3] + b[3..];
    } else if |b| >= 1 {
      DecodeShortTail(b);
    }
  }

  /** The first four groups decode to the first three bytes. */
  lemma {:induction false} DecodeFirstGroup(b: seq<byte>)
    requires |b| >= 3
    ensures DecodeSextets(EncodeSextets(b)) == b[..3] + DecodeSextets(EncodeSextets(b[3..]))
  {
    var b0, b1, b2 := b[0] as int, b[1] as int, b[2] as int;
    ByteGroup(b0, b1, b2);
    var rest := EncodeSextets(b[3..]);
    var vs := [b0 / 4, (b0 % 4) * 16 + b1 / 16, (b1 % 16) * 4 + b2 / 64, b2 % 64] + rest;
    assert EncodeSextets(b) == vs;
    assert vs[4..] == rest;
    assert DecodeSextets(vs) == [b0 as byte, b1 as byte, b2 as byte] + DecodeSextets(rest);
    assert b[..3] == [b0 as byte, b1 as byte, b2 as byte];
  }

  /** A tail of one or two bytes comes back from its two or three groups. */
  lemma {:induction false} DecodeShortTail(b: seq<byte>)
    requires 1 <= |b| <= 2
    ensures DecodeSextets(EncodeSextets(b)) == b
  {
    var b0 := b[0] as int;
    if |b| == 1 {
      ByteGroup(b0, 0, 0);
      assert EncodeSextets(b) == [b0 / 4, (b0 % 4) * 16];
    } else {
      var b1 := b[1] as int;
      ByteGroup(b0, b1, 0);
      assert EncodeSextets(b) == [b0 / 4, (b0 % 4) * 16 + b1 / 16, (b1 % 16) * 4];
    }
  }

  /** Round trip: Node's decoder inverts the URL-safe encoding of any byte string. */
  lemma DecodeEncode(b: seq<byte>)
    ensures Decode(Encode(b)) == b
  {
    SextetsOfEncode(b);
    DecodeEncodeSextets(b);
  }

  /** Whatever follows an `=` is never read. */
  lemma SextetsStopAtPad(s: string, tail: string)
    requires tail == [] || tail[0] == '='
    ensures Sextets(s + tail) == Sextets(s)
  {
    LowBytesConcat(s, tail);
    if tail != [] {
      assert LowBytes(tail) == UnitBytes(tail[0]) + LowBytes(tail[1..]);
    }
    ByteSextetsStopAtPad(LowBytes(s), LowBytes(tail));
  }

  /** Two characters with the same code-unit bytes read alike, wherever they stand. */
  lemma SameUnitBytes(p: string, c: char, d: char, q: string)
    requires UnitBytes(c) == UnitBytes(d)
    ensures Sextets(p + [c] + q) == Sextets(p + [d] + q)
  {
    assert LowBytes([c]) == UnitBytes(c) + LowBytes([]);
    assert LowBytes([d]) == UnitBytes(d) + LowBytes([]);
    LowBytesConcat(p, [c]);
    LowBytesConcat(p + [c], q);
    LowBytesConcat(p, [d]);
    LowBytesConcat(p + [d], q);
  }

  /** A character whose first code unit has the low byte of `=` ends the input. */
  lemma PadUnit(p: string, c: char, q: string)
    requires UnitBytes(c)[0] == PadByte
    ensures Sextets(p + [c] + q) == Sextets(p)
  {
    assert p + [c] + q == p + ([c] + q);
    assert ([c] + q)[0] == c && ([c] + q)[1..] == q;
    LowBytesConcat(p, [c] + q);
    ByteSextetsStopAtPad(LowBytes(p), LowBytes([c] + q));
  }

  /** Node reads a character by the low byte of its code units: `Ł` (U+0141) reads as `A`. */
  lemma LowByteOfLatinExtended(p: string, q: string)
    ensures Decode(p + ['\U{141}'] + q) == Decode(p + ['A'] + q)
  {
    SameUnitBytes(p, '\U{141}', 'A', q);
  }

  /** `Ľ` (U+013D) has the low byte of `=`, so it ends the input. */
  lemma LowBytePadLatinExtended(p: string, q: string)
    ensures Decode(p + ['\U{13D}'] + q) == Decode(p)
  {
    PadUnit(p, '\U{13D}', q);
  }

  /** The emoji U+1F600 is the surrogate pair D83D DE00, whose first low byte is `=`. */
  lemma LowBytePadSurrogate(p: string, q: string)
    ensures Decode(p + ['\U{1F600}'] + q) == Decode(p)
  {
    PadUnit(p, '\U{1F600}', q);
  }
}
