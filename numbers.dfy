/**
 * JavaScript's `parseInt(s)` with no radix: leading whitespace skipped, an optional
 * sign, a `0x`/`0X` prefix switching to base 16, then the longest run of digits.
 * `None` stands for `NaN` (no digit at all).
 */
module Numbers {
  import opened Wrappers
  import opened Strings

  function DigitValue(c: char): int {
    if '0' <= c <= '9' then c as int - '0' as int
    else if 'a' <= c <= 'f' then c as int - 'a' as int + 10
    else if 'A' <= c <= 'F' then c as int - 'A' as int + 10
    else -1
  }

  predicate IsDigitIn(c: char, radix: nat) {
    0 <= DigitValue(c) < radix
  }

  /** The length of the longest prefix of digits in `radix`. */
  function DigitRun(s: string, radix: nat): (n: nat)
    ensures n <= |s|
    ensures forall i :: 0 <= i < n ==> IsDigitIn(s[i], radix)
    ensures n < |s| ==> !IsDigitIn(s[n], radix)
  {
    if s == [] || !IsDigitIn(s[0], radix) then 0 else 1 + DigitRun(s[1..], radix)
  }

  /** The value of a string of digits in `radix`, most significant first. */
  function RadixValue(s: string, radix: nat): nat
    requires forall i :: 0 <= i < |s| ==> IsDigitIn(s[i], radix)
  {
    if s == [] then 0
    else
      var init, last := s[..|s| - 1], s[|s| - 1];
      assert forall i :: 0 <= i < |init| ==> init[i] == s[i];
      assert IsDigitIn(last, radix);
      var v := RadixValue(init, radix);
      assert v * radix >= 0 by { NonNegativeProduct(v, radix); }
      v * radix + DigitValue(last)
  }

  lemma NonNegativeProduct(a: nat, b: nat)
    ensures a * b >= 0
  {
  }

  /** `0x` or `0X` at the front. */
  predicate HasHexPrefix(u: string) {
    |u| >= 2 && u[0] == '0' && (u[1] == 'x' || u[1] == 'X')
  }

  /** The unsigned part: a hexadecimal run after `0x`, else a decimal run. */
  function ParseUnsigned(u: string): (r: Option<nat>)
    ensures r.None? <==>
      if HasHexPrefix(u) then u[2..] == [] || !IsDigitIn(u[2], 16) else u == [] || !IsDigitIn(u[0], 10)
  {
    var radix := if HasHexPrefix(u) then 16 else 10;
    var digits := if HasHexPrefix(u) then u[2..] else u;
    var n := DigitRun(digits, radix);
    if n == 0 then None else Some(RadixValue(digits[..n], radix))
  }

  /** `parseInt(s)`: whitespace, then a sign, then the unsigned part. */
  function ParseInt(s: string): Option<int> {
    ParseSigned(TrimStart(s))
  }

  /** The part after the leading whitespace: an optional sign and the unsigned part. */
  function ParseSigned(t: string): Option<int> {
    var negative := |t| > 0 && t[0] == '-';
    var u := if |t| > 0 && (t[0] == '-' || t[0] == '+') then t[1..] else t;
    match ParseUnsigned(u)
    case None => None
    case Some(v) => Some(if negative then -(v as int) else v as int)
  }

  lemma {:induction false} RadixDecimal(s: string)
    requires forall i :: 0 <= i < |s| ==> '0' <= s[i] <= '9'
    ensures RadixValue(s, 10) == DigitsValue(s)
  {
    if s != [] {
      RadixDecimal(s[..|s| - 1]);
    }
  }

  lemma DigitRunAll(s: string, rest: string)
    requires forall i :: 0 <= i < |s| ==> '0' <= s[i] <= '9'
    requires rest == [] || !IsDigitIn(rest[0], 10)
    ensures DigitRun(s + rest, 10) == |s|
    decreases |s|
  {
    var t := s + rest;
    if s != [] {
      assert t[0] == s[0] && IsDigitIn(t[0], 10);
      assert t[1..] == s[1..] + rest;
      DigitRunAll(s[1..], rest);
      assert DigitRun(t, 10) == 1 + DigitRun(t[1..], 10);
    } else {
      assert t == rest;
    }
  }

  /** The unsigned part of a decimal numeral followed by anything that is not a digit. */
  lemma UnsignedDecimal(n: nat, rest: string)
    requires rest == [] || !IsDigitIn(rest[0], 10)
    requires n == 0 ==> rest == [] || (rest[0] != 'x' && rest[0] != 'X')
    ensures ParseUnsigned(NatToString(n) + rest) == Some(n)
  {
    var d := NatToString(n);
    var body := d + rest;
    assert body[0] == d[0];
    assert !HasHexPrefix(body) by {
      if |body| >= 2 && body[0] == '0' {
        if |d| >= 2 {
          assert body[1] == d[1];
        } else {
          assert n == 0 && body[1] == rest[0];
        }
      }
    }
    DigitRunAll(d, rest);
    assert body[..|d|] == d;
    RadixDecimal(d);
    NatToStringValue(n);
  }

  /** Without leading whitespace there is nothing to skip. */
  lemma ParseIntNoSpace(s: string)
    requires s == [] || !IsSpace(s[0])
    ensures ParseInt(s) == ParseSigned(s)
  {
    assert TrimStart(s) == s;
  }

  /** With no whitespace and no sign in front, `parseInt` is the unsigned part. */
  lemma ParseUnsignedFront(s: string)
    requires s != [] && '0' <= s[0] <= '9'
    ensures ParseInt(s) == match ParseUnsigned(s) case None => None case Some(v) => Some(v as int)
  {
    ParseIntNoSpace(s);
  }

  /** A leading `-` negates the unsigned part after it. */
  lemma ParseNegated(u: string, n: nat)
    requires ParseUnsigned(u) == Some(n)
    ensures ParseInt("-" + u) == Some(-(n as int))
  {
    SignedNegated(u, n);
    ParseIntNoSpace("-" + u);
  }

  lemma SignedNegated(u: string, n: nat)
    requires ParseUnsigned(u) == Some(n)
    ensures ParseSigned("-" + u) == Some(-(n as int))
  {
    var t := "-" + u;
    assert t[0] == '-' && t[1..] == u;
  }

  /** `parseInt` reads a decimal number back, also with trailing non-digits (`"12abc"` is 12). */
  lemma ParseDecimal(n: nat, rest: string)
    requires rest == [] || !IsDigitIn(rest[0], 10)
    requires n == 0 ==> rest == [] || (rest[0] != 'x' && rest[0] != 'X')
    ensures ParseInt(NatToString(n) + rest) == Some(n as int)
  {
    var s := NatToString(n) + rest;
    assert s[0] == NatToString(n)[0];
    ParseUnsignedFront(s);
    UnsignedDecimal(n, rest);
  }

  /** ... and with a minus sign in front. */
  lemma ParseNegativeDecimal(n: nat, rest: string)
    requires rest == [] || !IsDigitIn(rest[0], 10)
    requires n == 0 ==> rest == [] || (rest[0] != 'x' && rest[0] != 'X')
    ensures ParseInt("-" + (NatToString(n) + rest)) == Some(-(n as int))
  {
    UnsignedDecimal(n, rest);
    ParseNegated(NatToString(n) + rest, n);
  }

  lemma HexRun()
    ensures DigitRun("1a", 16) == 2 && RadixValue("1a", 16) == 26
  {
    assert "1a"[1..] == "a" && "a"[1..] == "";
    assert "1a"[..1] == "1" && "1"[..0] == "";
  }

  /** A hexadecimal literal: `parseInt("0x1a")` is 26. */
  lemma ParseHex()
    ensures ParseInt("0x1a") == Some(26)
  {
    var s := "0x1a";
    assert s[0] == '0';
    ParseUnsignedFront(s);
    HexDigits(s);
  }

  lemma HexDigits(s: string)
    requires s == "0x1a"
    ensures ParseUnsigned(s) == Some(26)
  {
    assert HasHexPrefix(s);
    assert s[2..] == "1a";
    HexRun();
    assert "1a"[..2] == "1a";
  }

  /** No digit, no number. */
  lemma NotANumber()
    ensures ParseInt("") == None && ParseInt("abc") == None
  {
    ParseIntNoSpace("");
    var s := "abc";
    assert s[0] == 'a';
    ParseIntNoSpace(s);
    assert !IsDigitIn(s[0], 10) && !HasHexPrefix(s);
    assert ParseUnsigned(s) == None;
  }
}
