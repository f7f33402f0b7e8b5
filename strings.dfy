/**
 * The JavaScript string operations the proxy relies on (`indexOf`, `includes`,
 * `startsWith`, `endsWith`, `split` on one character, `join`, `trim`, `replace`
 * of the first occurrence, `toLowerCase` on ASCII), each stated against its meaning.
 */
module Strings {

  /** `sub` occurs in `s` starting at index `k`. */
  predicate OccursAt(s: string, sub: string, k: int) {
    0 <= k && k + |sub| <= |s| && s[k..k + |sub|] == sub
  }

  /** First index at or after `from` where `sub` occurs, or -1 (`s.indexOf(sub, from)`). */
  function IndexFrom(s: string, sub: string, from: nat): (r: int)
    requires from <= |s|
    ensures r == -1 || (from <= r && OccursAt(s, sub, r))
    ensures forall k :: from <= k < (if r == -1 then |s| + 1 else r) ==> !OccursAt(s, sub, k)
    decreases |s| - from
  {
    if OccursAt(s, sub, from) then from
    else if from == |s| then -1
    else IndexFrom(s, sub, from + 1)
  }

  /** `s.indexOf(sub)`: the first occurrence of `sub`, or -1. */
  function IndexOf(s: string, sub: string): (r: int)
    ensures r == -1 || OccursAt(s, sub, r)
    ensures forall k :: 0 <= k < (if r == -1 then |s| + 1 else r) ==> !OccursAt(s, sub, k)
  {
    IndexFrom(s, sub, 0)
  }

  /** `s.includes(sub)`. */
  predicate Contains(s: string, sub: string) {
    IndexOf(s, sub) >= 0
  }

  lemma ContainsIff(s: string, sub: string)
    ensures Contains(s, sub) <==> exists k :: OccursAt(s, sub, k)
  {
  }

  /** A witness occurrence implies `includes`. */
  lemma ContainsAt(s: string, sub: string, k: int)
    requires OccursAt(s, sub, k)
    ensures Contains(s, sub)
  {
    ContainsIff(s, sub);
  }

  /** A string lacking one character of `sub` does not contain `sub`. */
  lemma MissingChar(s: string, sub: string, j: nat)
    requires j < |sub| && sub[j] !in s
    ensures !Contains(s, sub)
  {
    forall k ensures !OccursAt(s, sub, k) {
      if 0 <= k && k + |sub| <= |s| {
        assert s[k..k + |sub|][j] == s[k + j];
        assert s[k + j] in s;
      }
    }
  }

  /** An occurrence inside a prefix or suffix is an occurrence in the whole. */
  lemma ContainsConcat(a: string, b: string, sub: string)
    ensures Contains(a, sub) ==> Contains(a + b, sub)
    ensures Contains(b, sub) ==> Contains(a + b, sub)
  {
    if Contains(a, sub) { ContainsInPrefix(a, b, sub); }
    if Contains(b, sub) { ContainsInSuffix(a, b, sub); }
  }

  lemma ContainsInPrefix(a: string, b: string, sub: string)
    requires Contains(a, sub)
    ensures Contains(a + b, sub)
  {
    var k := IndexOf(a, sub);
    assert (a + b)[k..k + |sub|] == a[k..k + |sub|];
    ContainsAt(a + b, sub, k);
  }

  lemma ContainsInSuffix(a: string, b: string, sub: string)
    requires Contains(b, sub)
    ensures Contains(a + b, sub)
  {
    var k := IndexOf(b, sub);
    assert (a + b)[|a| + k..|a| + k + |sub|] == b[k..k + |sub|];
    ContainsAt(a + b, sub, |a| + k);
  }

  /** `s.startsWith(p)`. */
  predicate StartsWith(s: string, p: string) {
    |p| <= |s| && s[..|p|] == p
  }

  /** Two prefixes that differ at some index cannot both start `s`. */
  lemma StartsWithDiffer(s: string, p: string, q: string, j: nat)
    requires StartsWith(s, p) && j < |p| && j < |q| && p[j] != q[j]
    ensures !StartsWith(s, q)
  {
    assert s[j] == s[..|p|][j];
    if |q| <= |s| {
      assert s[..|q|][j] == s[j];
    }
  }

  /** `s` does not start with `p` when they differ at index `j` (or `s` ends before it). */
  lemma NotPrefix(s: string, p: string, j: nat)
    requires j < |p|
    requires j < |s| ==> s[j] != p[j]
    ensures !StartsWith(s, p)
  {
    if |p| <= |s| {
      assert s[..|p|][j] == s[j];
    }
  }

  /** After the first `n` characters of a prefix `p`, `s` is the rest of `p` and then what follows `p`. */
  lemma DropWithinPrefix(s: string, p: string, n: nat)
    requires StartsWith(s, p) && n <= |p|
    ensures s[n..] == p[n..] + s[|p|..]
  {
    assert s == p + s[|p|..];
  }

  /** `s.endsWith(suf)`. */
  predicate EndsWith(s: string, suf: string) {
    |suf| <= |s| && s[|s| - |suf|..] == suf
  }

  /** `s.lastIndexOf(c)` for a single character. */
  function LastIndexOf(s: string, c: char): (r: int)
    ensures -1 <= r < |s|
    ensures r >= 0 ==> s[r] == c
    ensures forall k :: r < k < |s| ==> s[k] != c
  {
    if |s| == 0 then -1
    else if s[|s| - 1] == c then |s| - 1
    else LastIndexOf(s[..|s| - 1], c)
  }

  /** `parts.join(sep)`. */
  function Join(parts: seq<string>, sep: string): string {
    if |parts| == 0 then ""
    else if |parts| == 1 then parts[0]
    else parts[0] + sep + Join(parts[1..], sep)
  }

  /** Prefixing the first part prefixes the join. */
  lemma JoinExtendHead(a: string, parts: seq<string>, sep: string)
    requires |parts| >= 1
    ensures Join([a + parts[0]] + parts[1..], sep) == a + Join(parts, sep)
  {
    var q := [a + parts[0]] + parts[1..];
    assert q[0] == a + parts[0];
    if |parts| > 1 {
      assert q[1..] == parts[1..];
      assert q[0] + sep + Join(q[1..], sep) == a + (parts[0] + sep + Join(parts[1..], sep));
    }
  }

  /** For a one-character needle, `indexOf` finds the first position holding that character. */
  lemma IndexOfChar(s: string, c: char)
    ensures IndexOf(s, [c]) == -1 <==> c !in s
    ensures IndexOf(s, [c]) >= 0 ==>
      IndexOf(s, [c]) < |s| && s[IndexOf(s, [c])] == c && c !in s[..IndexOf(s, [c])]
  {
    forall k | 0 <= k < |s| ensures OccursAt(s, [c], k) <==> s[k] == c {
      assert s[k..k + 1] == [s[k]];
    }
  }

  /** `s.split(c)` for a one-character separator: the pieces between separators. */
  function Split(s: string, c: char): (r: seq<string>)
    ensures |r| >= 1
    ensures forall i :: 0 <= i < |r| ==> c !in r[i]
    ensures Join(r, [c]) == s
    decreases |s|
  {
    var i := IndexOf(s, [c]);
    if i < 0 then
      IndexOfChar(s, c);
      [s]
    else
      var rest := Split(s[i + 1..], c);
      IndexOfChar(s, c);
      assert s == s[..i] + [c] + s[i + 1..];
      [s[..i]] + rest
  }

  /** `s.split(c)` has more than one field exactly when `c` occurs in `s`. */
  lemma SplitCount(s: string, c: char)
    ensures |Split(s, c)| > 1 <==> c in s
  {
    var r := Split(s, c);
    if |r| > 1 {
      assert s == r[0] + [c] + Join(r[1..], [c]);
      assert s[|r[0]|] == c;
    }
  }

  /** Splitting a join of separator-free pieces gives the pieces back. */
  lemma {:induction false} SplitJoin(parts: seq<string>, c: char)
    requires |parts| >= 1
    requires forall i :: 0 <= i < |parts| ==> c !in parts[i]
    ensures Split(Join(parts, [c]), c) == parts
    decreases |parts|
  {
    var p := parts[0];
    IndexOfChar(p, [c][0]);
    if |parts| == 1 {
    } else {
      var s := Join(parts, [c]);
      var tail := Join(parts[1..], [c]);
      assert s == p + [c] + tail;
      assert s[..|p|] == p && s[|p|] == c;
      IndexOfChar(s, c);
      var i := IndexOf(s, [c]);
      assert c !in s[..|p|];
      assert i == |p| by {
        assert forall k :: 0 <= k < |p| ==> s[k] == s[..|p|][k];
        assert forall k :: 0 <= k < i ==> s[k] == s[..i][k];
      }
      assert s[..|p|] == p;
      assert s[|p| + 1..] == tail;
      SplitJoin(parts[1..], c);
    }
  }

  /** The leading field of `s.split(c)`: everything before the first `c`. */
  lemma SplitFirstNoSep(s: string, c: char)
    requires c !in s
    ensures Split(s, c) == [s]
  {
    SplitJoin([s], c);
  }

  /** Splitting past a leading separator-free field. */
  lemma SplitCons(h: string, c: char, t: string)
    requires c !in h
    ensures Split(h + [c] + t, c) == [h] + Split(t, c)
  {
    var parts := [h] + Split(t, c);
    assert parts[1..] == Split(t, c);
    assert Join(parts, [c]) == h + [c] + t;
    SplitJoin(parts, c);
  }

  /** `s.split(c)[0]`: everything before the first `c`, or all of `s`. */
  function FirstField(s: string, c: char): (r: string)
    ensures c !in r
    ensures StartsWith(s, r)
    ensures |r| < |s| ==> s[|r|] == c
    ensures c !in s ==> r == s
  {
    IndexOfChar(s, c);
    SplitHead(s, c);
    Split(s, c)[0]
  }

  lemma SplitHead(s: string, c: char)
    ensures Split(s, c)[0] == if IndexOf(s, [c]) < 0 then s else s[..IndexOf(s, [c])]
  {
  }

  /** A prefix free of `c` survives cutting at the first `c`. */
  lemma FirstFieldKeepsPrefix(s: string, c: char, p: string)
    requires StartsWith(s, p) && c !in p
    ensures StartsWith(FirstField(s, c), p)
  {
    var f := FirstField(s, c);
    assert forall i :: 0 <= i < |p| ==> s[i] == p[i];
    assert |f| >= |p|;
    assert f == s[..|f|];
    assert f[..|p|] == s[..|p|];
  }

  /** The first field of `h + c + t` is `h` when `h` has no `c`. */
  lemma FirstFieldOf(h: string, c: char, t: string)
    requires c !in h
    ensures FirstField(h + [c] + t, c) == h
  {
    var parts := [h] + Split(t, c);
    assert parts[1..] == Split(t, c);
    assert Join(parts, [c]) == h + [c] + t;
    SplitJoin(parts, c);
  }

  /** The first `n` items of a sequence (`xs.slice(0, n)`). */
  function Take<T>(xs: seq<T>, n: nat): (r: seq<T>)
    ensures |r| == if n < |xs| then n else |xs|
    ensures r <= xs
  {
    if n < |xs| then xs[..n] else xs
  }

  /** The whitespace characters JavaScript's `trim` and `\s` recognise. */
  predicate IsSpace(c: char) {
    var n := c as int;
    (9 <= n <= 13) || n == 0x20 || n == 0xA0 || n == 0x1680 || (0x2000 <= n <= 0x200A)
    || n == 0x2028 || n == 0x2029 || n == 0x202F || n == 0x205F || n == 0x3000 || n == 0xFEFF
  }

  predicate NoSpace(s: string) {
    forall i :: 0 <= i < |s| ==> !IsSpace(s[i])
  }

  function TrimStart(s: string): (r: string)
    ensures |r| <= |s| && r == s[|s| - |r|..]
    ensures forall i :: 0 <= i < |s| - |r| ==> IsSpace(s[i])
    ensures r == [] || !IsSpace(r[0])
  {
    if |s| > 0 && IsSpace(s[0]) then TrimStart(s[1..]) else s
  }

  function TrimEnd(s: string): (r: string)
    ensures |r| <= |s| && r == s[..|r|]
    ensures forall i :: |r| <= i < |s| ==> IsSpace(s[i])
    ensures r == [] || !IsSpace(r[|r| - 1])
  {
    if |s| > 0 && IsSpace(s[|s| - 1]) then TrimEnd(s[..|s| - 1]) else s
  }

  /** `s.trim()`: the string without leading and trailing whitespace. */
  function Trim(s: string): (r: string)
    ensures r == [] || (!IsSpace(r[0]) && !IsSpace(r[|r| - 1]))
  {
    TrimEnd(TrimStart(s))
  }

  /** Trimming takes off nothing from a string that neither starts nor ends with whitespace. */
  lemma TrimNoOp(s: string)
    requires s == [] || (!IsSpace(s[0]) && !IsSpace(s[|s| - 1]))
    ensures Trim(s) == s
  {
  }

  /** Whitespace around a string is exactly what trimming removes. */
  lemma {:induction false} TrimPadded(w1: string, s: string, w2: string)
    requires forall i :: 0 <= i < |w1| ==> IsSpace(w1[i])
    requires forall i :: 0 <= i < |w2| ==> IsSpace(w2[i])
    requires s == [] || (!IsSpace(s[0]) && !IsSpace(s[|s| - 1]))
    ensures s != [] ==> Trim(w1 + s + w2) == s
    ensures s == [] ==> Trim(w1 + s + w2) == []
  {
    if s != [] {
      TrimAround(w1, s, w2);
    } else {
      assert w1 + s + w2 == w1 + w2;
      TrimAllSpace(w1 + w2);
    }
  }

  lemma TrimAround(w1: string, s: string, w2: string)
    requires forall i :: 0 <= i < |w1| ==> IsSpace(w1[i])
    requires forall i :: 0 <= i < |w2| ==> IsSpace(w2[i])
    requires s != [] && !IsSpace(s[0]) && !IsSpace(s[|s| - 1])
    ensures Trim(w1 + s + w2) == s
  {
    var t := s + w2;
    var x := w1 + s + w2;
    assert x == w1 + t;
    assert t[0] == s[0];
    TrimStartPadded(w1, t);
    assert TrimStart(x) == t;
    TrimEndPadded(s, w2);
    assert Trim(x) == TrimEnd(t);
  }

  lemma {:induction false} TrimAllSpace(w: string)
    requires forall i :: 0 <= i < |w| ==> IsSpace(w[i])
    ensures TrimStart(w) == []
    decreases |w|
  {
    if |w| > 0 { TrimAllSpace(w[1..]); }
  }

  lemma {:induction false} TrimStartPadded(w: string, s: string)
    requires forall i :: 0 <= i < |w| ==> IsSpace(w[i])
    requires s == [] || !IsSpace(s[0])
    ensures TrimStart(w + s) == s
    decreases |w|
  {
    if |w| > 0 {
      assert (w + s)[1..] == w[1..] + s;
      TrimStartPadded(w[1..], s);
    } else {
      assert w + s == s;
    }
  }

  lemma {:induction false} TrimEndPadded(s: string, w: string)
    requires forall i :: 0 <= i < |w| ==> IsSpace(w[i])
    requires s == [] || !IsSpace(s[|s| - 1])
    ensures TrimEnd(s + w) == s
    decreases |w|
  {
    if |w| > 0 {
      assert (s + w)[..|s + w| - 1] == s + w[..|w| - 1];
      TrimEndPadded(s, w[..|w| - 1]);
    } else {
      assert s + w == s;
    }
  }

  /** ASCII lower-casing of one character. */
  function LowerChar(c: char): (r: char)
    ensures 'A' <= c <= 'Z' ==> r as int == c as int + 32
    ensures !('A' <= c <= 'Z') ==> r == c
  {
    if 'A' <= c <= 'Z' then (c as int + 32) as char else c
  }

  /** `s.toLowerCase()` restricted to ASCII letters. */
  function ToLower(s: string): (r: string)
    ensures |r| == |s|
    ensures forall i :: 0 <= i < |s| ==> r[i] == LowerChar(s[i])
  {
    if |s| == 0 then "" else [LowerChar(s[0])] + ToLower(s[1..])
  }

  /** `s.replace(pat, rep)` with a string pattern: only the first occurrence is replaced. */
  function ReplaceFirst(s: string, pat: string, rep: string): (r: string)
    ensures IndexOf(s, pat) < 0 ==> r == s
    ensures IndexOf(s, pat) >= 0 ==>
      var i := IndexOf(s, pat); r == s[..i] + rep + s[i + |pat|..]
  {
    var i := IndexOf(s, pat);
    if i < 0 then s else s[..i] + rep + s[i + |pat|..]
  }

  /** `s.replace(/^p/, rep)` for a literal `p`: replace a leading `p`. */
  function ReplacePrefix(s: string, p: string, rep: string): (r: string)
    ensures StartsWith(s, p) ==> r == rep + s[|p|..]
    ensures !StartsWith(s, p) ==> r == s
  {
    if StartsWith(s, p) then rep + s[|p|..] else s
  }

  /** The decimal digits of a natural number (`String(n)`). */
  function NatToString(n: nat): (r: string)
    ensures |r| >= 1
    ensures forall i :: 0 <= i < |r| ==> '0' <= r[i] <= '9'
    decreases n
  {
    if n < 10 then [('0' as int + n) as char]
    else NatToString(n / 10) + [('0' as int + n % 10) as char]
  }

  /** The value of a string of decimal digits. */
  function DigitsValue(s: string): nat
    requires forall i :: 0 <= i < |s| ==> '0' <= s[i] <= '9'
  {
    if |s| == 0 then 0 else DigitsValue(s[..|s| - 1]) * 10 + (s[|s| - 1] as int - '0' as int)
  }

  /** Printing a number in decimal and reading the digits back gives the number. */
  lemma {:induction false} NatToStringValue(n: nat)
    ensures DigitsValue(NatToString(n)) == n
    decreases n
  {
    if n >= 10 {
      var s := NatToString(n);
      NatToStringValue(n / 10);
      assert s[..|s| - 1] == NatToString(n / 10);
    }
  }
}
