/**
 * `anonymizeIP` of src/utils/logger.js: the client address written to the logs with its
 * host part cut off. The Winston transports around it are not modelled.
 */
module Logger {
  import opened Wrappers
  import opened Strings

  /** Appending one more field to a join. */
  lemma JoinSnoc(parts: seq<string>, sep: string, x: string)
    requires |parts| >= 1
    ensures Join(parts, sep) + sep + x == Join(parts + [x], sep)
    decreases |parts|
  {
    if |parts| > 1 {
      assert (parts + [x])[1..] == parts[1..] + [x];
      JoinSnoc(parts[1..], sep, x);
    }
  }

  /** A join of pieces free of `d`, with a separator other than `d`, is free of `d`. */
  lemma {:induction false} JoinFree(parts: seq<string>, c: char, d: char)
    requires c != d
    requires forall i :: 0 <= i < |parts| ==> d !in parts[i]
    ensures d !in Join(parts, [c])
    decreases |parts|
  {
    if |parts| > 1 {
      JoinFree(parts[1..], c, d);
    }
  }

  /** The fields of a `d`-free string are `d`-free. */
  lemma {:induction false} FieldsFree(s: string, c: char, d: char)
    requires d !in s
    ensures forall i :: 0 <= i < |Split(s, c)| ==> d !in Split(s, c)[i]
    decreases |s|
  {
    var j := IndexOf(s, [c]);
    IndexOfChar(s, c);
    if j >= 0 {
      var head, rest := s[..j], s[j + 1..];
      assert Split(s, c) == [head] + Split(rest, c);
      assert d !in head by {
        forall k | 0 <= k < |head| ensures head[k] != d { assert head[k] == s[k]; }
      }
      assert d !in rest by {
        forall k | 0 <= k < |rest| ensures rest[k] != d { assert rest[k] == s[j + 1 + k]; }
      }
      FieldsFree(rest, c, d);
      forall i | 0 <= i < |Split(s, c)| ensures d !in Split(s, c)[i] {
        if i > 0 {
          assert Split(s, c)[i] == Split(rest, c)[i - 1];
        }
      }
    } else {
      assert Split(s, c) == [s];
    }
  }

  /** The first fields with separator-free fields appended, joined, split back. */
  lemma SplitMasked(parts: seq<string>, n: nat, c: char, tail: seq<string>)
    requires n >= 1
    requires forall i :: 0 <= i < |parts| ==> c !in parts[i]
    requires forall i :: 0 <= i < |tail| ==> c !in tail[i]
    requires |parts| >= 1
    ensures Split(Join(Take(parts, n) + tail, [c]), c) == Take(parts, n) + tail
  {
    var fields := Take(parts, n) + tail;
    assert forall i :: 0 <= i < |fields| ==> c !in fields[i] by {
      forall i | 0 <= i < |fields| ensures c !in fields[i] {
        if i < |Take(parts, n)| {
          assert fields[i] == parts[i];
        } else {
          assert fields[i] == tail[i - |Take(parts, n)|];
        }
      }
    }
    SplitJoin(fields, c);
  }

  /** The IPv4 mask: the first three `.`-fields and a `0`. */
  function MaskV4(v: string): (r: string)
    ensures Split(r, '.') == Take(Split(v, '.'), 3) + ["0"]
  {
    MaskV4Fields(v);
    Join(Take(Split(v, '.'), 3), ".") + ".0"
  }

  /** Splitting the IPv4 mask on `.` gives its three fields and the `0`. */
  lemma MaskV4Fields(v: string)
    ensures Split(Join(Take(Split(v, '.'), 3), ".") + ".0", '.') == Take(Split(v, '.'), 3) + ["0"]
  {
    var fields := Take(Split(v, '.'), 3);
    JoinSnoc(fields, ".", "0");
    SplitMasked(Split(v, '.'), 3, '.', ["0"]);
    assert Join(fields, ".") + ".0" == Join(fields, ".") + "." + "0";
  }

  /** The IPv6 mask introduces no `.`. */
  lemma MaskV6DotFree(v: string)
    ensures '.' !in v ==> '.' !in Join(Take(Split(v, ':'), 4), ":") + "::"
  {
    var parts := Split(v, ':');
    var fields := Take(parts, 4);
    if '.' !in v {
      FieldsFree(v, ':', '.');
      assert forall i :: 0 <= i < |fields| ==> '.' !in fields[i] by {
        forall i | 0 <= i < |fields| ensures '.' !in fields[i] {
          assert fields[i] == parts[i];
        }
      }
      JoinFree(fields, ':', '.');
      assert Join(fields, ":") == Join(fields, [':']);
    }
  }

  /** `fields.join(':') + '::'` is the join with two empty fields appended. */
  lemma TwoEmptyFields(fields: seq<string>)
    requires |fields| >= 1
    ensures Join(fields, ":") + "::" == Join(fields + ["", ""], ":")
  {
    var j0 := Join(fields, ":");
    var j1 := Join(fields + [""], ":");
    JoinSnoc(fields, ":", "");
    assert j0 + ":" == j1;
    JoinSnoc(fields + [""], ":", "");
    assert j1 + ":" == Join(fields + [""] + [""], ":");
    assert fields + [""] + [""] == fields + ["", ""];
    assert j0 + "::" == j1 + ":";
  }

  /** The IPv6 mask: the first four `:`-fields and `::`. */
  function MaskV6(v: string): (r: string)
    ensures Split(r, ':') == Take(Split(v, ':'), 4) + ["", ""]
    ensures '.' !in v ==> '.' !in r
  {
    var fields := Take(Split(v, ':'), 4);
    TwoEmptyFields(fields);
    SplitMasked(Split(v, ':'), 4, ':', ["", ""]);
    MaskV6DotFree(v);
    Join(fields, ":") + "::"
  }

  /** `anonymizeIP`: `"unknown"` for a falsy address; with a `.`, the first three
    * `.`-fields and `.0`; with a `:` and no `.`, the first four `:`-fields and `::`;
    * anything else unchanged. */
  function AnonymizeIP(ip: Option<string>): (r: string)
    ensures ip.None? || ip.value == "" ==> r == "unknown"
    ensures ip.Some? && '.' in ip.value ==> Split(r, '.') == Take(Split(ip.value, '.'), 3) + ["0"]
    ensures ip.Some? && '.' !in ip.value && ':' in ip.value ==>
              '.' !in r && Split(r, ':') == Take(Split(ip.value, ':'), 4) + ["", ""]
    ensures ip.Some? && ip.value != "" && '.' !in ip.value && ':' !in ip.value ==> r == ip.value
  {
    if ip.None? || ip.value == "" then "unknown"
    else if '.' in ip.value then MaskV4(ip.value)
    else if ':' in ip.value then MaskV6(ip.value)
    else ip.value
  }

  /** An address with at least three `.`-fields is masked once and for all: masking the
    * output again changes nothing. */
  lemma MaskedV4IsFixedPoint(ip: string)
    requires '.' in ip && |Split(ip, '.')| >= 3
    ensures AnonymizeIP(Some(AnonymizeIP(Some(ip)))) == AnonymizeIP(Some(ip))
  {
    var r := MaskV4(ip);
    AnonymizeV4(ip);
    MaskV4Twice(ip);
    AnonymizeV4(r);
  }

  lemma AnonymizeV4(v: string)
    requires '.' in v
    ensures AnonymizeIP(Some(v)) == MaskV4(v)
  {
  }

  lemma MaskV4Twice(v: string)
    requires |Split(v, '.')| >= 3
    ensures var r := MaskV4(v); r != "" && '.' in r && MaskV4(r) == r
  {
    var r := MaskV4(v);
    var fields := Take(Split(v, '.'), 3);
    assert |fields| == 3;
    assert Take(Split(r, '.'), 3) == fields;
    assert '.' in r by {
      if '.' !in r {
        SplitFirstNoSep(r, '.');
      }
    }
  }

  /** An address with at least four `:`-fields and no `.` is masked once and for all. */
  lemma MaskedV6IsFixedPoint(ip: string)
    requires '.' !in ip && ':' in ip && |Split(ip, ':')| >= 4
    ensures AnonymizeIP(Some(AnonymizeIP(Some(ip)))) == AnonymizeIP(Some(ip))
  {
    var r := MaskV6(ip);
    AnonymizeV6(ip);
    MaskV6Twice(ip);
    AnonymizeV6(r);
  }

  lemma AnonymizeV6(v: string)
    requires '.' !in v && ':' in v
    ensures AnonymizeIP(Some(v)) == MaskV6(v)
  {
  }

  lemma MaskV6Twice(v: string)
    requires '.' !in v && |Split(v, ':')| >= 4
    ensures var r := MaskV6(v); r != "" && '.' !in r && ':' in r && MaskV6(r) == r
  {
    var r := MaskV6(v);
    var fields := Take(Split(v, ':'), 4);
    assert |fields| == 4;
    assert Take(Split(r, ':'), 4) == fields;
    assert ':' in r by {
      if ':' !in r {
        SplitFirstNoSep(r, ':');
      }
    }
  }

  /** A four-octet address loses its last octet. */
  lemma FourOctets(a: string, b: string, c: string, d: string)
    requires '.' !in a && '.' !in b && '.' !in c && '.' !in d
    ensures AnonymizeIP(Some(a + "." + b + "." + c + "." + d)) == a + "." + b + "." + c + ".0"
  {
    var ip := a + "." + b + "." + c + "." + d;
    JoinSnoc([a], ".", b);
    assert [a] + [b] == [a, b];
    JoinSnoc([a, b], ".", c);
    assert [a, b] + [c] == [a, b, c];
    JoinSnoc([a, b, c], ".", d);
    assert [a, b, c] + [d] == [a, b, c, d];
    assert Join([a, b, c, d], ".") == ip;
    SplitJoin([a, b, c, d], '.');
    assert '.' in ip by { assert ip[|a|] == '.'; }
    assert Take([a, b, c, d], 3) == [a, b, c];
    assert a + "." + b + "." + c + ".0" == Join([a, b, c], ".") + ".0";
  }

  /** The dot test comes first: an IPv4-mapped IPv6 address such as `::ffff:10.1.2.3`
    * is masked as IPv4, to `::ffff:10.1.2.0`, and not to four `:`-fields and `::`. */
  lemma MappedAddressMaskedAsV4(prefix: string, a: string, b: string, c: string, d: string)
    requires ':' in prefix && '.' !in prefix
    requires '.' !in a && '.' !in b && '.' !in c && '.' !in d
    ensures AnonymizeIP(Some(prefix + a + "." + b + "." + c + "." + d)) == prefix + a + "." + b + "." + c + ".0"
  {
    assert '.' !in prefix + a;
    FourOctets(prefix + a, b, c, d);
  }
}
