/**
 * A JavaScript `Map` (or plain object) with string keys: entries kept in insertion
 * order, `set` on a present key replaces its value in place, `delete` removes it.
 */
module OrderedMap {
  import opened Wrappers

  datatype Entry<V> = Entry(key: string, value: V)

  /** `m.has(k)`. */
  predicate Has<V>(m: seq<Entry<V>>, k: string) {
    exists i :: 0 <= i < |m| && m[i].key == k
  }

  /** No key appears twice. */
  predicate Distinct<V>(m: seq<Entry<V>>) {
    forall i, j :: 0 <= i < j < |m| ==> m[i].key != m[j].key
  }

  /** `m.get(k)`: the value stored under `k`, if any. */
  function Get<V>(m: seq<Entry<V>>, k: string): (r: Option<V>)
    ensures r.None? <==> !Has(m, k)
    ensures r.Some? ==> Entry(k, r.value) in m
  {
    if m == [] then None
    else if m[0].key == k then Some(m[0].value)
    else
      assert Has(m, k) <==> Has(m[1..], k) by {
        if Has(m, k) {
          var i :| 0 <= i < |m| && m[i].key == k;
          assert m[1..][i - 1].key == k;
        }
      }
      Get(m[1..], k)
  }

  /** `m.set(k, v)`: replaces the value in place when `k` is present, appends otherwise. */
  function Set<V>(m: seq<Entry<V>>, k: string, v: V): (r: seq<Entry<V>>)
    ensures |r| == if Has(m, k) then |m| else |m| + 1
    ensures Get(r, k) == Some(v)
    ensures forall k' :: k' != k ==> Get(r, k') == Get(m, k')
  {
    if m == [] then [Entry(k, v)]
    else if m[0].key == k then [Entry(k, v)] + m[1..]
    else
      var t := Set(m[1..], k, v);
      assert Get(m, k) == Get(m[1..], k);
      [m[0]] + t
  }

  /** `set` keeps every entry under another key, in place. */
  lemma {:induction false} SetKeeps<V>(m: seq<Entry<V>>, k: string, v: V)
    ensures forall i :: 0 <= i < |m| && m[i].key != k ==> Set(m, k, v)[i] == m[i]
    ensures !Has(m, k) ==> Set(m, k, v) == m + [Entry(k, v)]
  {
    if m != [] && m[0].key != k {
      SetKeeps(m[1..], k, v);
      assert Has(m, k) <==> Has(m[1..], k) by {
        if Has(m, k) {
          var i :| 0 <= i < |m| && m[i].key == k;
          assert m[1..][i - 1].key == k;
        }
      }
    }
  }

  /** A key is in a non-empty map iff it is the first key or in the rest. */
  lemma HasCons<V>(m: seq<Entry<V>>, k: string)
    requires m != []
    ensures Has(m, k) <==> m[0].key == k || Has(m[1..], k)
  {
    if Has(m, k) && m[0].key != k {
      var i :| 0 <= i < |m| && m[i].key == k;
      assert m[1..][i - 1].key == k;
    }
    if Has(m[1..], k) {
      var i :| 0 <= i < |m[1..]| && m[1..][i].key == k;
      assert m[i + 1].key == k;
    }
  }

  /** The keys after `set` are the old keys and `k`. */
  lemma SetHas<V>(m: seq<Entry<V>>, k: string, v: V)
    ensures forall k' :: Has(Set(m, k, v), k') <==> Has(m, k') || k' == k
  {
    forall k' ensures Has(Set(m, k, v), k') <==> Has(m, k') || k' == k {
      if k' != k {
        assert Get(Set(m, k, v), k') == Get(m, k');
      }
    }
  }

  /** `set` keeps the keys distinct. */
  lemma {:induction false} SetDistinct<V>(m: seq<Entry<V>>, k: string, v: V)
    requires Distinct(m)
    ensures Distinct(Set(m, k, v))
  {
    if m != [] && m[0].key != k {
      SetDistinct(m[1..], k, v);
      SetHas(m[1..], k, v);
      var t := Set(m[1..], k, v);
      var r := Set(m, k, v);
      assert r == [m[0]] + t;
      assert !Has(m[1..], m[0].key) by {
        forall i | 0 <= i < |m[1..]| ensures m[1..][i].key != m[0].key {
          assert m[1..][i] == m[i + 1];
        }
      }
      assert !Has(t, m[0].key);
      forall i, j | 0 <= i < j < |r| ensures r[i].key != r[j].key {
        assert r[j] == t[j - 1];
        if i == 0 {
          assert Has(t, r[j].key);
        } else {
          assert r[i] == t[i - 1];
        }
      }
    } else if m != [] {
      var r := Set(m, k, v);
      assert r == [Entry(k, v)] + m[1..];
      forall i, j | 0 <= i < j < |r| ensures r[i].key != r[j].key {
        assert r[j] == m[j];
        if i > 0 {
          assert r[i] == m[i];
        }
      }
    }
  }

  /** Every entry after `set` was already there or is the new one. */
  lemma {:induction false} SetEntries<V>(m: seq<Entry<V>>, k: string, v: V)
    ensures forall i :: 0 <= i < |Set(m, k, v)| ==> Set(m, k, v)[i] in m || Set(m, k, v)[i] == Entry(k, v)
  {
    if m != [] && m[0].key != k {
      SetEntries(m[1..], k, v);
      var t := Set(m[1..], k, v);
      assert Set(m, k, v) == [m[0]] + t;
      forall i | 1 <= i < |Set(m, k, v)| ensures Set(m, k, v)[i] in m || Set(m, k, v)[i] == Entry(k, v) {
        assert Set(m, k, v)[i] == t[i - 1];
      }
    } else if m != [] {
      forall i | 1 <= i < |Set(m, k, v)| ensures Set(m, k, v)[i] in m {
        assert Set(m, k, v)[i] == m[i];
      }
    }
  }

  /** `m.delete(k)`: every entry under `k` is removed, the others keep their order. */
  function Delete<V>(m: seq<Entry<V>>, k: string): (r: seq<Entry<V>>)
    ensures |r| <= |m|
    ensures Get(r, k) == None
    ensures forall k' :: k' != k ==> Get(r, k') == Get(m, k')
    ensures !Has(m, k) ==> r == m
  {
    if m == [] then []
    else
      var t := Delete(m[1..], k);
      assert Has(m, k) <==> m[0].key == k || Has(m[1..], k) by {
        if Has(m, k) && m[0].key != k {
          var i :| 0 <= i < |m| && m[i].key == k;
          assert m[1..][i - 1].key == k;
        }
      }
      if m[0].key == k then t else [m[0]] + t
  }

  lemma DeleteDistinct<V>(m: seq<Entry<V>>, k: string)
    requires Distinct(m)
    ensures Distinct(Delete(m, k))
    ensures Has(m, k) ==> |Delete(m, k)| == |m| - 1
    ensures forall i :: 0 <= i < |Delete(m, k)| ==> Delete(m, k)[i] in m
  {
    DeleteSubset(m, k);
    DeleteKeepsDistinct(m, k);
    DeleteShrinks(m, k);
  }

  /** Deleting keeps only entries that were there. */
  lemma {:induction false} DeleteSubset<V>(m: seq<Entry<V>>, k: string)
    ensures forall e :: e in Delete(m, k) ==> e in m
  {
    if m != [] {
      DeleteSubset(m[1..], k);
      var t := Delete(m[1..], k);
      assert m == [m[0]] + m[1..];
      assert Delete(m, k) == if m[0].key == k then t else [m[0]] + t;
    }
  }

  lemma {:induction false} DeleteKeepsDistinct<V>(m: seq<Entry<V>>, k: string)
    requires Distinct(m)
    ensures Distinct(Delete(m, k))
  {
    if m != [] {
      DeleteKeepsDistinct(m[1..], k);
      DeleteSubset(m[1..], k);
      var t := Delete(m[1..], k);
      if m[0].key != k {
        assert Delete(m, k) == [m[0]] + t;
        TailKeys(m);
        forall i | 0 <= i < |t| ensures t[i].key != m[0].key {
          assert t[i] in t;
        }
      }
    }
  }

  /** In a map without repeated keys, the first key does not recur. */
  lemma TailKeys<V>(m: seq<Entry<V>>)
    requires m != [] && Distinct(m)
    ensures forall e :: e in m[1..] ==> e.key != m[0].key
  {
    forall e | e in m[1..] ensures e.key != m[0].key {
      var j :| 0 <= j < |m[1..]| && m[1..][j] == e;
      assert m[j + 1] == e;
    }
  }

  lemma {:induction false} DeleteShrinks<V>(m: seq<Entry<V>>, k: string)
    requires Distinct(m)
    ensures Has(m, k) ==> |Delete(m, k)| == |m| - 1
  {
    if m != [] {
      var t := Delete(m[1..], k);
      if m[0].key == k {
        assert !Has(m[1..], k) by {
          forall i | 0 <= i < |m[1..]| ensures m[1..][i].key != k {
            assert m[1..][i].key == m[i + 1].key;
          }
        }
        assert Delete(m, k) == t == m[1..];
      } else {
        DeleteShrinks(m[1..], k);
        assert Has(m, k) ==> Has(m[1..], k) by {
          if Has(m, k) {
            var i :| 0 <= i < |m| && m[i].key == k;
            assert m[1..][i - 1].key == k;
          }
        }
        assert Delete(m, k) == [m[0]] + t;
      }
    }
  }

  /** The entries whose value passes `keep`, in their original order (deleting the
    * others while iterating, which a JavaScript `Map` allows). */
  function Filter<V>(m: seq<Entry<V>>, keep: V -> bool): (r: seq<Entry<V>>)
    ensures |r| <= |m|
    ensures forall i :: 0 <= i < |r| ==> r[i] in m && keep(r[i].value)
  {
    if m == [] then []
    else
      var t := Filter(m[1..], keep);
      assert forall i :: 0 <= i < |t| ==> t[i] in m;
      (if keep(m[0].value) then [m[0]] else []) + t
  }

  /** Filtering a concatenation filters each part. */
  lemma {:induction false} FilterAppend<V>(a: seq<Entry<V>>, b: seq<Entry<V>>, keep: V -> bool)
    ensures Filter(a + b, keep) == Filter(a, keep) + Filter(b, keep)
  {
    if a != [] {
      var h := if keep(a[0].value) then [a[0]] else [];
      assert (a + b)[0] == a[0] && (a + b)[1..] == a[1..] + b;
      assert Filter(a + b, keep) == h + Filter(a[1..] + b, keep);
      FilterAppend(a[1..], b, keep);
      assert Filter(a, keep) == h + Filter(a[1..], keep);
      assert h + (Filter(a[1..], keep) + Filter(b, keep)) == (h + Filter(a[1..], keep)) + Filter(b, keep);
    } else {
      assert a + b == b;
    }
  }

  /** Nothing that passes `keep` is dropped. */
  lemma {:induction false} FilterComplete<V>(m: seq<Entry<V>>, keep: V -> bool, e: Entry<V>)
    requires e in m && keep(e.value)
    ensures e in Filter(m, keep)
  {
    if m[0] != e {
      assert e in m[1..] by {
        var i :| 0 <= i < |m| && m[i] == e;
        assert m[1..][i - 1] == e;
      }
      FilterComplete(m[1..], keep, e);
    }
  }

  /** A key the map lacks is lacking after filtering. */
  lemma NotHasFilter<V>(m: seq<Entry<V>>, keep: V -> bool, k: string)
    requires !Has(m, k)
    ensures !Has(Filter(m, keep), k)
  {
    var r := Filter(m, keep);
    forall i | 0 <= i < |r| ensures r[i].key != k {
      var j :| 0 <= j < |m| && m[j] == r[i];
    }
  }

  /** In a map without duplicate keys, filtering keeps a key's entry exactly when its
    * value passes `keep`. */
  lemma {:induction false} FilterGet<V>(m: seq<Entry<V>>, keep: V -> bool, k: string)
    requires Distinct(m)
    ensures Get(Filter(m, keep), k) ==
            if Get(m, k).Some? && keep(Get(m, k).value) then Get(m, k) else None
  {
    if m != [] {
      var t := Filter(m[1..], keep);
      assert Distinct(m[1..]) by {
        forall i, j | 0 <= i < j < |m[1..]| ensures m[1..][i].key != m[1..][j].key {
          assert m[1..][i] == m[i + 1] && m[1..][j] == m[j + 1];
        }
      }
      var r := Filter(m, keep);
      assert r == (if keep(m[0].value) then [m[0]] else []) + t;
      if m[0].key == k {
        assert !Has(m[1..], k) by {
          forall i | 0 <= i < |m[1..]| ensures m[1..][i].key != k {
            assert m[1..][i] == m[i + 1];
          }
        }
        NotHasFilter(m[1..], keep, k);
        if !keep(m[0].value) {
          assert r == t;
        }
      } else {
        FilterGet(m[1..], keep, k);
        if keep(m[0].value) {
          assert r[1..] == t;
        } else {
          assert r == t;
        }
      }
    }
  }

  lemma {:induction false} FilterDistinct<V>(m: seq<Entry<V>>, keep: V -> bool)
    requires Distinct(m)
    ensures Distinct(Filter(m, keep))
  {
    if m != [] {
      assert Distinct(m[1..]) by {
        forall i, j | 0 <= i < j < |m[1..]| ensures m[1..][i].key != m[1..][j].key {
          assert m[1..][i] == m[i + 1] && m[1..][j] == m[j + 1];
        }
      }
      FilterDistinct(m[1..], keep);
      var t := Filter(m[1..], keep);
      var r := Filter(m, keep);
      if keep(m[0].value) {
        assert !Has(m[1..], m[0].key) by {
          forall i | 0 <= i < |m[1..]| ensures m[1..][i].key != m[0].key {
            assert m[1..][i] == m[i + 1];
          }
        }
        NotHasFilter(m[1..], keep, m[0].key);
        forall i, j | 0 <= i < j < |r| ensures r[i].key != r[j].key {
          assert r[j] == t[j - 1];
          if i > 0 { assert r[i] == t[i - 1]; }
        }
      }
    }
  }
}
