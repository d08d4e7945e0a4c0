/** PHP arrays as ordered lists of key/value entries, with the built-ins the core uses:
    lookup (`isset($a[$k])` / `$a[$k]`), assignment (`$a[$k] = $v`), `array_merge`,
    `array_shift`, `array_filter` on string keys and `array_unique`. */
module PhpArrays {
  import opened Wrappers
  import opened Strings

  /** A PHP array key: an integer or a (non-numeric) string. */
  datatype Key = IntKey(i: int) | StrKey(s: string)

  /** The entries of a PHP array in iteration order. */
  type Entries<K, V> = seq<(K, V)>

  /** PHP arrays never hold a key twice. */
  predicate DistinctKeys<K(==), V>(a: Entries<K, V>) {
    forall i, j :: 0 <= i < j < |a| ==> a[i].0 != a[j].0
  }

  /** The values in iteration order (`array_values`). */
  function Values<K, V>(a: Entries<K, V>): (r: seq<V>)
    ensures |r| == |a|
    ensures forall i :: 0 <= i < |a| ==> r[i] == a[i].1
  {
    seq(|a|, i requires 0 <= i < |a| => a[i].1)
  }

  /** `$a[$k]`, or `None` when `isset($a[$k])` is false. */
  function Get<K(==), V>(a: Entries<K, V>, k: K): (r: Option<V>)
    ensures r.None? <==> forall i :: 0 <= i < |a| ==> a[i].0 != k
    ensures r.Some? ==> exists i :: 0 <= i < |a| && a[i] == (k, r.value)
  {
    if |a| == 0 then None
    else if a[0].0 == k then Some(a[0].1)
    else Get(a[1..], k)
  }

  /** `$a[$k] = $v`: an existing key keeps its place, a new key goes last. */
  function Put<K(==, !new), V>(a: Entries<K, V>, k: K, v: V): (r: Entries<K, V>)
    ensures Get(r, k) == Some(v)
    ensures Get(a, k).None? ==> r == a + [(k, v)]
  {
    if |a| == 0 then [(k, v)]
    else if a[0].0 == k then [(k, v)] + a[1..]
    else
      var rest := Put(a[1..], k, v);
      assert ([a[0]] + rest)[1..] == rest;
      [a[0]] + rest
  }

  /** Assignment leaves every other key alone, keeps the key order when the key exists and
      keeps the keys distinct. */
  lemma PutKeeps<K(!new), V>(a: Entries<K, V>, k: K, v: V)
    ensures forall k' :: k' != k ==> Get(Put(a, k, v), k') == Get(a, k')
    ensures Get(a, k).Some? ==> |Put(a, k, v)| == |a| && forall i :: 0 <= i < |a| ==> Put(a, k, v)[i].0 == a[i].0
    ensures DistinctKeys(a) ==> DistinctKeys(Put(a, k, v))
  {
    forall k' | k' != k ensures Get(Put(a, k, v), k') == Get(a, k') {
      PutOther(a, k, v, k');
    }
    if Get(a, k).Some? {
      PutSameKeys(a, k, v);
    } else if DistinctKeys(a) {
      assert Put(a, k, v) == a + [(k, v)];
    }
  }

  /** Assignment leaves another key's lookup alone. */
  lemma {:induction false} PutOther<K(!new), V>(a: Entries<K, V>, k: K, v: V, k': K)
    requires k' != k
    ensures Get(Put(a, k, v), k') == Get(a, k')
    decreases |a|
  {
    if |a| > 0 && a[0].0 != k' {
      var r := Put(a, k, v);
      if a[0].0 == k {
        assert r[1..] == a[1..];
      } else {
        PutOther(a[1..], k, v, k');
        assert r[1..] == Put(a[1..], k, v);
      }
    }
  }

  /** Assigning an existing key keeps every key in its place. */
  lemma {:induction false} PutSameKeys<K(!new), V>(a: Entries<K, V>, k: K, v: V)
    requires Get(a, k).Some?
    ensures |Put(a, k, v)| == |a| && forall i :: 0 <= i < |a| ==> Put(a, k, v)[i].0 == a[i].0
    decreases |a|
  {
    var r := Put(a, k, v);
    if a[0].0 == k {
      assert forall i :: 0 < i < |a| ==> r[i] == a[1..][i - 1] == a[i];
    } else {
      var rest := Put(a[1..], k, v);
      PutSameKeys(a[1..], k, v);
      assert r == [a[0]] + rest;
      forall i | 0 < i < |a| ensures r[i].0 == a[i].0 {
        assert r[i] == rest[i - 1] && a[1..][i - 1] == a[i];
      }
    }
  }

  // ---------------------------------------------------------------------------
  // a run of assignments on a keyed table

  /** Some assignment of `kvs` writes key `k`. */
  predicate Assigned<K(==), V>(kvs: seq<(K, V)>, k: K) {
    exists i :: 0 <= i < |kvs| && kvs[i].0 == k
  }

  /** Assignment `i` is the last one that writes its key. */
  predicate LastAssigned<K(==), V>(kvs: seq<(K, V)>, i: int) {
    0 <= i < |kvs| && forall j :: i < j < |kvs| ==> kvs[j].0 != kvs[i].0
  }

  /** `foreach ($kvs as [$k, $v]) { $m[$k] = $v; }` on a table whose order does not matter. */
  function AssignAll<K(==, !new), V>(m: map<K, V>, kvs: seq<(K, V)>): (r: map<K, V>)
    ensures forall k :: k in r <==> k in m || Assigned(kvs, k)
    decreases |kvs|
  {
    if |kvs| == 0 then m
    else
      var r := AssignAll(m[kvs[0].0 := kvs[0].1], kvs[1..]);
      assert forall k :: Assigned(kvs, k) <==> k == kvs[0].0 || Assigned(kvs[1..], k) by {
        forall k | Assigned(kvs, k) && k != kvs[0].0
          ensures Assigned(kvs[1..], k)
        {
          var i :| 0 <= i < |kvs| && kvs[i].0 == k;
          assert kvs[1..][i - 1] == kvs[i];
        }
      }
      r
  }

  lemma AssignedTail<K, V>(kvs: seq<(K, V)>, k: K)
    requires |kvs| > 0 && Assigned(kvs[1..], k)
    ensures Assigned(kvs, k)
  {
    var i :| 0 <= i < |kvs[1..]| && kvs[1..][i].0 == k;
    assert kvs[i + 1] == kvs[1..][i];
  }

  /** Keys no assignment writes keep their value. */
  lemma {:induction false} AssignAllKeep<K(!new), V>(m: map<K, V>, kvs: seq<(K, V)>, k: K)
    requires k in m && !Assigned(kvs, k)
    ensures AssignAll(m, kvs)[k] == m[k]
    decreases |kvs|
  {
    if |kvs| > 0 {
      assert kvs[0].0 != k;
      if Assigned(kvs[1..], k) {
        AssignedTail(kvs, k);
      }
      AssignAllKeep(m[kvs[0].0 := kvs[0].1], kvs[1..], k);
    }
  }

  /** The last assignment to a key decides its value. */
  lemma {:induction false} AssignAllLast<K(!new), V>(m: map<K, V>, kvs: seq<(K, V)>, i: int)
    requires LastAssigned(kvs, i)
    ensures AssignAll(m, kvs)[kvs[i].0] == kvs[i].1
    decreases |kvs|
  {
    var next := m[kvs[0].0 := kvs[0].1];
    var tail := kvs[1..];
    if i == 0 {
      assert !Assigned(tail, kvs[0].0) by {
        forall j | 0 <= j < |tail| ensures tail[j].0 != kvs[0].0 {
          assert tail[j] == kvs[j + 1];
        }
      }
      AssignAllKeep(next, tail, kvs[0].0);
    } else {
      assert tail[i - 1] == kvs[i];
      assert LastAssigned(tail, i - 1) by {
        forall j | i - 1 < j < |tail| ensures tail[j].0 != tail[i - 1].0 {
          assert tail[j] == kvs[j + 1];
        }
      }
      AssignAllLast(next, tail, i - 1);
    }
  }

  /** Two runs of assignments one after the other are one run. */
  lemma {:induction false} AssignAllAppend<K(!new), V>(m: map<K, V>, a: seq<(K, V)>, b: seq<(K, V)>)
    ensures AssignAll(m, a + b) == AssignAll(AssignAll(m, a), b)
    decreases |a|
  {
    if |a| == 0 {
      assert a + b == b;
    } else {
      assert (a + b)[0] == a[0];
      assert (a + b)[1..] == a[1..] + b;
      AssignAllAppend(m[a[0].0 := a[0].1], a[1..], b);
    }
  }

  /** `AssignAllKeep` and `AssignAllLast` for every key at once. */
  lemma AssignAllValues<K(!new), V>(m: map<K, V>, kvs: seq<(K, V)>)
    ensures forall k :: k in m && !Assigned(kvs, k) ==> AssignAll(m, kvs)[k] == m[k]
    ensures forall i :: LastAssigned(kvs, i) ==> AssignAll(m, kvs)[kvs[i].0] == kvs[i].1
  {
    forall k | k in m && !Assigned(kvs, k) ensures AssignAll(m, kvs)[k] == m[k] {
      AssignAllKeep(m, kvs, k);
    }
    forall i | LastAssigned(kvs, i) ensures AssignAll(m, kvs)[kvs[i].0] == kvs[i].1 {
      AssignAllLast(m, kvs, i);
    }
  }

  // ---------------------------------------------------------------------------
  // integer keys

  /** The values stored under integer keys, in order. */
  function IntValues<V>(a: Entries<Key, V>): seq<V> {
    if |a| == 0 then []
    else (if a[0].0.IntKey? then [a[0].1] else []) + IntValues(a[1..])
  }

  lemma {:induction false} IntValuesAppend<V>(a: Entries<Key, V>, b: Entries<Key, V>)
    ensures IntValues(a + b) == IntValues(a) + IntValues(b)
  {
    if |a| == 0 {
      assert a + b == b;
    } else {
      AppendTail(a, b);
      IntValuesAppend(a[1..], b);
      var head := if a[0].0.IntKey? then [a[0].1] else [];
      assert IntValues(a + b) == head + IntValues(a[1..] + b);
      assert head + (IntValues(a[1..]) + IntValues(b)) == (head + IntValues(a[1..])) + IntValues(b);
    }
  }

  /** Every integer key of `a` is below `n`. */
  predicate IntKeysBelow<V>(a: Entries<Key, V>, n: int) {
    forall i :: 0 <= i < |a| && a[i].0.IntKey? ==> a[i].0.i < n
  }

  /** What `array_merge` keeps between entries: distinct keys, and the next integer key
      (the number of integer-keyed values so far) is still free. */
  predicate MergeReady<V>(a: Entries<Key, V>) {
    DistinctKeys(a) && IntKeysBelow(a, |IntValues(a)|)
  }

  /** Assigning a string key leaves the integer-keyed entries alone. */
  lemma {:induction false} PutStringKey<V>(a: Entries<Key, V>, k: Key, v: V)
    requires k.StrKey?
    ensures IntValues(Put(a, k, v)) == IntValues(a)
    ensures forall n :: IntKeysBelow(a, n) ==> IntKeysBelow(Put(a, k, v), n)
  {
    var r := Put(a, k, v);
    if |a| == 0 {
      assert r == [(k, v)];
      assert IntValues(r) == IntValues(r[1..]) && r[1..] == [];
    } else if a[0].0 == k {
      assert r[0].0 == k && r[1..] == a[1..];
      assert IntValues(r) == IntValues(a[1..]);
      assert forall i :: 0 < i < |r| ==> r[i] == a[i];
    } else {
      var rest := Put(a[1..], k, v);
      PutStringKey(a[1..], k, v);
      assert r == [a[0]] + rest && r[0] == a[0] && r[1..] == rest;
      assert IntValues(r) == (if a[0].0.IntKey? then [a[0].1] else []) + IntValues(rest);
      forall n | IntKeysBelow(a, n) ensures IntKeysBelow(r, n) {
        assert IntKeysBelow(a[1..], n) by {
          assert forall i :: 0 <= i < |a[1..]| ==> a[1..][i] == a[i + 1];
        }
        forall i | 0 < i < |r| && r[i].0.IntKey? ensures r[i].0.i < n {
          assert r[i] == rest[i - 1];
        }
      }
    }
  }

  /** Looking a key up after appending one entry. */
  lemma {:induction false} GetAppend<K, V>(a: Entries<K, V>, e: (K, V), k: K)
    ensures Get(a + [e], k) == if Get(a, k).Some? then Get(a, k) else if e.0 == k then Some(e.1) else None
  {
    if |a| == 0 {
      assert a + [e] == [e];
    } else {
      assert (a + [e])[0] == a[0];
      assert (a + [e])[1..] == a[1..] + [e];
      GetAppend(a[1..], e, k);
    }
  }

  /** Appends one entry the way `array_merge` does: an integer key is renumbered to the
      next free index, a string key is assigned. */
  function MergeEntry<V>(acc: Entries<Key, V>, e: (Key, V)): (r: Entries<Key, V>)
    requires MergeReady(acc)
    ensures MergeReady(r)
    ensures IntValues(r) == IntValues(acc) + (if e.0.IntKey? then [e.1] else [])
    ensures forall s :: Get(r, StrKey(s)) == (if e.0 == StrKey(s) then Some(e.1) else Get(acc, StrKey(s)))
  {
    if e.0.IntKey? then
      var n := |IntValues(acc)|;
      var r := acc + [(IntKey(n), e.1)];
      IntValuesAppend(acc, [(IntKey(n), e.1)]);
      forall s ensures Get(r, StrKey(s)) == Get(acc, StrKey(s)) {
        GetAppend(acc, (IntKey(n), e.1), StrKey(s));
      }
      r
    else
      PutStringKey(acc, e.0, e.1);
      PutKeeps(acc, e.0, e.1);
      Put(acc, e.0, e.1)
  }

  /** Appends `es` to `acc` entry by entry with `array_merge` semantics. */
  function MergeAll<V>(acc: Entries<Key, V>, es: Entries<Key, V>): (r: Entries<Key, V>)
    requires MergeReady(acc)
    ensures MergeReady(r)
    decreases |es|
  {
    if |es| == 0 then acc else MergeAll(MergeEntry(acc, es[0]), es[1..])
  }

  lemma ConcatAssoc<T>(a: seq<T>, b: seq<T>, c: seq<T>)
    ensures (a + b) + c == a + (b + c)
  {
  }

  /** Merging keeps every integer-keyed value, in order, after those already there. */
  lemma {:induction false} MergeAllIntValues<V>(acc: Entries<Key, V>, es: Entries<Key, V>)
    requires MergeReady(acc)
    ensures IntValues(MergeAll(acc, es)) == IntValues(acc) + IntValues(es)
    decreases |es|
  {
    if |es| == 0 {
      assert IntValues(es) == [];
      assert IntValues(acc) + [] == IntValues(acc);
    } else {
      var next := MergeEntry(acc, es[0]);
      var head: seq<V> := if es[0].0.IntKey? then [es[0].1] else [];
      MergeAllIntValues(next, es[1..]);
      assert MergeAll(acc, es) == MergeAll(next, es[1..]);
      assert IntValues(es) == head + IntValues(es[1..]);
      assert IntValues(next) == IntValues(acc) + head;
      ConcatAssoc(IntValues(acc), head, IntValues(es[1..]));
    }
  }

  /** After merging, a string key holds the value `es` gives it, else the value it had. */
  lemma {:induction false} MergeAllLookup<V>(acc: Entries<Key, V>, es: Entries<Key, V>, s: string)
    requires MergeReady(acc) && DistinctKeys(es)
    ensures Get(MergeAll(acc, es), StrKey(s)) ==
              if Get(es, StrKey(s)).Some? then Get(es, StrKey(s)) else Get(acc, StrKey(s))
    decreases |es|
  {
    if |es| > 0 {
      assert DistinctKeys(es[1..]);
      MergeAllLookup(MergeEntry(acc, es[0]), es[1..], s);
      if es[0].0 == StrKey(s) {
        assert Get(es[1..], StrKey(s)).None? by {
          forall i | 0 <= i < |es[1..]| ensures es[1..][i].0 != StrKey(s) {
            assert es[1..][i] == es[i + 1];
          }
        }
      }
    }
  }

  lemma MergeAllLookups<V>(acc: Entries<Key, V>, es: Entries<Key, V>)
    requires MergeReady(acc)
    ensures DistinctKeys(es) ==>
              (forall s :: Get(MergeAll(acc, es), StrKey(s)) ==
                 (if Get(es, StrKey(s)).Some? then Get(es, StrKey(s)) else Get(acc, StrKey(s))))
  {
    if DistinctKeys(es) {
      forall s ensures Get(MergeAll(acc, es), StrKey(s)) ==
                 (if Get(es, StrKey(s)).Some? then Get(es, StrKey(s)) else Get(acc, StrKey(s)))
      {
        MergeAllLookup(acc, es, s);
      }
    }
  }

  /** PHP `array_merge($a, $b)`: string keys of `b` override those of `a`, and the values
      under integer keys of both are kept, `a`'s first, renumbered from 0. */
  function ArrayMerge<V>(a: Entries<Key, V>, b: Entries<Key, V>): (r: Entries<Key, V>)
    ensures DistinctKeys(r)
    ensures IntValues(r) == IntValues(a) + IntValues(b)
    ensures DistinctKeys(a) && DistinctKeys(b) ==>
              (forall s :: Get(r, StrKey(s)) ==
                 (if Get(b, StrKey(s)).Some? then Get(b, StrKey(s)) else Get(a, StrKey(s))))
  {
    var left := MergeAll([], a);
    MergeAllLookups([], a);
    MergeAllLookups(left, b);
    MergeAllIntValues([], a);
    assert IntValues(left) == IntValues(a);
    MergeAllIntValues(left, b);
    MergeAll(left, b)
  }

  /** PHP `array_shift($a)`: the first value (none for an empty array) and the remaining
      entries with their integer keys renumbered from 0. */
  function ArrayShift<V>(a: Entries<Key, V>): (r: (Option<V>, Entries<Key, V>))
    ensures |a| == 0 ==> r.0 == None && r.1 == []
    ensures |a| > 0 ==> r.0 == Some(a[0].1)
    ensures MergeReady(r.1)
    ensures |a| > 0 ==> IntValues(r.1) == IntValues(a[1..])
    ensures |a| > 0 && DistinctKeys(a[1..]) ==> forall s :: Get(r.1, StrKey(s)) == Get(a[1..], StrKey(s))
  {
    if |a| == 0 then (None, [])
    else
      var rest := MergeAll([], a[1..]);
      MergeAllIntValues([], a[1..]);
      MergeAllLookups([], a[1..]);
      (Some(a[0].1), rest)
  }

  /** PHP `array_filter($a, 'is_string', ARRAY_FILTER_USE_KEY)`. */
  function StringKeyed<V>(a: Entries<Key, V>): (r: Entries<Key, V>)
    ensures forall i :: 0 <= i < |r| ==> r[i].0.StrKey?
    ensures IntValues(r) == []
    ensures forall s :: Get(r, StrKey(s)) == Get(a, StrKey(s))
    ensures forall e :: e in r ==> e in a
  {
    if |a| == 0 then []
    else if a[0].0.StrKey? then [a[0]] + StringKeyed(a[1..])
    else StringKeyed(a[1..])
  }

  lemma DistinctCons<K, V>(x: (K, V), rest: Entries<K, V>)
    requires DistinctKeys(rest) && forall k :: 0 <= k < |rest| ==> rest[k].0 != x.0
    ensures DistinctKeys([x] + rest)
  {
    var r := [x] + rest;
    forall i, j | 0 <= i < j < |r| ensures r[i].0 != r[j].0 {
      assert r[j] == rest[j - 1];
      if i > 0 {
        assert r[i] == rest[i - 1];
      }
    }
  }

  /** Filtering keeps keys distinct. */
  lemma {:induction false} StringKeyedDistinct<V>(a: Entries<Key, V>)
    requires DistinctKeys(a)
    ensures DistinctKeys(StringKeyed(a))
  {
    if |a| > 0 {
      var t := a[1..];
      assert DistinctKeys(t) by {
        forall i, j | 0 <= i < j < |t| ensures t[i].0 != t[j].0 {
          assert t[i] == a[i + 1] && t[j] == a[j + 1];
        }
      }
      StringKeyedDistinct(t);
      if a[0].0.StrKey? {
        var rest := StringKeyed(t);
        forall k | 0 <= k < |rest| ensures rest[k].0 != a[0].0 {
          assert rest[k] in t;
          var m :| 0 <= m < |t| && t[m] == rest[k];
          assert a[m + 1] == t[m];
        }
        DistinctCons(a[0], rest);
      }
    }
  }

  // ---------------------------------------------------------------------------
  // the order of string keys

  /** The string keys of `a`, in iteration order. */
  function StrKeys<V>(a: Entries<Key, V>): seq<string> {
    if |a| == 0 then []
    else (if a[0].0.StrKey? then [a[0].0.s] else []) + StrKeys(a[1..])
  }

  /** The string keys of `es` in order, each at its first occurrence and only when `seen`
      does not already hold it. */
  function FreshStrKeys<V>(seen: seq<string>, es: Entries<Key, V>): seq<string>
    decreases |es|
  {
    if |es| == 0 then []
    else if es[0].0.StrKey? && es[0].0.s !in seen then [es[0].0.s] + FreshStrKeys(seen + [es[0].0.s], es[1..])
    else FreshStrKeys(seen, es[1..])
  }

  lemma {:induction false} StrKeysAppend<V>(a: Entries<Key, V>, b: Entries<Key, V>)
    ensures StrKeys(a + b) == StrKeys(a) + StrKeys(b)
  {
    if |a| == 0 {
      assert a + b == b;
    } else {
      AppendTail(a, b);
      StrKeysAppend(a[1..], b);
      var head := if a[0].0.StrKey? then [a[0].0.s] else [];
      assert StrKeys(a + b) == head + StrKeys(a[1..] + b);
      ConcatAssoc(head, StrKeys(a[1..]), StrKeys(b));
    }
  }

  /** A string is among the string keys exactly when it is set as a key. */
  lemma {:induction false} StrKeysHas<V>(a: Entries<Key, V>, s: string)
    ensures s in StrKeys(a) <==> Get(a, StrKey(s)).Some?
  {
    if |a| > 0 {
      StrKeysHas(a[1..], s);
    }
  }

  /** Entry lists with the same keys in the same places have the same string keys. */
  lemma {:induction false} StrKeysSameKeys<V>(a: Entries<Key, V>, b: Entries<Key, V>)
    requires |a| == |b| && forall i :: 0 <= i < |a| ==> a[i].0 == b[i].0
    ensures StrKeys(a) == StrKeys(b)
  {
    if |a| > 0 {
      StrKeysSameKeys(a[1..], b[1..]);
    }
  }

  /** One merge step adds a string key at the end exactly when it is new. */
  lemma MergeEntryOrder<V>(acc: Entries<Key, V>, e: (Key, V))
    requires MergeReady(acc)
    ensures StrKeys(MergeEntry(acc, e)) ==
              StrKeys(acc) + (if e.0.StrKey? && e.0.s !in StrKeys(acc) then [e.0.s] else [])
  {
    if e.0.IntKey? {
      var n := |IntValues(acc)|;
      var x := (IntKey(n), e.1);
      assert MergeEntry(acc, e) == acc + [x];
      StrKeysAppend(acc, [x]);
      assert StrKeys([x]) == [];
      assert StrKeys(acc) + [] == StrKeys(acc);
    } else {
      StrKeysHas(acc, e.0.s);
      assert MergeEntry(acc, e) == Put(acc, e.0, e.1);
      if e.0.s in StrKeys(acc) {
        PutSameKeys(acc, e.0, e.1);
        StrKeysSameKeys(Put(acc, e.0, e.1), acc);
        assert StrKeys(acc) + [] == StrKeys(acc);
      } else {
        assert Put(acc, e.0, e.1) == acc + [e];
        StrKeysAppend(acc, [e]);
        assert StrKeys([e]) == [e.0.s];
      }
    }
  }

  /** Merging appends the new string keys of `es`, in order, after those already there. */
  lemma {:induction false} MergeAllOrder<V>(acc: Entries<Key, V>, es: Entries<Key, V>)
    requires MergeReady(acc)
    ensures StrKeys(MergeAll(acc, es)) == StrKeys(acc) + FreshStrKeys(StrKeys(acc), es)
    decreases |es|
  {
    if |es| > 0 {
      var next := MergeEntry(acc, es[0]);
      MergeEntryOrder(acc, es[0]);
      MergeAllOrder(next, es[1..]);
      var seen := StrKeys(acc);
      assert MergeAll(acc, es) == MergeAll(next, es[1..]);
      if es[0].0.StrKey? && es[0].0.s !in seen {
        var head := [es[0].0.s];
        assert StrKeys(next) == seen + head;
        assert FreshStrKeys(seen, es) == head + FreshStrKeys(seen + head, es[1..]);
        ConcatAssoc(seen, head, FreshStrKeys(seen + head, es[1..]));
      } else {
        assert StrKeys(next) == seen + [];
        assert seen + [] == seen;
        assert FreshStrKeys(seen, es) == FreshStrKeys(seen, es[1..]);
      }
    }
  }

  /** With distinct keys none of which `seen` holds, every string key is fresh. */
  lemma {:induction false} FreshDistinct<V>(seen: seq<string>, es: Entries<Key, V>)
    requires DistinctKeys(es)
    requires forall s :: s in seen ==> Get(es, StrKey(s)).None?
    ensures FreshStrKeys(seen, es) == StrKeys(es)
    decreases |es|
  {
    if |es| > 0 {
      var t := es[1..];
      assert DistinctKeys(t) by {
        forall i, j | 0 <= i < j < |t| ensures t[i].0 != t[j].0 {
          assert t[i] == es[i + 1] && t[j] == es[j + 1];
        }
      }
      if es[0].0.StrKey? {
        var s := es[0].0.s;
        assert s !in seen by {
          assert Get(es, StrKey(s)).Some?;
        }
        forall x | x in seen + [s] ensures Get(t, StrKey(x)).None? {
          forall i | 0 <= i < |t| ensures t[i].0 != StrKey(x) {
            assert t[i] == es[i + 1];
          }
        }
        FreshDistinct(seen + [s], t);
      } else {
        FreshDistinct(seen, t);
      }
    }
  }

  /** Filtering on string keys keeps the string keys in order. */
  lemma {:induction false} StringKeyedOrder<V>(a: Entries<Key, V>)
    ensures StrKeys(StringKeyed(a)) == StrKeys(a)
    decreases |a|
  {
    if |a| > 0 {
      var rest := StringKeyed(a[1..]);
      StringKeyedOrder(a[1..]);
      if a[0].0.StrKey? {
        assert ([a[0]] + rest)[1..] == rest;
        assert StrKeys([a[0]] + rest) == [a[0].0.s] + StrKeys(rest);
      } else {
        assert StrKeys(a) == [] + StrKeys(a[1..]);
        assert [] + StrKeys(a[1..]) == StrKeys(a[1..]);
      }
    }
  }

  /** Freshness ignores the integer keys that filtering drops. */
  lemma {:induction false} StringKeyedFresh<V>(seen: seq<string>, a: Entries<Key, V>)
    ensures FreshStrKeys(seen, StringKeyed(a)) == FreshStrKeys(seen, a)
    decreases |a|
  {
    if |a| > 0 {
      var rest := StringKeyed(a[1..]);
      if a[0].0.StrKey? {
        assert ([a[0]] + rest)[1..] == rest;
        assert ([a[0]] + rest)[0] == a[0];
        if a[0].0.s !in seen {
          StringKeyedFresh(seen + [a[0].0.s], a[1..]);
        } else {
          StringKeyedFresh(seen, a[1..]);
        }
      } else {
        StringKeyedFresh(seen, a[1..]);
      }
    }
  }

  /** `array_merge($a, $b)` lists `a`'s string keys first, then those of `b` that `a` does
      not have, each group in its own order. */
  lemma ArrayMergeOrder<V>(a: Entries<Key, V>, b: Entries<Key, V>)
    requires DistinctKeys(a)
    ensures StrKeys(ArrayMerge(a, b)) == StrKeys(a) + FreshStrKeys(StrKeys(a), b)
  {
    var left := MergeAll([], a);
    MergeAllOrder([], a);
    FreshDistinct([], a);
    assert StrKeys(left) == StrKeys(a);
    MergeAllOrder(left, b);
  }

  // ---------------------------------------------------------------------------
  // array_unique

  /** `xs[i]` is the first occurrence of its value. */
  predicate FirstOccurrence<T(==)>(xs: seq<T>, i: int) {
    0 <= i < |xs| && xs[i] !in xs[..i]
  }

  /** The entries `(j, xs[j])` for the first occurrences at indices `j >= i`, in order. */
  function UniqueFrom<T(==)>(xs: seq<T>, i: nat): (r: Entries<int, T>)
    requires i <= |xs|
    ensures forall p :: 0 <= p < |r| ==> i <= r[p].0 && FirstOccurrence(xs, r[p].0) && r[p].1 == xs[r[p].0]
    ensures forall j :: i <= j < |xs| && FirstOccurrence(xs, j) ==> (j, xs[j]) in r
    ensures forall p, q :: 0 <= p < q < |r| ==> r[p].0 < r[q].0
    decreases |xs| - i
  {
    if i == |xs| then []
    else if xs[i] !in xs[..i] then [(i, xs[i])] + UniqueFrom(xs, i + 1)
    else UniqueFrom(xs, i + 1)
  }

  /** PHP `array_unique` on a list: the first occurrence of every value, at its original
      index (so later indices may be missing). */
  function ArrayUnique<T(==)>(xs: seq<T>): (r: Entries<int, T>)
    ensures forall p :: 0 <= p < |r| ==> FirstOccurrence(xs, r[p].0) && r[p].1 == xs[r[p].0]
    ensures forall j :: FirstOccurrence(xs, j) ==> (j, xs[j]) in r
    ensures forall p, q :: 0 <= p < q < |r| ==> r[p].0 < r[q].0
  {
    UniqueFrom(xs, 0)
  }

  /** The values `array_unique` keeps are pairwise distinct and are exactly the values of `xs`. */
  lemma ArrayUniqueValues<T>(xs: seq<T>)
    ensures forall p, q :: 0 <= p < q < |ArrayUnique(xs)| ==> ArrayUnique(xs)[p].1 != ArrayUnique(xs)[q].1
    ensures forall x :: x in xs <==> x in Values(ArrayUnique(xs))
  {
    var r := ArrayUnique(xs);
    forall p, q | 0 <= p < q < |r|
      ensures r[p].1 != r[q].1
    {
      assert xs[..r[q].0][r[p].0] == xs[r[p].0];
    }
    forall x | x in xs
      ensures x in Values(r)
    {
      var j := FirstIndexOf(xs, x);
      assert (j, xs[j]) in r;
      var p :| 0 <= p < |r| && r[p] == (j, xs[j]);
      assert Values(r)[p] == x;
    }
  }

  function FirstIndexOf<T(==)>(xs: seq<T>, x: T): (j: nat)
    requires x in xs
    ensures FirstOccurrence(xs, j) && xs[j] == x
  {
    if xs[0] == x then 0
    else
      var j := 1 + FirstIndexOf(xs[1..], x);
      assert xs[..j] == [xs[0]] + xs[1..][..j - 1];
      j
  }

  // ---------------------------------------------------------------------------
  // lists, array_chunk

  /** A list `[x0, x1, ...]`: the values keyed 0, 1, ... */
  function Indexed<T>(xs: seq<T>): (r: Entries<int, T>)
    ensures |r| == |xs|
    ensures forall i :: 0 <= i < |xs| ==> r[i] == (i, xs[i])
    ensures Values(r) == xs
  {
    seq(|xs|, i requires 0 <= i < |xs| => (i, xs[i]))
  }

  /** The pieces laid end to end. */
  function Concat<T>(pieces: seq<seq<T>>): seq<T> {
    if |pieces| == 0 then [] else pieces[0] + Concat(pieces[1..])
  }

  /** Consecutive pieces of `size` values, the last one possibly shorter. */
  function Chunks<T>(xs: seq<T>, size: nat): (r: seq<seq<T>>)
    requires size >= 1
    ensures Concat(r) == xs
    ensures forall i :: 0 <= i < |r| ==> 0 < |r[i]| <= size
    ensures forall i :: 0 <= i < |r| - 1 ==> |r[i]| == size
    decreases |xs|
  {
    if |xs| == 0 then []
    else if |xs| <= size then
      assert Concat([xs][1..]) == [];
      [xs]
    else
      var rest := Chunks(xs[size..], size);
      var r := [xs[..size]] + rest;
      assert r[1..] == rest;
      assert xs[..size] + xs[size..] == xs;
      r
  }

  /** PHP `array_chunk($xs, $size)` on a list: the chunks, or `NULL` (with a warning) when
      the size is below 1. */
  function ArrayChunk<T>(xs: seq<T>, size: int): (r: Option<seq<seq<T>>>)
    ensures r.None? <==> size < 1
    ensures r.Some? ==> Concat(r.value) == xs
    ensures r.Some? ==> forall i :: 0 <= i < |r.value| ==> 0 < |r.value[i]| <= size
    ensures r.Some? ==> forall i :: 0 <= i < |r.value| - 1 ==> |r.value[i]| == size
  {
    if size < 1 then None else Some(Chunks(xs, size))
  }

  /** The first two chunks are the first `size` values and the `size` after them. */
  lemma {:induction false} FirstChunks<T>(xs: seq<T>, size: int)
    requires size >= 1
    ensures |xs| > 0 <==> |ArrayChunk(xs, size).value| > 0
    ensures |xs| > 0 ==> ArrayChunk(xs, size).value[0] == xs[..if |xs| < size then |xs| else size]
    ensures |xs| > size <==> |ArrayChunk(xs, size).value| > 1
    ensures |xs| > size ==> ArrayChunk(xs, size).value[1] == xs[size..if |xs| < 2 * size then |xs| else 2 * size]
  {
    if |xs| > size {
      var rest := xs[size..];
      ChunksStep(xs, size);
      if |rest| <= size {
        ChunksLast(rest, size);
      } else {
        ChunksStep(rest, size);
        assert rest[..size] == xs[size..2 * size];
      }
    } else if |xs| > 0 {
      ChunksLast(xs, size);
    }
  }

  /** More than `size` values: a full first chunk, then the chunks of the rest. */
  lemma ChunksStep<T>(xs: seq<T>, size: nat)
    requires size >= 1 && |xs| > size
    ensures |Chunks(xs, size)| == 1 + |Chunks(xs[size..], size)|
    ensures Chunks(xs, size)[0] == xs[..size]
    ensures forall i :: 0 <= i < |Chunks(xs[size..], size)| ==> Chunks(xs, size)[i + 1] == Chunks(xs[size..], size)[i]
  {
  }

  /** At most `size` values, and at least one: a single chunk. */
  lemma ChunksLast<T>(xs: seq<T>, size: nat)
    requires size >= 1 && 0 < |xs| <= size
    ensures |Chunks(xs, size)| == 1 && Chunks(xs, size)[0] == xs
  {
  }
}
