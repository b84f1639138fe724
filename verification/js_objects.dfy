/**
 * Plain JavaScript objects used as dictionaries: the value stored under each
 * own key, and the order `Object.keys` and `Object.values` enumerate those keys
 * in (keys that are array indices first, in ascending numeric order, then every
 * other key in the order it was first added).
 */
module JsObjects {
  import opened JsValues

  /** An object's own keys in the order they were added, and the value under each. */
  datatype Object<V> = Object(order: seq<string>, entries: map<string, V>)

  ghost predicate NoDuplicates(s: seq<string>)
  {
    forall k :: multiset(s)[k] <= 1
  }

  /** The insertion order lists each key of the object exactly once. */
  ghost predicate Wf<V>(o: Object<V>)
  {
    && NoDuplicates(o.order)
    && forall k :: k in o.entries <==> k in o.order
  }

  /** `{}` */
  function EmptyObject<V>(): (o: Object<V>)
    ensures Wf(o) && o.entries == map[]
  {
    Object([], map[])
  }

  /** `o[k] = v`: the value under `k` is replaced; a key not yet present goes to
      the end of the insertion order, a present one keeps its place. */
  function Put<V>(o: Object<V>, k: string, v: V): (r: Object<V>)
    ensures r.entries.Keys == o.entries.Keys + {k}
    ensures r.entries[k] == v
    ensures forall j :: j in o.entries && j != k ==> r.entries[j] == o.entries[j]
    ensures Wf(o) ==> Wf(r)
    ensures Wf(o) && k in o.entries ==> r.order == o.order
    ensures k !in o.entries ==> r.order == o.order + [k]
  {
    Object(if k in o.entries then o.order else o.order + [k], o.entries[k := v])
  }

  /** Filtering out one key drops all its occurrences and keeps the count of every other key. */
  lemma {:induction false} FilterOutCounts(s: seq<string>, k: string, keep: string -> bool)
    requires forall j :: keep(j) == (j != k)
    ensures multiset(Filter(s, keep)) == multiset(s)[k := 0]
  {
    if s != [] {
      FilterOutCounts(s[1..], k, keep);
      assert s == [s[0]] + s[1..];
    }
  }

  /** `delete o[k]`: the key and its value go; every other key keeps its value,
      and the remaining keys keep their insertion order. */
  function Delete<V>(o: Object<V>, k: string): (r: Object<V>)
    ensures r.entries.Keys == o.entries.Keys - {k}
    ensures forall j :: j in r.entries ==> r.entries[j] == o.entries[j]
    ensures r.order == Filter(o.order, j => j != k)
    ensures Wf(o) ==> Wf(r)
  {
    var order := Filter(o.order, j => j != k);
    FilterOutCounts(o.order, k, j => j != k);
    Object(order, o.entries - {k})
  }

  /** Keys that are not array indices: named properties. */
  predicate IsNamedKey(k: string) { !IsArrayIndex(k) }

  /** Array-index keys in ascending numeric order: each key is no larger than the next. */
  ghost predicate Ascending(s: seq<string>)
  {
    forall i :: 0 < i < |s| ==> DecimalValue(s[i - 1]) <= DecimalValue(s[i])
  }

  /** Places `k` before the first key whose numeric value is not smaller. */
  function InsertByIndex(k: string, s: seq<string>): (r: seq<string>)
    ensures multiset(r) == multiset(s) + multiset{k}
    ensures |r| == |s| + 1
    ensures r[0] == if s == [] || DecimalValue(k) <= DecimalValue(s[0]) then k else s[0]
  {
    if s == [] || DecimalValue(k) <= DecimalValue(s[0]) then [k] + s
    else
      assert s == [s[0]] + s[1..];
      [s[0]] + InsertByIndex(k, s[1..])
  }

  /** A key no larger than the first key of an ascending list can go in front of it. */
  lemma ConsAscending(x: string, t: seq<string>)
    requires Ascending(t)
    requires t != [] ==> DecimalValue(x) <= DecimalValue(t[0])
    ensures Ascending([x] + t)
  {
    var r := [x] + t;
    forall i | 0 < i < |r| ensures DecimalValue(r[i - 1]) <= DecimalValue(r[i]) {
      assert r[i] == t[i - 1];
      if i > 1 {
        assert r[i - 1] == t[i - 2];
      }
    }
  }

  lemma {:induction false} InsertByIndexAscending(k: string, s: seq<string>)
    requires Ascending(s)
    ensures Ascending(InsertByIndex(k, s))
  {
    if s == [] || DecimalValue(k) <= DecimalValue(s[0]) {
      ConsAscending(k, s);
    } else {
      var tail := s[1..];
      assert Ascending(tail) by {
        forall i | 0 < i < |tail| ensures DecimalValue(tail[i - 1]) <= DecimalValue(tail[i]) {
          assert tail[i - 1] == s[i] && tail[i] == s[i + 1];
        }
      }
      InsertByIndexAscending(k, tail);
      if tail != [] {
        assert tail[0] == s[1];
      }
      ConsAscending(s[0], InsertByIndex(k, tail));
    }
  }

  /** Insertion sort of array-index keys by numeric value. */
  function SortByIndex(s: seq<string>): (r: seq<string>)
    ensures multiset(r) == multiset(s)
  {
    if s == [] then []
    else
      assert s == [s[0]] + s[1..];
      InsertByIndex(s[0], SortByIndex(s[1..]))
  }

  lemma {:induction false} SortByIndexAscending(s: seq<string>)
    ensures Ascending(SortByIndex(s))
  {
    if s != [] {
      SortByIndexAscending(s[1..]);
      InsertByIndexAscending(s[0], SortByIndex(s[1..]));
    }
  }

  /** `Object.keys(o)`: array-index keys in ascending numeric order, then the
      other keys in insertion order. */
  function OwnKeys<V>(o: Object<V>): (r: seq<string>)
    ensures multiset(r) == multiset(o.order)
  {
    FilterPartition(o.order, IsArrayIndex, IsNamedKey);
    SortByIndex(Filter(o.order, IsArrayIndex)) + Filter(o.order, IsNamedKey)
  }

  /** `Object.keys` enumerates every own key, and each exactly once. */
  lemma OwnKeysCover<V>(o: Object<V>)
    requires Wf(o)
    ensures NoDuplicates(OwnKeys(o))
    ensures forall k :: k in OwnKeys(o) <==> k in o.entries
  {
    var ks := OwnKeys(o);
    forall k | k in ks ensures k in o.entries {
      assert k in multiset(ks);
    }
    forall k | k in o.entries ensures k in ks {
      assert k in multiset(o.order);
    }
  }

  /** `Object.keys` lists the array-index keys first, in ascending numeric order,
      and the named keys after them in insertion order. */
  lemma OwnKeysOrder<V>(o: Object<V>)
    ensures var ks := OwnKeys(o);
      var n := |Filter(o.order, IsArrayIndex)|;
      && n <= |ks|
      && (forall i :: 0 <= i < n ==> IsArrayIndex(ks[i]))
      && Ascending(ks[..n])
      && ks[n..] == Filter(o.order, IsNamedKey)
  {
    var idx := Filter(o.order, IsArrayIndex);
    var ks := OwnKeys(o);
    SortByIndexAscending(idx);
    assert ks[..|idx|] == SortByIndex(idx);
    forall i | 0 <= i < |idx| ensures IsArrayIndex(ks[i]) {
      assert ks[i] in multiset(SortByIndex(idx));
    }
  }

  /** The values under the given keys, skipping keys the object lacks. */
  function ValuesAt<V>(m: map<string, V>, ks: seq<string>): (r: seq<V>)
    ensures (forall k :: k in ks ==> k in m) ==>
      |r| == |ks| && forall i :: 0 <= i < |ks| ==> r[i] == m[ks[i]]
  {
    if ks == [] then []
    else (if ks[0] in m then [m[ks[0]]] else []) + ValuesAt(m, ks[1..])
  }

  /** `Object.values(o)`: the values in `Object.keys` order. */
  function Values<V>(o: Object<V>): seq<V>
  {
    ValuesAt(o.entries, OwnKeys(o))
  }

  /** For a well-formed object, every value appears in `Object.values`, at the position of its key. */
  lemma ValuesSpec<V>(o: Object<V>)
    ensures Wf(o) ==> |Values(o)| == |OwnKeys(o)|
    ensures Wf(o) ==> forall i :: 0 <= i < |OwnKeys(o)| ==>
      OwnKeys(o)[i] in o.entries && Values(o)[i] == o.entries[OwnKeys(o)[i]]
  {
    if Wf(o) {
      OwnKeysCover(o);
    }
  }
}
