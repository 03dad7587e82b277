/**
  A JavaScript `Map` as the lobby uses it: a sequence of key/value entries in
  insertion order. `set` on a present key replaces its value in place, `set`
  on a new key appends, `delete` removes the key, and `values()` lists the
  values in insertion order. `ToMap` forgets the order, giving the
  mathematical map the entries denote.
 */
module InsertionMap {

  function Keys<K, V>(m: seq<(K, V)>): set<K>
    decreases |m|
  {
    if m == [] then {} else {m[0].0} + Keys(m[1..])
  }

  /** No key occurs twice: the shape a JavaScript `Map` always has. */
  predicate DistinctKeys<K(==), V>(m: seq<(K, V)>)
    decreases |m|
  {
    m == [] || (m[0].0 !in Keys(m[1..]) && DistinctKeys(m[1..]))
  }

  /** The key/value association the entries denote; an earlier entry wins
      over a later one with the same key, as `get` would find it first. */
  function ToMap<K(==), V>(m: seq<(K, V)>): (r: map<K, V>)
    ensures r.Keys == Keys(m)
    decreases |m|
  {
    if m == [] then map[] else ToMap(m[1..])[m[0].0 := m[0].1]
  }

  /** `Array.from(m.values())`: one value per entry, in insertion order. */
  function Values<K, V>(m: seq<(K, V)>): seq<V> {
    seq(|m|, i requires 0 <= i < |m| => m[i].1)
  }

  /** Every entry's key is among the keys. */
  lemma {:induction false} KeyOfEntry<K, V>(m: seq<(K, V)>, i: nat)
    requires i < |m|
    ensures m[i].0 in Keys(m)
    decreases |m|
  {
    if i > 0 {
      assert m[1..][i - 1] == m[i];
      KeyOfEntry(m[1..], i - 1);
    }
  }

  /** Every key is carried by some entry. */
  lemma {:induction false} EntryOfKey<K, V>(m: seq<(K, V)>, k: K) returns (i: nat)
    requires k in Keys(m)
    ensures i < |m| && m[i].0 == k
    decreases |m|
  {
    if m[0].0 == k {
      i := 0;
    } else {
      var j := EntryOfKey(m[1..], k);
      assert m[1..][j] == m[j + 1];
      i := j + 1;
    }
  }

  /** With distinct keys, every entry's key denotes that entry's value. */
  lemma {:induction false} ToMapAtEntry<K, V>(m: seq<(K, V)>, i: nat)
    requires DistinctKeys(m) && i < |m|
    ensures m[i].0 in ToMap(m) && ToMap(m)[m[i].0] == m[i].1
    decreases |m|
  {
    if i > 0 {
      KeyOfEntry(m[1..], i - 1);
      assert m[1..][i - 1] == m[i];
      assert m[i].0 != m[0].0;
      ToMapAtEntry(m[1..], i - 1);
    }
  }

  /** With distinct keys, `values()` lists, for each entry, the value its
      key denotes. */
  lemma ValuesDenote<K, V>(m: seq<(K, V)>)
    requires DistinctKeys(m)
    ensures |Values(m)| == |m|
    ensures forall i :: 0 <= i < |m| ==> m[i].0 in ToMap(m) && ToMap(m)[m[i].0] == Values(m)[i]
  {
    forall i | 0 <= i < |m| ensures m[i].0 in ToMap(m) && ToMap(m)[m[i].0] == Values(m)[i] {
      ToMapAtEntry(m, i);
    }
  }

  /** `m.set(k, v)` */
  function Put<K(==), V>(m: seq<(K, V)>, k: K, v: V): (r: seq<(K, V)>)
    ensures Keys(r) == Keys(m) + {k}
    ensures ToMap(r) == ToMap(m)[k := v]
    ensures k in Keys(m) ==> |r| == |m|
    ensures k !in Keys(m) ==> r == m + [(k, v)]
    decreases |m|
  {
    if m == [] then [(k, v)]
    else if m[0].0 == k then
      var r := [(k, v)] + m[1..];
      assert r[1..] == m[1..];
      assert ToMap(r) == ToMap(m[1..])[k := v];
      r
    else
      var rest := Put(m[1..], k, v);
      var r := [m[0]] + rest;
      assert r[0] == m[0] && r[1..] == rest;
      assert ToMap(r) == ToMap(rest)[m[0].0 := m[0].1];
      r
  }

  /** `set` introduces no entry but the one it was given, and never
      duplicates a key. */
  lemma {:induction false} PutKeepsShape<K, V>(m: seq<(K, V)>, k: K, v: V)
    ensures forall e :: e in Put(m, k, v) ==> e == (k, v) || e in m
    ensures DistinctKeys(m) ==> DistinctKeys(Put(m, k, v))
    decreases |m|
  {
    if m != [] && m[0].0 != k {
      PutKeepsShape(m[1..], k, v);
      var r := Put(m, k, v);
      assert r[0] == m[0] && r[1..] == Put(m[1..], k, v);
      forall e | e in r ensures e == (k, v) || e in m {
        if e != r[0] {
          assert e in r[1..];
        }
      }
    } else if m != [] {
      assert Put(m, k, v)[1..] == m[1..];
    }
  }

  /** `set` on a present key overwrites its first (with distinct keys: its
      only) entry where it stands; every other entry keeps its position. */
  lemma {:induction false} PutReplacesInPlace<K, V>(m: seq<(K, V)>, k: K, v: V)
    requires k in Keys(m)
    ensures exists i :: 0 <= i < |m| && m[i].0 == k && (forall j :: 0 <= j < i ==> m[j].0 != k)
                        && Put(m, k, v) == m[i := (k, v)]
    decreases |m|
  {
    if m[0].0 == k {
      assert Put(m, k, v) == m[0 := (k, v)];
    } else {
      PutReplacesInPlace(m[1..], k, v);
      var i :| 0 <= i < |m[1..]| && m[1..][i].0 == k && (forall j :: 0 <= j < i ==> m[1..][j].0 != k)
               && Put(m[1..], k, v) == m[1..][i := (k, v)];
      UpdateBehindHead(m, i, (k, v));
      assert Put(m, k, v) == m[i + 1 := (k, v)];
    }
  }

  /** Updating the tail of a sequence is updating the sequence one place
      further on. */
  lemma UpdateBehindHead<T>(m: seq<T>, i: nat, x: T)
    requires i + 1 < |m|
    ensures [m[0]] + m[1..][i := x] == m[i + 1 := x]
    ensures forall j :: 0 <= j < i ==> m[1..][j] == m[j + 1]
  {
  }

  /** `m.delete(k)` */
  function Remove<K(==), V>(m: seq<(K, V)>, k: K): (r: seq<(K, V)>)
    ensures Keys(r) == Keys(m) - {k}
    ensures ToMap(r) == ToMap(m) - {k}
    ensures k !in Keys(m) ==> r == m
    ensures forall e :: e in r ==> e in m
    ensures DistinctKeys(m) ==> DistinctKeys(r)
    decreases |m|
  {
    if m == [] then []
    else if m[0].0 == k then Remove(m[1..], k)
    else
      var rest := Remove(m[1..], k);
      var r := [m[0]] + rest;
      assert r[0] == m[0] && r[1..] == rest;
      r
  }

  /** `delete` keeps the surviving entries in their original order: it
      acts on each part of a concatenation separately, and on a single
      entry it drops exactly an entry under the deleted key. */
  lemma {:induction false} RemoveKeepsOrder<K, V>(a: seq<(K, V)>, b: seq<(K, V)>, k: K)
    ensures Remove(a + b, k) == Remove(a, k) + Remove(b, k)
    ensures forall e: (K, V) :: Remove([e], k) == if e.0 == k then [] else [e]
    decreases |a|
  {
    RemoveSingle<K, V>(k);
    if a == [] {
      assert a + b == b;
    } else {
      RemoveKeepsOrder(a[1..], b, k);
      RemoveConsStep(a, b, k);
    }
  }

  lemma RemoveConsStep<K, V>(a: seq<(K, V)>, b: seq<(K, V)>, k: K)
    requires a != []
    requires Remove(a[1..] + b, k) == Remove(a[1..], k) + Remove(b, k)
    ensures Remove(a + b, k) == Remove(a, k) + Remove(b, k)
  {
    TailOfAppend(a, b);
    var head := if a[0].0 == k then [] else [a[0]];
    RemoveFirst(a + b, k);
    RemoveFirst(a, k);
    calc {
      Remove(a + b, k);
      head + Remove(a[1..] + b, k);
      head + (Remove(a[1..], k) + Remove(b, k));
      { AppendAssoc(head, Remove(a[1..], k), Remove(b, k)); }
      (head + Remove(a[1..], k)) + Remove(b, k);
      Remove(a, k) + Remove(b, k);
    }
  }

  lemma AppendAssoc<T>(x: seq<T>, y: seq<T>, z: seq<T>)
    ensures x + (y + z) == (x + y) + z
  {
  }

  lemma TailOfAppend<T>(a: seq<T>, b: seq<T>)
    requires a != []
    ensures (a + b)[0] == a[0] && (a + b)[1..] == a[1..] + b
  {
  }

  lemma RemoveFirst<K, V>(m: seq<(K, V)>, k: K)
    requires m != []
    ensures Remove(m, k) == (if m[0].0 == k then [] else [m[0]]) + Remove(m[1..], k)
  {
  }

  lemma RemoveSingle<K, V>(k: K)
    ensures forall e: (K, V) :: Remove([e], k) == if e.0 == k then [] else [e]
  {
    forall e: (K, V) ensures Remove([e], k) == if e.0 == k then [] else [e] {
      assert [e][1..] == [];
    }
  }

  /** Setting each pair in turn on a mathematical map: what a `forEach` of
      `set` means for the denoted map. A later pair for a key overrides an
      earlier one. */
  function SetAll<K, V>(mp: map<K, V>, kvs: seq<(K, V)>): map<K, V>
    decreases |kvs|
  {
    if kvs == [] then mp else SetAll(mp[kvs[0].0 := kvs[0].1], kvs[1..])
  }

  /** `kvs.forEach(([k, v]) => m.set(k, v))` */
  function PutAll<K(==), V>(m: seq<(K, V)>, kvs: seq<(K, V)>): (r: seq<(K, V)>)
    ensures Keys(r) == Keys(m) + Keys(kvs)
    ensures ToMap(r) == SetAll(ToMap(m), kvs)
    ensures DistinctKeys(m) ==> DistinctKeys(r)
    ensures forall e :: e in r ==> e in m || e in kvs
    decreases |kvs|
  {
    if kvs == [] then m
    else
      PutKeepsShape(m, kvs[0].0, kvs[0].1);
      PutAll(Put(m, kvs[0].0, kvs[0].1), kvs[1..])
  }

  /** After setting every pair, a key holds the value of the last pair that
      names it, whatever it held before. */
  lemma {:induction false} SetAllLastWins<K, V>(mp: map<K, V>, kvs: seq<(K, V)>, i: nat)
    requires i < |kvs|
    requires forall j :: i < j < |kvs| ==> kvs[j].0 != kvs[i].0
    ensures kvs[i].0 in SetAll(mp, kvs) && SetAll(mp, kvs)[kvs[i].0] == kvs[i].1
    decreases |kvs|
  {
    if i == 0 {
      SetAllUntouched(mp[kvs[0].0 := kvs[0].1], kvs[1..], kvs[0].0);
    } else {
      forall j | i - 1 < j < |kvs[1..]| ensures kvs[1..][j].0 != kvs[1..][i - 1].0 {
        assert kvs[1..][j] == kvs[j + 1];
      }
      SetAllLastWins(mp[kvs[0].0 := kvs[0].1], kvs[1..], i - 1);
    }
  }

  /** A key no pair names keeps whatever it held. */
  lemma {:induction false} SetAllUntouched<K, V>(mp: map<K, V>, kvs: seq<(K, V)>, k: K)
    requires forall j :: 0 <= j < |kvs| ==> kvs[j].0 != k
    ensures (k in SetAll(mp, kvs) <==> k in mp) && (k in mp ==> SetAll(mp, kvs)[k] == mp[k])
    decreases |kvs|
  {
    if kvs != [] {
      forall j | 0 <= j < |kvs[1..]| ensures kvs[1..][j].0 != k {
        assert kvs[1..][j] == kvs[j + 1];
      }
      SetAllUntouched(mp[kvs[0].0 := kvs[0].1], kvs[1..], k);
    }
  }

  lemma {:induction false} KeysAppend<K, V>(a: seq<(K, V)>, b: seq<(K, V)>)
    ensures Keys(a + b) == Keys(a) + Keys(b)
    decreases |a|
  {
    if a != [] {
      assert (a + b)[1..] == a[1..] + b;
      KeysAppend(a[1..], b);
    } else {
      assert a + b == b;
    }
  }

  lemma {:induction false} DistinctKeysAppend<K, V>(a: seq<(K, V)>, b: seq<(K, V)>)
    ensures DistinctKeys(a + b) <==> DistinctKeys(a) && DistinctKeys(b) && Keys(a) !! Keys(b)
    decreases |a|
  {
    if a == [] {
      assert a + b == b;
    } else {
      assert (a + b)[1..] == a[1..] + b;
      assert (a + b)[0] == a[0];
      KeysAppend(a[1..], b);
      DistinctKeysAppend(a[1..], b);
    }
  }

  /** Setting the same key to the same value twice is the same as once. */
  lemma {:induction false} PutIdempotent<K, V>(m: seq<(K, V)>, k: K, v: V)
    ensures Put(Put(m, k, v), k, v) == Put(m, k, v)
    decreases |m|
  {
    if m != [] && m[0].0 != k {
      PutIdempotent(m[1..], k, v);
    }
  }

  /** Replaying entries whose keys are all new appends them in order: so a
      `Map` rebuilt from its own entries is the same `Map`, order included. */
  lemma {:induction false} PutAllFresh<K, V>(m: seq<(K, V)>, kvs: seq<(K, V)>)
    requires DistinctKeys(m + kvs)
    ensures PutAll(m, kvs) == m + kvs
    decreases |kvs|
  {
    if kvs != [] {
      var e := kvs[0];
      DistinctKeysAppend(m, kvs);
      assert e.0 in Keys(kvs);
      assert e.0 !in Keys(m);
      assert Put(m, e.0, e.1) == m + [e];
      assert (m + [e]) + kvs[1..] == m + kvs;
      PutAllFresh(m + [e], kvs[1..]);
    } else {
      assert m + kvs == m;
    }
  }
}
