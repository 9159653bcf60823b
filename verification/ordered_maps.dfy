/**
  Insertion-ordered association lists: the shape of a Python dict.

  A Python dict iterates its keys in the order they were first inserted.
  Assigning to a key that is already present keeps that key where it is;
  assigning to a new key puts it at the end; deleting a key removes it from
  the order, so that a later assignment appends it at the end again.
  `OrderedMap` models that as a sequence of (key, value) pairs, `Keys` gives
  its iteration order and `ToMap` its meaning as a plain (unordered) map.
 */
module OrderedMaps {

  type OrderedMap<K, V> = seq<(K, V)>

  /** The keys in iteration order. */
  function Keys<K, V>(m: OrderedMap<K, V>): (ks: seq<K>)
    ensures |ks| == |m|
  {
    if |m| == 0 then [] else [m[0].0] + Keys(m[1..])
  }

  /** No key occurs twice: the invariant every dict keeps. */
  predicate Valid<K(==), V>(m: OrderedMap<K, V>)
  {
    |m| == 0 || (m[0].0 !in Keys(m[1..]) && Valid(m[1..]))
  }

  /** The position of the entry for `k`, or `|m|` when there is none. */
  function IndexOf<K(==, !new), V>(m: OrderedMap<K, V>, k: K): (i: nat)
    ensures i <= |m|
    ensures i < |m| <==> k in Keys(m)
    ensures i < |m| ==> m[i].0 == k
    ensures forall j :: 0 <= j < i ==> m[j].0 != k
  {
    if |m| == 0 then 0
    else if m[0].0 == k then 0
    else 1 + IndexOf(m[1..], k)
  }

  /** The unordered meaning of an ordered map: each key is bound to the value
      of its first entry (its only entry, in a valid map). */
  function ToMap<K(==), V>(m: OrderedMap<K, V>): map<K, V>
  {
    if |m| == 0 then map[]
    else ToMap(m[1..])[m[0].0 := m[0].1]
  }

  /** The map view has exactly the keys of the iteration order. */
  lemma {:induction false} ToMapDomain<K(!new), V>(m: OrderedMap<K, V>)
    ensures forall k :: k in ToMap(m) <==> k in Keys(m)
  {
    if |m| > 0 {
      ToMapDomain(m[1..]);
    }
  }

  /** Python's `d.get(k, default)`. */
  function GetOr<K(==, !new), V>(m: OrderedMap<K, V>, k: K, default: V): (v: V)
    ensures k in ToMap(m) ==> v == ToMap(m)[k]
    ensures k !in ToMap(m) ==> v == default
  {
    if |m| == 0 then default
    else if m[0].0 == k then m[0].1
    else GetOr(m[1..], k, default)
  }

  /** Python's `d[k] = v`: an existing key keeps its position, a new key is
      appended at the end (see `PutSpec`, `PutInPlace`, `PutAppends`). */
  function Put<K(==), V>(m: OrderedMap<K, V>, k: K, v: V): OrderedMap<K, V>
  {
    if |m| == 0 then [(k, v)]
    else if m[0].0 == k then [(k, v)] + m[1..]
    else [m[0]] + Put(m[1..], k, v)
  }

  /** Python's `del d[k]`. Python raises `KeyError` on an absent key; this
      function is total and returns such a map unchanged, and `RemoveItem`
      only calls it on a present key (see `DeleteSpec`, `DeleteRemovesEntry`). */
  function Delete<K(==), V>(m: OrderedMap<K, V>, k: K): OrderedMap<K, V>
  {
    if |m| == 0 then []
    else if m[0].0 == k then m[1..]
    else [m[0]] + Delete(m[1..], k)
  }

  /** Assignment binds `k` to `v` in the map view and changes no other
      binding; the key order is unchanged when `k` was present and gains `k`
      at the end otherwise; no key is duplicated. */
  lemma {:induction false} PutSpec<K(!new), V>(m: OrderedMap<K, V>, k: K, v: V)
    ensures ToMap(Put(m, k, v)) == ToMap(m)[k := v]
    ensures Keys(Put(m, k, v)) == if k in Keys(m) then Keys(m) else Keys(m) + [k]
    ensures Valid(m) ==> Valid(Put(m, k, v))
  {
    if |m| > 0 && m[0].0 != k {
      var rest := Put(m[1..], k, v);
      PutSpec(m[1..], k, v);
      assert Put(m, k, v)[1..] == rest;
    }
  }

  /** In a valid map, deletion removes `k` from the map view and keeps
      every other binding. */
  lemma {:induction false} DeleteSpec<K(!new), V>(m: OrderedMap<K, V>, k: K)
    requires Valid(m)
    ensures ToMap(Delete(m, k)) == ToMap(m) - {k}
  {
    if |m| > 0 {
      if m[0].0 == k {
        ToMapDomain(m[1..]);
      } else {
        var rest := Delete(m[1..], k);
        DeleteSpec(m[1..], k);
        assert ([m[0]] + rest)[1..] == rest;
      }
    }
  }

  /** Deletion duplicates no key: it only ever drops an entry. */
  lemma {:induction false} DeleteValid<K(!new), V>(m: OrderedMap<K, V>, k: K)
    requires Valid(m)
    ensures Valid(Delete(m, k))
    ensures forall x :: x in Keys(Delete(m, k)) ==> x in Keys(m)
  {
    if |m| > 0 && m[0].0 != k {
      var rest := Delete(m[1..], k);
      DeleteValid(m[1..], k);
      assert ([m[0]] + rest)[1..] == rest;
    }
  }

  /** Deleting a present key removes exactly its entry: every other entry
      keeps its relative place in the iteration order. */
  lemma {:induction false} DeleteRemovesEntry<K(!new), V>(m: OrderedMap<K, V>, k: K)
    requires k in Keys(m)
    ensures Delete(m, k) == m[..IndexOf(m, k)] + m[IndexOf(m, k) + 1..]
  {
    if m[0].0 == k {
      assert m[..0] == [];
    } else {
      var j := IndexOf(m[1..], k);
      assert IndexOf(m, k) == j + 1;
      DeleteRemovesEntry(m[1..], k);
      assert m[..j + 1] == [m[0]] + m[1..][..j];
      assert m[j + 2..] == m[1..][j + 1..];
    }
  }

  /** Assigning to a present key overwrites its entry where it stands. */
  lemma {:induction false} PutInPlace<K(!new), V>(m: OrderedMap<K, V>, k: K, v: V)
    requires k in Keys(m)
    ensures Put(m, k, v) == m[IndexOf(m, k) := (k, v)]
  {
    if m[0].0 != k {
      PutInPlace(m[1..], k, v);
      var j := IndexOf(m[1..], k);
      assert [m[0]] + m[1..][j := (k, v)] == m[j + 1 := (k, v)];
      assert Put(m, k, v)[1..] == Put(m[1..], k, v);
    }
  }

  /** Overwriting an entry in place leaves its key at the same position. */
  lemma SameIndexAfterOverwrite<K(!new), V>(m: OrderedMap<K, V>, k: K, v: V)
    requires k in Keys(m)
    ensures IndexOf(m[IndexOf(m, k) := (k, v)], k) == IndexOf(m, k)
  {
    var i := IndexOf(m, k);
    var r := m[i := (k, v)];
    assert r[i].0 == k;
  }

  /** Assigning to a new key appends one entry at the end. */
  lemma {:induction false} PutAppends<K(!new), V>(m: OrderedMap<K, V>, k: K, v: V)
    requires k !in Keys(m)
    ensures Put(m, k, v) == m + [(k, v)]
  {
    if |m| > 0 {
      PutAppends(m[1..], k, v);
      assert m + [(k, v)] == [m[0]] + (m[1..] + [(k, v)]);
    }
  }

  /** `Valid` is the usual statement that no two entries share a key. */
  lemma {:induction false} ValidIffDistinctKeys<K, V>(m: OrderedMap<K, V>)
    ensures Valid(m) <==> forall i, j :: 0 <= i < j < |m| ==> m[i].0 != m[j].0
  {
    if |m| > 0 {
      ValidIffDistinctKeys(m[1..]);
      KeysAt(m[1..]);
    }
  }

  /** The key at each position of the iteration order. */
  lemma {:induction false} KeysAt<K, V>(m: OrderedMap<K, V>)
    ensures forall i :: 0 <= i < |m| ==> Keys(m)[i] == m[i].0
  {
    if |m| > 0 {
      KeysAt(m[1..]);
    }
  }

  /** The map view binds a key to the value of the entry `IndexOf` finds. */
  lemma {:induction false} ToMapAt<K(!new), V>(m: OrderedMap<K, V>, k: K)
    requires k in Keys(m)
    ensures k in ToMap(m) && ToMap(m)[k] == m[IndexOf(m, k)].1
  {
    if m[0].0 != k {
      ToMapAt(m[1..], k);
    }
  }
}
