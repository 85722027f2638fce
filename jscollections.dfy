/**
  The JavaScript built-in collections the multimap is built on, as values.

  A JS `Set` iterates in insertion order and holds each value once, so it is
  a sequence without repetitions. A JS `Map` iterates its keys in insertion
  order; overwriting an existing key keeps its position, deleting a key
  removes it from the order. It is a sequence of distinct keys together with
  a finite map giving each key's value.
 */
module JsCollections {

  datatype Option<T> = None | Some(value: T)

  /** No element occurs twice. */
  ghost predicate Distinct<T>(s: seq<T>) {
    forall i, j :: 0 <= i < j < |s| ==> s[i] != s[j]
  }

  /** `s.add(x)`: a value not yet present goes to the end; a present one changes nothing. */
  function SetAdd<T(==,!new)>(s: seq<T>, x: T): (r: seq<T>)
    ensures forall y :: y in r <==> y in s || y == x
    ensures x in s ==> r == s
    ensures |r| == |s| + (if x in s then 0 else 1)
    ensures r[..|s|] == s
    ensures Distinct(s) ==> Distinct(r)
  {
    if x in s then s else s + [x]
  }

  /** The position of the first occurrence of `x` in `s`. */
  function IndexOf<T(==)>(s: seq<T>, x: T): (i: nat)
    requires x in s
    ensures i < |s| && s[i] == x && x !in s[..i]
  {
    if s[0] == x then 0 else 1 + IndexOf(s[1..], x)
  }

  /** `s.delete(x)`: `x` is taken out, the other values keep their order. */
  function SetDelete<T(==,!new)>(s: seq<T>, x: T): (r: seq<T>)
    ensures forall y :: y in r <==> y in s && y != x
    ensures x !in s ==> r == s
    ensures Distinct(s) ==> Distinct(r) && |r| == |s| - (if x in s then 1 else 0)
    ensures Distinct(s) && x in s ==> r == s[..IndexOf(s, x)] + s[IndexOf(s, x) + 1..]
  {
    if s == [] then []
    else if s[0] == x then
      assert Distinct(s) ==> x !in s[1..];
      SetDelete(s[1..], x)
    else
      var rest := SetDelete(s[1..], x);
      DistinctCons(s[0], rest);
      assert x in s ==>
        && s[..IndexOf(s, x)] == [s[0]] + s[1..][..IndexOf(s[1..], x)]
        && s[IndexOf(s, x) + 1..] == s[1..][IndexOf(s[1..], x) + 1..];
      [s[0]] + rest
  }

  /** Putting a new element in front of a sequence without repetitions keeps it so. */
  lemma DistinctCons<T>(a: T, t: seq<T>)
    ensures a !in t && Distinct(t) ==> Distinct([a] + t)
  {
  }

  /** A sequence without repetitions has as many elements as the set of its elements. */
  lemma {:induction false} DistinctCardinality<T>(s: seq<T>)
    requires Distinct(s)
    ensures |set x | x in s| == |s|
  {
    if s != [] {
      DistinctCardinality(s[1..]);
      assert (set x | x in s) == {s[0]} + (set x | x in s[1..]);
      assert s[0] !in s[1..];
    }
  }

  /** In a sequence without repetitions every value occurs at most once. */
  lemma {:induction false} DistinctMultiplicity<T>(s: seq<T>, x: T)
    requires Distinct(s)
    ensures multiset(s)[x] == if x in s then 1 else 0
  {
    if s != [] {
      assert s == [s[0]] + s[1..];
      DistinctMultiplicity(s[1..], x);
      assert s[0] !in s[1..];
    }
  }

  datatype JsMap<K(!new), V> = JsMap(keys: seq<K>, entries: map<K, V>) {

    /** The key order lists exactly the stored keys, each once. */
    ghost predicate Valid() {
      Distinct(keys) && forall k :: k in keys <==> k in entries
    }

    /** `m.size`: the number of stored keys. */
    function Size(): (n: nat)
      requires Valid()
      ensures n == |entries|
    {
      DistinctCardinality(keys);
      assert entries.Keys == set k | k in keys;
      |keys|
    }

    /** `m.get(k)`: the stored value, or `undefined` for an absent key. */
    function Lookup(k: K): (r: Option<V>)
      ensures r.None? <==> k !in entries
      ensures r.Some? ==> r.value == entries[k]
      ensures Valid() ==> (r.Some? <==> k in keys)
    {
      if k in entries then Some(entries[k]) else None
    }

    /** `m.set(k, v)`: a new key goes to the end of the order, an existing one keeps its place. */
    function Put(k: K, v: V): (r: JsMap<K, V>)
      ensures Valid() ==> r.Valid()
      ensures r.entries == entries[k := v]
      ensures k in entries ==> r.keys == keys
      ensures k !in entries ==> r.keys == keys + [k]
    {
      if k in entries then JsMap(keys, entries[k := v]) else JsMap(keys + [k], entries[k := v])
    }

    /** Storing a key's own value again changes nothing. */
    lemma PutUnchanged(k: K, v: V)
      requires k in entries && entries[k] == v
      ensures Put(k, v) == this
    {
    }

    /** `m.delete(k)`: the key and its value are gone, the other keys keep their order. */
    function Remove(k: K): (r: JsMap<K, V>)
      ensures Valid() ==> r.Valid()
      ensures r.entries == entries - {k}
      ensures r.keys == SetDelete(keys, k)
      ensures forall j :: j in r.keys <==> j in keys && j != k
      ensures Valid() ==> |r.keys| == |keys| - (if k in entries then 1 else 0)
    {
      JsMap(SetDelete(keys, k), entries - {k})
    }

    /** Deleting an absent key changes nothing. */
    lemma RemoveUnchanged(k: K)
      requires Valid() && k !in entries
      ensures Remove(k) == this
    {
    }
  }

  /** `new Map()`, and the state `m.clear()` leaves. */
  function EmptyMap<K(!new), V>(): (r: JsMap<K, V>)
    ensures r.Valid() && r.Size() == 0
    ensures forall k :: r.Lookup(k).None?
  {
    JsMap([], map[])
  }
}
