/**
  The `Multimap` utility: a table from keys to sets of values. Its one field
  stands for `_map`, a JS `Map` from each key to a JS `Set` of its values.
  The table never keeps a key whose set is empty: `Set` creates a key's set
  only when it is about to add to it, and `Delete` drops the key as soon as
  its set runs empty.
 */
module Multimaps {
  import opened JsCollections

  /** The values of `keys`, set by set, in the order of `keys` (what `valuesArray` builds). */
  function Concat<K, V>(sets: map<K, seq<V>>, keys: seq<K>): seq<V>
    requires forall k :: k in keys ==> k in sets
  {
    if keys == [] then [] else Concat(sets, keys[..|keys| - 1]) + sets[keys[|keys| - 1]]
  }

  /** The sum of the sizes of the sets of `keys`. */
  function SumSizes<K, V>(sets: map<K, seq<V>>, keys: seq<K>): nat
    requires forall k :: k in keys ==> k in sets
  {
    if keys == [] then 0 else SumSizes(sets, keys[..|keys| - 1]) + |sets[keys[|keys| - 1]]|
  }

  /** How many of `keys` hold `v` in their set. */
  function Holders<K, V(==)>(sets: map<K, seq<V>>, keys: seq<K>, v: V): nat
    requires forall k :: k in keys ==> k in sets
  {
    if keys == [] then 0
    else Holders(sets, keys[..|keys| - 1], v) + (if v in sets[keys[|keys| - 1]] then 1 else 0)
  }

  /** The listing of all values is as long as all sets together. */
  lemma {:induction false} ConcatLength<K, V>(sets: map<K, seq<V>>, keys: seq<K>)
    requires forall k :: k in keys ==> k in sets
    ensures |Concat(sets, keys)| == SumSizes(sets, keys)
  {
    if keys != [] {
      ConcatLength(sets, keys[..|keys| - 1]);
    }
  }

  /** When no set repeats a value, the listing holds each value once per key that holds it. */
  lemma {:induction false} ConcatMultiplicity<K, V>(sets: map<K, seq<V>>, keys: seq<K>, v: V)
    requires forall k :: k in keys ==> k in sets && Distinct(sets[k])
    ensures multiset(Concat(sets, keys))[v] == Holders(sets, keys, v)
  {
    if keys != [] {
      var last := keys[|keys| - 1];
      ConcatMultiplicity(sets, keys[..|keys| - 1], v);
      DistinctMultiplicity(sets[last], v);
      assert multiset(Concat(sets, keys)) == multiset(Concat(sets, keys[..|keys| - 1])) + multiset(sets[last]);
    }
  }

  /** When no set is empty, the listing has at least one value per key. */
  lemma {:induction false} SumSizesAtLeastKeys<K, V>(sets: map<K, seq<V>>, keys: seq<K>)
    requires forall k :: k in keys ==> k in sets && sets[k] != []
    ensures SumSizes(sets, keys) >= |keys|
  {
    if keys != [] {
      SumSizesAtLeastKeys(sets, keys[..|keys| - 1]);
    }
  }

  class Multimap<K(==,!new), V(==,!new)> {
    /** `_map`: each key's set of values, keys and values both in insertion order. */
    var table: JsMap<K, seq<V>>

    /** No stored set is empty. */
    ghost predicate NoEmptySet()
      reads this
    {
      forall k :: k in table.entries ==> table.entries[k] != []
    }

    /** The JS collections are well formed, and the table keeps no empty set. */
    ghost predicate Valid()
      reads this
    {
      && table.Valid()
      && (forall k :: k in table.entries ==> Distinct(table.entries[k]))
      && NoEmptySet()
    }

    /** The keys that hold at least one value. */
    ghost function HoldingKeys(): set<K>
      reads this
    {
      set k | k in table.entries && table.entries[k] != []
    }

    constructor ()
      ensures Valid()
      ensures Size() == 0
      ensures forall k :: !Has(k)
    {
      table := EmptyMap();
    }

    /** `set(key, value)`. */
    method Set(key: K, value: V)
      requires Valid()
      modifies this
      ensures Valid()
      ensures Has(key) && HasValue(key, value)
      ensures Get(key) == SetAdd(old(Get(key)), value)
      ensures forall k :: k != key ==> Get(k) == old(Get(k))
      ensures table.keys == if old(Has(key)) then old(table.keys) else old(table.keys) + [key]
      ensures Size() == old(Size()) + (if old(Has(key)) then 0 else 1)
      ensures old(HasValue(key, value)) ==> table == old(table)
    {
      var found := table.Lookup(key);
      var values: seq<V>;
      if found.None? {
        values := [];
        table := table.Put(key, values);
      } else {
        values := found.value;
        if value in values {
          table.PutUnchanged(key, values);
        }
      }
      // `values` is the set stored under `key`, so adding to it updates the table
      table := table.Put(key, SetAdd(values, value));
    }

    /** `get(key)`: the key's set, or a new empty set for an absent key (which stays absent). */
    function Get(key: K): (r: seq<V>)
      reads this
      requires Valid()
      ensures Distinct(r)
      ensures r == [] <==> key !in table.keys
      ensures key in table.entries ==> r == table.entries[key]
    {
      match table.Lookup(key)
      case Some(values) => values
      case None => []
    }

    /** `has(key)`. */
    function Has(key: K): (r: bool)
      reads this
      requires Valid()
      ensures r <==> key in table.keys
      ensures r <==> key in HoldingKeys()
    {
      key in table.entries
    }

    /** `hasValue(key, value)`: false for an absent key, else membership in the key's set. */
    function HasValue(key: K, value: V): (r: bool)
      reads this
      requires Valid()
      ensures !Has(key) ==> !r
      ensures r <==> value in Get(key)
    {
      match table.Lookup(key)
      case None => false
      case Some(values) => value in values
    }

    /** `size`: the number of keys, which is the number of keys holding at least one value. */
    function Size(): (n: nat)
      reads this
      requires Valid()
      ensures n == |HoldingKeys()|
      ensures n == |table.keys|
    {
      assert HoldingKeys() == table.entries.Keys;
      table.Size()
    }

    /** `delete(key, value)`: reports whether `value` was in the key's set. */
    method Delete(key: K, value: V) returns (removed: bool)
      requires Valid()
      modifies this
      ensures Valid()
      ensures removed == old(HasValue(key, value))
      ensures !HasValue(key, value)
      ensures Get(key) == SetDelete(old(Get(key)), value)
      ensures forall k :: k != key ==> Get(k) == old(Get(k))
      ensures table.keys == if Has(key) then old(table.keys) else SetDelete(old(table.keys), key)
      ensures Size() == old(Size()) - (if old(Has(key)) && !Has(key) then 1 else 0)
      ensures removed <==> table != old(table)
    {
      var values := Get(key);
      removed := value in values;
      values := SetDelete(values, value);
      var t := table;
      if key in t.entries {
        // for a present key `values` is the stored set, so deleting from it updates the table
        if !removed {
          t.PutUnchanged(key, values);
        }
        t := t.Put(key, values);
        if |values| == 0 {
          t := t.Remove(key);
        }
      } else {
        // `values` is the fresh empty set made by `get`, and `_map.delete(key)` finds nothing
        t.RemoveUnchanged(key);
        t := t.Remove(key);
      }
      assert removed ==> key !in t.entries || t.entries[key] != table.entries[key];
      table := t;
    }

    /** `deleteAll(key)`. */
    method DeleteAll(key: K)
      requires Valid()
      modifies this
      ensures Valid()
      ensures !Has(key)
      ensures forall k :: k != key ==> Get(k) == old(Get(k))
      ensures table.keys == SetDelete(old(table.keys), key)
      ensures Size() == old(Size()) - (if old(Has(key)) then 1 else 0)
      ensures !old(Has(key)) ==> table == old(table)
    {
      if key !in table.entries {
        table.RemoveUnchanged(key);
      }
      table := table.Remove(key);
    }

    /** `keysArray()`: every key once, in insertion order. */
    function KeysArray(): (r: seq<K>)
      reads this
      requires Valid()
      ensures r == table.keys
      ensures Distinct(r) && |r| == Size()
      ensures forall k :: k in r <==> Has(k)
    {
      table.keys
    }

    /** `valuesArray()`: the keys' sets one after the other, in key order. */
    method ValuesArray() returns (result: seq<V>)
      requires Valid()
      ensures result == Concat(table.entries, KeysArray())
      ensures |result| == SumSizes(table.entries, KeysArray()) >= Size()
      ensures forall v :: multiset(result)[v] == Holders(table.entries, KeysArray(), v)
    {
      result := [];
      var keys := KeysArray();
      for i := 0 to |keys|
        invariant result == Concat(table.entries, keys[..i])
      {
        assert keys[..i + 1][..i] == keys[..i];
        result := result + Get(keys[i]);
      }
      assert keys[..|keys|] == keys;
      ConcatLength(table.entries, keys);
      SumSizesAtLeastKeys(table.entries, keys);
      forall v ensures multiset(result)[v] == Holders(table.entries, keys, v) {
        ConcatMultiplicity(table.entries, keys, v);
      }
    }

    /** `clear()`. */
    method Clear()
      requires Valid()
      modifies this
      ensures Valid()
      ensures Size() == 0
      ensures forall k :: !Has(k)
    {
      table := EmptyMap();
    }
  }
}
