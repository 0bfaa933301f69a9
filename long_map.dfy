/** `LongMapImpl<V>`: a hash map keyed by Java `long`, with a fixed array of
    collision chains that is never resized, and a running count of entries. */
module LongMap {
  import opened BucketIndex
  import opened Chain
  import opened Table

  /** The number of buckets of a map built without an explicit capacity. */
  const DEFAULT_CAPACITY: Int32 := 16

  class LongMapImpl<V(==)> {
    /** The number of buckets; fixed when the map is built. */
    const capacity: Int32
    /** One chain per bucket; an empty sequence is a null bucket head. */
    var table: array<seq<Entry<V>>>
    /** The entry counter that `put` and `remove` maintain. */
    var size: nat

    /** The object invariant: the table has `capacity` buckets, every entry is
        in the bucket of its key, no chain repeats a key, and the counter never
        falls below the number of entries.  The counter can exceed it, because
        `put` of a key found below a chain's head unlinks entries without
        adjusting the counter. */
    ghost predicate Valid()
      reads this, table
    {
      table.Length == capacity && WellFormed(table[..], capacity) && size >= |Entries(table[..])|
    }

    /** The counter equals the number of entries reachable from the table. */
    ghost predicate Counted()
      reads this, table
    {
      size == |Entries(table[..])|
    }

    /** `new LongMapImpl<>()`: sixteen empty buckets. */
    constructor ()
      ensures Valid() && Counted() && fresh(table)
      ensures capacity == DEFAULT_CAPACITY && size == 0
      ensures forall b :: 0 <= b < table.Length ==> table[b] == []
    {
      capacity := DEFAULT_CAPACITY;
      table := new seq<Entry<V>>[DEFAULT_CAPACITY](_ => []);
      size := 0;
      new;
      EmptyChains(table[..]);
    }

    /** `new LongMapImpl<>(capacity)`: `capacity` empty buckets. */
    constructor WithCapacity(capacity: Int32)
      requires capacity > 0
      ensures Valid() && Counted() && fresh(table)
      ensures this.capacity == capacity && size == 0
      ensures forall b :: 0 <= b < table.Length ==> table[b] == []
    {
      this.capacity := capacity;
      table := new seq<Entry<V>>[capacity](_ => []);
      size := 0;
      new;
      EmptyChains(table[..]);
    }

    /** `put(key, value)`: walks the key's chain and relinks it as `PutChain`
        describes; the counter is decremented on a match and incremented in
        every case.  Returns the value given. */
    method Put(key: Long, value: V) returns (r: V)
      requires Valid()
      modifies this, table
      ensures Valid() && table == old(table)
      ensures table[..] == TablePut(old(table[..]), capacity, key, value)
      ensures size == old(size) + (if Lookup(old(table[..]), capacity, key).Some? then 0 else 1)
      ensures r == value
    {
      var index := GetIndex(key, capacity);
      ghost var chains, bucket := table[..], table[index];
      ChainWithinEntries(chains, index);
      var newEntry := Entry(key, value);
      var chain := table[index];
      if chain == [] {
        table[index] := [newEntry];
      } else {
        var previous: Option<nat> := None;
        var current := 0;
        var matched := false;
        while current < |chain|
          invariant current <= |chain| && chain == bucket
          invariant previous == if current == 0 then None else Some(current - 1)
          invariant forall i :: 0 <= i < current ==> chain[i].key != key
          invariant !matched
        {
          if chain[current].key == key {
            chain := chain[current := chain[current].(value := value)];
            matched := true;
            break;
          }
          previous := Some(current);
          current := current + 1;
        }
        PutWalk(bucket, key, value, current);
        if previous.Some? {
          chain := chain[..previous.value + 1] + [newEntry];
        }
        assert chain == PutChain(bucket, key, value);
        table[index] := chain;
        if matched {
          size := size - 1;
        }
      }
      size := size + 1;
      r := value;
      FindAbsent(bucket, key);
      assert table[..] == TablePut(chains, capacity, key, value);
      PutTableValid(chains, capacity, key, value);
    }

    /** `get(key)`: the value of the first entry with `key` in the key's
        chain, or null.  Changes nothing. */
    method Get(key: Long) returns (r: Option<V>)
      requires Valid()
      ensures r == Lookup(table[..], capacity, key)
    {
      var index := GetIndex(key, capacity);
      var chain := table[index];
      var current := 0;
      while current < |chain|
        invariant current <= |chain|
        invariant forall i :: 0 <= i < current ==> chain[i].key != key
      {
        if chain[current].key == key {
          FirstMatchAt(chain, key, current);
          return Some(chain[current].value);
        }
        current := current + 1;
      }
      return None;
    }

    /** `remove(key)`: walks the key's chain and unlinks the first entry with
        `key` as `RemoveChain` describes, decrementing the counter; returns
        what `RemoveChain` returns, or null when the key is absent. */
    method Remove(key: Long) returns (r: Option<V>)
      requires Valid()
      modifies this, table
      ensures Valid() && table == old(table)
      ensures r == TableRemove(old(table[..]), capacity, key).0
      ensures table[..] == TableRemove(old(table[..]), capacity, key).1
      ensures r.Some? <==> Lookup(old(table[..]), capacity, key).Some?
      ensures size == old(size) - (if r.Some? then 1 else 0)
      ensures size - |Entries(table[..])| == old(size - |Entries(table[..])|)
      ensures Lookup(table[..], capacity, key).None?
      ensures forall k :: k != key ==> Lookup(table[..], capacity, k) == Lookup(old(table[..]), capacity, k)
    {
      var index := GetIndex(key, capacity);
      ghost var chains, bucket := table[..], table[index];
      ghost var removal := RemoveChain(bucket, key);
      ChainWithinEntries(chains, index);
      FindAbsent(bucket, key);
      var chain := table[index];
      var previous: Option<nat> := None;
      var current := 0;
      while current < |chain|
        invariant current <= |chain| && chain == bucket
        invariant previous == if current == 0 then None else Some(current - 1)
        invariant forall i :: 0 <= i < current ==> chain[i].key != key
        invariant table[..] == chains && size == old(size)
      {
        if chain[current].key == key {
          FirstMatchAt(chain, key, current);
          var removedValue;
          if previous.None? {
            removedValue := chain[current].value;
            table[index] := chain[current + 1..];
          } else {
            removedValue := chain[previous.value].value;
            table[index] := chain[..previous.value + 1] + chain[current + 1..];
          }
          size := size - 1;
          r := Some(removedValue);
          assert r == removal.returned;
          assert table[..] == chains[index := removal.rest];
          RemoveTableValid(chains, capacity, key);
          return;
        }
        previous := Some(current);
        current := current + 1;
      }
      r := None;
      assert table[..] == chains;
      RemoveTableValid(chains, capacity, key);
    }

    /** `isEmpty()`: the counter is zero.  Then the map lists no key; when the
        counter is exact, the converse holds too. */
    function IsEmpty(): (empty: bool)
      reads this, table
      requires Valid()
      ensures empty ==> Keys() == []
      ensures Counted() ==> (empty <==> Keys() == [])
    {
      size == 0
    }

    /** `size()`: the counter; never less than the number of listed keys, and
        equal to it when the counter is exact. */
    function Size(): (n: nat)
      reads this, table
      requires Valid()
      ensures n >= |Keys()|
      ensures Counted() ==> n == |Keys()|
    {
      size
    }

    /** `containsKey(key)`: some bucket's key list contains `key`; this is the
        case exactly when `keys()` lists it and when `get(key)` finds it. */
    function ContainsKey(key: Long): (found: bool)
      reads this, table
      requires Valid()
      ensures found <==> key in Keys()
      ensures found <==> Lookup(table[..], capacity, key).Some?
    {
      ContainsKeyInKeys(table[..], key);
      ContainsKeyAgreesWithLookup(table[..], capacity, key);
      ContainsKeyIn(table[..], key)
    }

    /** `containsValue(value)`: some bucket's value list contains `value`; this
        is the case exactly when `values()` lists it and when `get` maps some
        key to it. */
    function ContainsValue(value: V): (found: bool)
      reads this, table
      requires Valid()
      ensures found <==> value in Values()
      ensures found <==> exists k :: Lookup(table[..], capacity, k) == Some(value)
    {
      ContainsValueInValues(table[..], value);
      ContainsValueAgreesWithLookup(table[..], capacity, value);
      ContainsValueIn(table[..], value)
    }

    /** `keys()`: every entry's key, bucket by bucket; no key is listed twice,
        and there are no more keys than the counter says. */
    function Keys(): (keys: seq<Long>)
      reads this, table
      requires Valid()
      ensures |keys| <= size
      ensures Counted() ==> |keys| == size
      ensures forall i, j :: 0 <= i < j < |keys| ==> keys[i] != keys[j]
    {
      KeysValuesAligned(table[..]);
      KeysDistinct(table[..], capacity);
      AllKeys(table[..])
    }

    /** `values()`: every entry's value in the order of `keys()`, so that
        `get(keys()[i])` returns `values()[i]`. */
    function Values(): (values: seq<V>)
      reads this, table
      requires Valid()
      ensures |values| == |Keys()|
      ensures forall i :: 0 <= i < |values| ==> Lookup(table[..], capacity, Keys()[i]) == Some(values[i])
    {
      LookupOfListedKeys(table[..], capacity);
      AllValues(table[..])
    }

    /** `clear()`: a fresh table of empty buckets with the same capacity, and a
        zero counter. */
    method Clear()
      requires Valid()
      modifies this
      ensures Valid() && Counted() && fresh(table)
      ensures table.Length == capacity && size == 0
      ensures forall b :: 0 <= b < table.Length ==> table[b] == []
      ensures IsEmpty() && Keys() == []
    {
      table := new seq<Entry<V>>[capacity](_ => []);
      size := 0;
      EmptyChains(table[..]);
    }

    /** `getAllKeysFromCurrentCell`: the keys of one chain, collected along it. */
    method AllKeysFromCell(chain: seq<Entry<V>>) returns (keys: seq<Long>)
      ensures keys == ChainKeys(chain)
    {
      keys := [];
      var current := 0;
      while current < |chain|
        invariant current <= |chain| && |keys| == current
        invariant forall i :: 0 <= i < current ==> keys[i] == chain[i].key
      {
        keys := keys + [chain[current].key];
        current := current + 1;
      }
    }

    /** `getAllValuesFromCurrentSell`: the values of one chain, collected along it. */
    method AllValuesFromCell(chain: seq<Entry<V>>) returns (values: seq<V>)
      ensures values == ChainValues(chain)
    {
      values := [];
      var current := 0;
      while current < |chain|
        invariant current <= |chain| && |values| == current
        invariant forall i :: 0 <= i < current ==> values[i] == chain[i].value
      {
        values := values + [chain[current].value];
        current := current + 1;
      }
    }
  }
}
