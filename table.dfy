/** The bucket table as a whole: one chain per bucket, in index order.  The
    bulk reads of the map (`keys`, `values`, `containsKey`, `containsValue`)
    are stream pipelines over the table and are functions of it here. */
module Table {
  import opened BucketIndex
  import opened Chain

  /** Every chain sits in its bucket; `base` is the index of the first chain. */
  ghost predicate Placed<V>(chains: seq<seq<Entry<V>>>, capacity: Int32, base: int)
    requires capacity > 0
  {
    forall b :: 0 <= b < |chains| ==> ChainPlaced(chains[b], capacity, base + b)
  }

  /** No chain repeats a key. */
  ghost predicate EachUnique<V>(chains: seq<seq<Entry<V>>>)
  {
    forall b :: 0 <= b < |chains| ==> ChainUnique(chains[b])
  }

  /** The shape invariant of the table: one chain per bucket, every entry in the
      bucket of its key, and no key twice in a chain. */
  ghost predicate WellFormed<V>(chains: seq<seq<Entry<V>>>, capacity: Int32)
  {
    capacity > 0 && |chains| == capacity && Placed(chains, capacity, 0) && EachUnique(chains)
  }

  /** All entries, bucket by bucket in index order and along each chain. */
  function Entries<V>(chains: seq<seq<Entry<V>>>): seq<Entry<V>>
  {
    if chains == [] then [] else chains[0] + Entries(chains[1..])
  }

  /** `keys()`: the key lists of the cells, concatenated in bucket order. */
  function AllKeys<V>(chains: seq<seq<Entry<V>>>): seq<Long>
  {
    if chains == [] then [] else ChainKeys(chains[0]) + AllKeys(chains[1..])
  }

  /** `values()`: the value lists of the cells, concatenated in bucket order. */
  function AllValues<V>(chains: seq<seq<Entry<V>>>): seq<V>
  {
    if chains == [] then [] else ChainValues(chains[0]) + AllValues(chains[1..])
  }

  /** `containsKey(key)`: some cell's key list contains `key`. */
  predicate ContainsKeyIn<V>(chains: seq<seq<Entry<V>>>, key: Long)
  {
    exists b :: 0 <= b < |chains| && key in ChainKeys(chains[b])
  }

  /** `containsValue(value)`: some cell's value list contains `value`. */
  predicate ContainsValueIn<V(==)>(chains: seq<seq<Entry<V>>>, value: V)
  {
    exists b :: 0 <= b < |chains| && value in ChainValues(chains[b])
  }

  /** What `get(key)` returns: a lookup in the chain of the key's bucket. */
  function Lookup<V>(chains: seq<seq<Entry<V>>>, capacity: Int32, key: Long): Option<V>
    requires capacity > 0 && |chains| == capacity
  {
    Find(chains[GetIndex(key, capacity)], key)
  }

  /** A table of empty buckets has no entries. */
  lemma {:induction false} EmptyChains<V>(chains: seq<seq<Entry<V>>>)
    requires forall b :: 0 <= b < |chains| ==> chains[b] == []
    ensures Entries(chains) == [] && AllKeys(chains) == [] && AllValues(chains) == []
  {
    if chains != [] {
      EmptyChains(chains[1..]);
    }
  }

  /** An entry is listed exactly when some bucket's chain holds it. */
  lemma {:induction false} InEntries<V>(chains: seq<seq<Entry<V>>>, e: Entry<V>)
    ensures e in Entries(chains) <==> exists b :: 0 <= b < |chains| && e in chains[b]
  {
    if chains != [] {
      InEntries(chains[1..], e);
      if e in Entries(chains[1..]) {
        var b :| 0 <= b < |chains[1..]| && e in chains[1..][b];
        assert e in chains[b + 1];
      }
      if exists b :: 0 <= b < |chains| && e in chains[b] {
        var b :| 0 <= b < |chains| && e in chains[b];
        if b > 0 { assert e in chains[1..][b - 1]; }
      }
    }
  }

  /** A chain never holds more entries than the whole table. */
  lemma {:induction false} ChainWithinEntries<V>(chains: seq<seq<Entry<V>>>, b: int)
    requires 0 <= b < |chains|
    ensures |chains[b]| <= |Entries(chains)|
  {
    if b > 0 {
      ChainWithinEntries(chains[1..], b - 1);
    }
  }

  /** Replacing one chain changes the entry count by the difference in length. */
  lemma {:induction false} EntriesUpdate<V>(chains: seq<seq<Entry<V>>>, b: int, chain: seq<Entry<V>>)
    requires 0 <= b < |chains|
    ensures |Entries(chains[b := chain])| == |Entries(chains)| - |chains[b]| + |chain|
  {
    if b == 0 {
      assert chains[b := chain][1..] == chains[1..];
    } else {
      assert chains[b := chain][1..] == chains[1..][b - 1 := chain];
      EntriesUpdate(chains[1..], b - 1, chain);
    }
  }

  /** `keys()` and `values()` walk the same entries in the same order: both are
      as long as the table holds entries, and their `i`-th elements are the key
      and the value of the `i`-th entry. */
  lemma {:induction false} KeysValuesAligned<V>(chains: seq<seq<Entry<V>>>)
    ensures |AllKeys(chains)| == |AllValues(chains)| == |Entries(chains)|
    ensures forall i :: 0 <= i < |Entries(chains)| ==>
      AllKeys(chains)[i] == Entries(chains)[i].key && AllValues(chains)[i] == Entries(chains)[i].value
  {
    if chains != [] {
      KeysValuesAligned(chains[1..]);
      var n := |chains[0]|;
      forall i | 0 <= i < |Entries(chains)|
        ensures AllKeys(chains)[i] == Entries(chains)[i].key
        ensures AllValues(chains)[i] == Entries(chains)[i].value
      {
        if i >= n {
          assert AllKeys(chains)[i] == AllKeys(chains[1..])[i - n];
          assert AllValues(chains)[i] == AllValues(chains[1..])[i - n];
          assert Entries(chains)[i] == Entries(chains[1..])[i - n];
        }
      }
    }
  }

  /** `containsKey(key)` holds exactly when `key` is among `keys()`. */
  lemma {:induction false} ContainsKeyInKeys<V>(chains: seq<seq<Entry<V>>>, key: Long)
    ensures ContainsKeyIn(chains, key) <==> key in AllKeys(chains)
  {
    if chains != [] {
      ContainsKeyInKeys(chains[1..], key);
      if ContainsKeyIn(chains, key) {
        var b :| 0 <= b < |chains| && key in ChainKeys(chains[b]);
        if b > 0 { assert key in ChainKeys(chains[1..][b - 1]); }
      }
      if key in AllKeys(chains[1..]) {
        var b :| 0 <= b < |chains[1..]| && key in ChainKeys(chains[1..][b]);
        assert key in ChainKeys(chains[b + 1]);
      }
    }
  }

  /** `containsValue(value)` holds exactly when `value` is among `values()`. */
  lemma {:induction false} ContainsValueInValues<V>(chains: seq<seq<Entry<V>>>, value: V)
    ensures ContainsValueIn(chains, value) <==> value in AllValues(chains)
  {
    if chains != [] {
      ContainsValueInValues(chains[1..], value);
      if ContainsValueIn(chains, value) {
        var b :| 0 <= b < |chains| && value in ChainValues(chains[b]);
        if b > 0 { assert value in ChainValues(chains[1..][b - 1]); }
      }
      if value in AllValues(chains[1..]) {
        var b :| 0 <= b < |chains[1..]| && value in ChainValues(chains[1..][b]);
        assert value in ChainValues(chains[b + 1]);
      }
    }
  }

  /** In a well-formed table, `containsKey(key)` holds exactly when `get(key)`
      finds a value: a key can only be in the bucket it indexes. */
  lemma ContainsKeyAgreesWithLookup<V>(chains: seq<seq<Entry<V>>>, capacity: Int32, key: Long)
    requires WellFormed(chains, capacity)
    ensures ContainsKeyIn(chains, key) <==> Lookup(chains, capacity, key).Some?
  {
    var home := GetIndex(key, capacity);
    FindAbsent(chains[home], key);
    if ContainsKeyIn(chains, key) {
      var b :| 0 <= b < |chains| && key in ChainKeys(chains[b]);
      var i :| 0 <= i < |chains[b]| && ChainKeys(chains[b])[i] == key;
      assert chains[b][i] in chains[b];
    }
  }

  /** The keys a table lists all index buckets in `[base, base + |chains|)`. */
  lemma {:induction false} KeysInRange<V>(chains: seq<seq<Entry<V>>>, capacity: Int32, base: int, key: Long)
    requires capacity > 0 && Placed(chains, capacity, base)
    requires key in AllKeys(chains)
    ensures base <= GetIndex(key, capacity) < base + |chains|
  {
    ContainsKeyInKeys(chains, key);
    var b :| 0 <= b < |chains| && key in ChainKeys(chains[b]);
    var i :| 0 <= i < |chains[b]| && ChainKeys(chains[b])[i] == key;
    assert chains[b][i] in chains[b];
  }

  /** Listing chains placed in distinct buckets, each free of repeated keys,
      never lists a key twice. */
  lemma {:induction false} KeysDistinctFrom<V>(chains: seq<seq<Entry<V>>>, capacity: Int32, base: int)
    requires capacity > 0 && Placed(chains, capacity, base) && EachUnique(chains)
    ensures forall i, j :: 0 <= i < j < |AllKeys(chains)| ==> AllKeys(chains)[i] != AllKeys(chains)[j]
  {
    if chains != [] {
      var head, tail := ChainKeys(chains[0]), AllKeys(chains[1..]);
      assert Placed(chains[1..], capacity, base + 1) by {
        forall b | 0 <= b < |chains[1..]|
          ensures ChainPlaced(chains[1..][b], capacity, base + 1 + b)
        {
          assert chains[1..][b] == chains[b + 1];
        }
      }
      KeysDistinctFrom(chains[1..], capacity, base + 1);
      assert ChainUnique(chains[0]);
      forall i, j | 0 <= i < j < |head + tail|
        ensures (head + tail)[i] != (head + tail)[j]
      {
        if i < |head| && j >= |head| {
          assert chains[0][i] in chains[0];
          assert tail[j - |head|] in tail;
          KeysInRange(chains[1..], capacity, base + 1, tail[j - |head|]);
        } else if j >= |head| {
          assert (head + tail)[i] == tail[i - |head|];
        }
      }
    }
  }

  /** In a well-formed table `keys()` lists no key twice. */
  lemma KeysDistinct<V>(chains: seq<seq<Entry<V>>>, capacity: Int32)
    requires WellFormed(chains, capacity)
    ensures forall i, j :: 0 <= i < j < |AllKeys(chains)| ==> AllKeys(chains)[i] != AllKeys(chains)[j]
  {
    KeysDistinctFrom(chains, capacity, 0);
  }

  /** In a well-formed table `get(keys()[i]) == values()[i]` for every `i`. */
  lemma LookupOfListedKeys<V>(chains: seq<seq<Entry<V>>>, capacity: Int32)
    requires WellFormed(chains, capacity)
    ensures |AllKeys(chains)| == |AllValues(chains)|
    ensures forall i :: 0 <= i < |AllKeys(chains)| ==>
      Lookup(chains, capacity, AllKeys(chains)[i]) == Some(AllValues(chains)[i])
  {
    KeysValuesAligned(chains);
    forall i | 0 <= i < |AllKeys(chains)|
      ensures Lookup(chains, capacity, AllKeys(chains)[i]) == Some(AllValues(chains)[i])
    {
      var e := Entries(chains)[i];
      InEntries(chains, e);
      var b :| 0 <= b < |chains| && e in chains[b];
      FindInUnique(chains[b], e.key, e.value);
    }
  }

  /** `containsValue(value)` holds in a well-formed table exactly when some key
      is mapped to `value` by `get`. */
  lemma ContainsValueAgreesWithLookup<V>(chains: seq<seq<Entry<V>>>, capacity: Int32, value: V)
    requires WellFormed(chains, capacity)
    ensures ContainsValueIn(chains, value) <==> exists k :: Lookup(chains, capacity, k) == Some(value)
  {
    ContainsValueInValues(chains, value);
    LookupOfListedKeys(chains, capacity);
    KeysValuesAligned(chains);
    if value in AllValues(chains) {
      var i :| 0 <= i < |AllValues(chains)| && AllValues(chains)[i] == value;
      assert Lookup(chains, capacity, AllKeys(chains)[i]) == Some(value);
    }
    if exists k :: Lookup(chains, capacity, k) == Some(value) {
      var k :| Lookup(chains, capacity, k) == Some(value);
      var home := GetIndex(k, capacity);
      FindInUnique(chains[home], k, value);
      InEntries(chains, Entry(k, value));
      var i :| 0 <= i < |Entries(chains)| && Entries(chains)[i] == Entry(k, value);
      assert AllValues(chains)[i] == value;
    }
  }

  /** The table after `put(key, value)`: only the key's bucket changes. */
  function TablePut<V>(chains: seq<seq<Entry<V>>>, capacity: Int32, key: Long, value: V): seq<seq<Entry<V>>>
    requires capacity > 0 && |chains| == capacity
  {
    var home := GetIndex(key, capacity);
    chains[home := PutChain(chains[home], key, value)]
  }

  /** The result of `remove(key)` on the table: only the key's bucket changes. */
  function TableRemove<V>(chains: seq<seq<Entry<V>>>, capacity: Int32, key: Long): (Option<V>, seq<seq<Entry<V>>>)
    requires capacity > 0 && |chains| == capacity
  {
    var home := GetIndex(key, capacity);
    var removal := RemoveChain(chains[home], key);
    (removal.returned, chains[home := removal.rest])
  }

  /** Replacing one bucket's chain by a chain placed in that bucket and free of
      repeated keys keeps the table well formed. */
  lemma UpdateWellFormed<V>(chains: seq<seq<Entry<V>>>, capacity: Int32, b: int, chain: seq<Entry<V>>)
    requires WellFormed(chains, capacity) && 0 <= b < |chains|
    requires ChainPlaced(chain, capacity, b) && ChainUnique(chain)
    ensures WellFormed(chains[b := chain], capacity)
  {
  }

  /** `put` keeps the table well formed, a following `get(key)` returns the
      value put, and the number of entries grows by one for a new key and
      shrinks by the entries `put` unlinks. */
  lemma PutTableValid<V>(chains: seq<seq<Entry<V>>>, capacity: Int32, key: Long, value: V)
    requires WellFormed(chains, capacity)
    ensures WellFormed(TablePut(chains, capacity, key, value), capacity)
    ensures Lookup(TablePut(chains, capacity, key, value), capacity, key) == Some(value)
    ensures |Entries(TablePut(chains, capacity, key, value))| + Dropped(chains[GetIndex(key, capacity)], key)
         == |Entries(chains)| + (if Lookup(chains, capacity, key).Some? then 0 else 1)
  {
    var home := GetIndex(key, capacity);
    var chain := chains[home];
    var put := PutChain(chain, key, value);
    PutChainValid(chain, key, value, capacity, home);
    UpdateWellFormed(chains, capacity, home, put);
    EntriesUpdate(chains, home, put);
    FindAbsent(chain, key);
  }

  /** When `put` unlinks no entry, `get` of every other key is unchanged. */
  lemma PutTableKeepsOthers<V>(chains: seq<seq<Entry<V>>>, capacity: Int32, key: Long, value: V)
    requires capacity > 0 && |chains| == capacity
    requires Dropped(chains[GetIndex(key, capacity)], key) == 0
    ensures forall k :: k != key ==> Lookup(TablePut(chains, capacity, key, value), capacity, k) == Lookup(chains, capacity, k)
  {
    PutKeepsOthers(chains[GetIndex(key, capacity)], key, value);
  }

  /** `remove` keeps the table well formed; afterwards `get(key)` is null and
      `get` of every other key is unchanged; it returns a value, and removes
      one entry, exactly when the key was present. */
  lemma RemoveTableValid<V>(chains: seq<seq<Entry<V>>>, capacity: Int32, key: Long)
    requires WellFormed(chains, capacity)
    ensures WellFormed(TableRemove(chains, capacity, key).1, capacity)
    ensures TableRemove(chains, capacity, key).0.Some? <==> Lookup(chains, capacity, key).Some?
    ensures |Entries(TableRemove(chains, capacity, key).1)|
         == |Entries(chains)| - (if Lookup(chains, capacity, key).Some? then 1 else 0)
    ensures Lookup(TableRemove(chains, capacity, key).1, capacity, key).None?
    ensures forall k :: k != key ==> Lookup(TableRemove(chains, capacity, key).1, capacity, k) == Lookup(chains, capacity, k)
  {
    var home := GetIndex(key, capacity);
    var chain := chains[home];
    RemoveChainValid(chain, key, capacity, home);
    EntriesUpdate(chains, home, RemoveChain(chain, key).rest);
    FindAbsent(chain, key);
    match FirstMatch(chain, key)
    case None =>
      RemoveAbsent(chain, key);
    case Some(j) =>
      RemovePresent(chain, key, j);
  }
}
