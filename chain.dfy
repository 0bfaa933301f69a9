/** One collision chain of the map: the entries reachable from one bucket head,
    head first.  A chain is a sequence of entries; the `next` link of an entry
    is its successor in the sequence and the tail's link is null.  The walks of
    `put`, `get` and `remove` are specified here as functions of the chain. */
module Chain {
  import opened BucketIndex

  /** Java's nullable result: `None` stands for `null`. */
  datatype Option<T> = None | Some(value: T)

  /** An entry of a chain: its key and its value. */
  datatype Entry<V> = Entry(key: Long, value: V)

  /** What `remove` hands back and the chain it leaves behind. */
  datatype Removal<V> = Removal(returned: Option<V>, rest: seq<Entry<V>>)

  /** The keys of a chain, head first (the list `getAllKeysFromCurrentCell` builds). */
  function ChainKeys<V>(chain: seq<Entry<V>>): seq<Long>
  {
    seq(|chain|, i requires 0 <= i < |chain| => chain[i].key)
  }

  /** The values of a chain, head first (the list `getAllValuesFromCurrentSell` builds). */
  function ChainValues<V>(chain: seq<Entry<V>>): seq<V>
  {
    seq(|chain|, i requires 0 <= i < |chain| => chain[i].value)
  }

  /** No key occurs twice in the chain. */
  ghost predicate ChainUnique<V>(chain: seq<Entry<V>>)
  {
    forall i, j :: 0 <= i < j < |chain| ==> chain[i].key != chain[j].key
  }

  /** Every entry of the chain sits in the bucket its key indexes. */
  ghost predicate ChainPlaced<V>(chain: seq<Entry<V>>, capacity: Int32, bucket: int)
    requires capacity > 0
  {
    forall e :: e in chain ==> GetIndex(e.key, capacity) == bucket
  }

  /** The position at which a walk from the head first meets `key`, if it does. */
  function FirstMatch<V>(chain: seq<Entry<V>>, key: Long): (r: Option<nat>)
    ensures r.Some? ==> r.value < |chain| && chain[r.value].key == key
    ensures r.Some? ==> forall i :: 0 <= i < r.value ==> chain[i].key != key
    ensures r.None? ==> forall i :: 0 <= i < |chain| ==> chain[i].key != key
  {
    if chain == [] then None
    else if chain[0].key == key then Some(0)
    else match FirstMatch(chain[1..], key)
      case None => None
      case Some(j) => Some(j + 1)
  }

  /** The result of `get` on one chain: the value of the first entry with `key`. */
  function Find<V>(chain: seq<Entry<V>>, key: Long): Option<V>
  {
    match FirstMatch(chain, key)
    case None => None
    case Some(j) => Some(chain[j].value)
  }

  /** The chain after `put(key, value)` as the source codes it.  An empty bucket
      gets a new head.  With no match the walk ends on the tail, which is linked
      to the new entry.  A match at the head has its value overwritten.  A match
      further down stops the walk with the previous node pointing at the match;
      that node is then linked to the fresh entry, which has no successor, so
      the match and every entry after it give way to that one entry. */
  function PutChain<V>(chain: seq<Entry<V>>, key: Long, value: V): seq<Entry<V>>
  {
    if chain == [] then [Entry(key, value)]
    else match FirstMatch(chain, key)
      case None => chain + [Entry(key, value)]
      case Some(j) =>
        if j == 0 then chain[0 := chain[0].(value := value)]
        else chain[..j] + [Entry(key, value)]
  }

  /** How many entries `put` unlinks: those after a match that is not the head. */
  function Dropped<V>(chain: seq<Entry<V>>, key: Long): nat
  {
    match FirstMatch(chain, key)
    case None => 0
    case Some(j) => if j == 0 then 0 else |chain| - j - 1
  }

  /** The result of `remove(key)` on one chain as the source codes it.  A head
      match makes its successor the head and returns its own value; a match
      further down is unlinked from its predecessor, but the value returned is
      the predecessor's. */
  function RemoveChain<V>(chain: seq<Entry<V>>, key: Long): Removal<V>
  {
    match FirstMatch(chain, key)
    case None => Removal(None, chain)
    case Some(j) =>
      if j == 0 then Removal(Some(chain[0].value), chain[1..])
      else Removal(Some(chain[j - 1].value), chain[..j] + chain[j + 1..])
  }

  /** The first match is determined by the keys alone: an entry with `key`
      preceded by none is it. */
  lemma FirstMatchAt<V>(chain: seq<Entry<V>>, key: Long, j: nat)
    requires j < |chain| && chain[j].key == key
    requires forall i :: 0 <= i < j ==> chain[i].key != key
    ensures FirstMatch(chain, key) == Some(j)
  {
    match FirstMatch(chain, key)
    case None =>
    case Some(m) =>
      assert !(m < j) && !(j < m);
  }

  /** In a chain without repeated keys, `get` finds exactly the stored pairs. */
  lemma FindInUnique<V>(chain: seq<Entry<V>>, key: Long, value: V)
    requires ChainUnique(chain)
    ensures Find(chain, key) == Some(value) <==> Entry(key, value) in chain
  {
    if Entry(key, value) in chain {
      var i :| 0 <= i < |chain| && chain[i] == Entry(key, value);
      FirstMatchAt(chain, key, i);
    }
  }

  /** `get` on a chain fails exactly when no entry has the key. */
  lemma FindAbsent<V>(chain: seq<Entry<V>>, key: Long)
    ensures Find(chain, key).None? <==> key !in ChainKeys(chain)
  {
    match FirstMatch(chain, key)
    case None =>
      if key in ChainKeys(chain) {
        var i :| 0 <= i < |chain| && ChainKeys(chain)[i] == key;
        assert chain[i].key == key;
      }
    case Some(j) =>
      assert ChainKeys(chain)[j] == key;
  }

  /** Two chains that agree up to and including the first match of `k` in
      either give the same `get` result for `k`. */
  lemma FindSamePrefix<V>(a: seq<Entry<V>>, b: seq<Entry<V>>, k: Long, n: nat)
    requires n <= |a| && n <= |b| && a[..n] == b[..n]
    requires forall i :: n <= i < |a| ==> a[i].key != k
    requires forall i :: n <= i < |b| ==> b[i].key != k
    ensures Find(a, k) == Find(b, k)
  {
    forall i | 0 <= i < n ensures a[i] == b[i] {
      assert a[i] == a[..n][i];
    }
    match FirstMatch(a, k)
    case None =>
    case Some(j) =>
      FirstMatchAt(b, k, j);
  }

  /** `put` of a key absent from its chain makes a new head of an empty bucket
      or links the new entry after the tail, counts one more entry, and leaves
      the result of `get` for every other key unchanged. */
  lemma PutAbsent<V>(chain: seq<Entry<V>>, key: Long, value: V)
    requires key !in ChainKeys(chain)
    ensures PutChain(chain, key, value) == chain + [Entry(key, value)]
    ensures Dropped(chain, key) == 0
    ensures Find(PutChain(chain, key, value), key) == Some(value)
    ensures forall k :: k != key ==> Find(PutChain(chain, key, value), k) == Find(chain, k)
  {
    FindAbsent(chain, key);
    var after := chain + [Entry(key, value)];
    FirstMatchAt(after, key, |chain|);
    forall k | k != key
      ensures Find(after, k) == Find(chain, k)
    {
      assert after[..|chain|] == chain[..|chain|];
      FindSamePrefix(after, chain, k, |chain|);
    }
  }

  /** `put` of the key at the head of its chain overwrites the head's value in
      place: the keys and the length of the chain do not change, a following
      `get` returns the new value, and every other key keeps its value. */
  lemma PutHead<V>(chain: seq<Entry<V>>, key: Long, value: V)
    requires chain != [] && chain[0].key == key
    ensures PutChain(chain, key, value) == chain[0 := Entry(key, value)]
    ensures ChainKeys(PutChain(chain, key, value)) == ChainKeys(chain)
    ensures Dropped(chain, key) == 0
    ensures Find(PutChain(chain, key, value), key) == Some(value)
    ensures forall k :: k != key ==> Find(PutChain(chain, key, value), k) == Find(chain, k)
  {
    FirstMatchAt(chain, key, 0);
    var after := chain[0 := Entry(key, value)];
    FirstMatchAt(after, key, 0);
    forall k | k != key
      ensures Find(after, k) == Find(chain, k)
    {
      match FirstMatch(chain, k)
      case None =>
      case Some(j) => FirstMatchAt(after, k, j);
    }
  }

  /** `put` of a key matched below the head replaces the match and all its
      successors by one fresh entry: the chain shrinks to `j + 1` entries, a
      following `get` of the key returns the new value, and every key that
      followed the match can no longer be found. */
  lemma PutNonHead<V>(chain: seq<Entry<V>>, key: Long, value: V, j: nat)
    requires FirstMatch(chain, key) == Some(j) && j > 0
    ensures PutChain(chain, key, value) == chain[..j] + [Entry(key, value)]
    ensures Dropped(chain, key) == |chain| - j - 1
    ensures Find(PutChain(chain, key, value), key) == Some(value)
    ensures ChainUnique(chain) ==>
      forall i :: j < i < |chain| ==>
        Find(chain, chain[i].key) == Some(chain[i].value) && Find(PutChain(chain, key, value), chain[i].key) == None
  {
    var after := chain[..j] + [Entry(key, value)];
    FirstMatchAt(after, key, j);
    if ChainUnique(chain) {
      forall i | j < i < |chain|
        ensures Find(chain, chain[i].key) == Some(chain[i].value)
        ensures Find(after, chain[i].key) == None
      {
        FindInUnique(chain, chain[i].key, chain[i].value);
        FindAbsent(after, chain[i].key);
      }
    }
  }

  /** The update `put` evidently intends: the entry with the key keeps its
      place and takes the new value, or an entry for a new key is linked after
      the tail (or becomes the head of an empty bucket). */
  function IntendedPutChain<V>(chain: seq<Entry<V>>, key: Long, value: V): seq<Entry<V>>
  {
    match FirstMatch(chain, key)
    case None => chain + [Entry(key, value)]
    case Some(j) => chain[j := Entry(key, value)]
  }

  /** The intended `put` is a map update: a following `get` of the key returns
      the new value, `get` of every other key is unchanged, the key list gains
      the key only when it is new, and no key is repeated. */
  lemma IntendedPutIsUpdate<V>(chain: seq<Entry<V>>, key: Long, value: V)
    ensures Find(IntendedPutChain(chain, key, value), key) == Some(value)
    ensures forall k :: k != key ==> Find(IntendedPutChain(chain, key, value), k) == Find(chain, k)
    ensures ChainKeys(IntendedPutChain(chain, key, value))
         == if key in ChainKeys(chain) then ChainKeys(chain) else ChainKeys(chain) + [key]
    ensures ChainUnique(chain) ==> ChainUnique(IntendedPutChain(chain, key, value))
  {
    var after := IntendedPutChain(chain, key, value);
    FindAbsent(chain, key);
    match FirstMatch(chain, key)
    case None =>
      PutAbsent(chain, key, value);
      assert ChainKeys(after) == ChainKeys(chain) + [key];
    case Some(j) =>
      FirstMatchAt(after, key, j);
      forall k | k != key
        ensures Find(after, k) == Find(chain, k)
      {
        match FirstMatch(chain, k)
        case None =>
        case Some(m) => FirstMatchAt(after, k, m);
      }
      assert ChainKeys(after) == ChainKeys(chain);
  }

  /** The source's `put` performs the intended update exactly when it unlinks
      nothing, that is unless the key is matched strictly between the head and
      the tail. */
  lemma PutIsIntendedUnlessDropped<V>(chain: seq<Entry<V>>, key: Long, value: V)
    ensures Dropped(chain, key) == 0 <==> PutChain(chain, key, value) == IntendedPutChain(chain, key, value)
  {
    match FirstMatch(chain, key)
    case None =>
    case Some(j) =>
      if j > 0 && j == |chain| - 1 {
        assert chain[..j] + [Entry(key, value)] == chain[j := Entry(key, value)];
      } else if j > 0 {
        assert |PutChain(chain, key, value)| < |IntendedPutChain(chain, key, value)|;
      }
  }

  /** When `put` unlinks nothing (a new key, a match at the head, or a match
      at the tail), `get` of every other key is unchanged. */
  lemma PutKeepsOthers<V>(chain: seq<Entry<V>>, key: Long, value: V)
    requires Dropped(chain, key) == 0
    ensures forall k :: k != key ==> Find(PutChain(chain, key, value), k) == Find(chain, k)
  {
    PutIsIntendedUnlessDropped(chain, key, value);
    IntendedPutIsUpdate(chain, key, value);
  }

  /** The walk of `put` along a non-empty chain stops at the first entry with
      the key, or after the tail when there is none; where it stops decides
      which of the three relinkings `PutChain` performs. */
  lemma PutWalk<V>(chain: seq<Entry<V>>, key: Long, value: V, stop: nat)
    requires chain != [] && stop <= |chain|
    requires forall i :: 0 <= i < stop ==> chain[i].key != key
    requires stop < |chain| ==> chain[stop].key == key
    ensures stop == |chain| <==> key !in ChainKeys(chain)
    ensures stop == |chain| ==> PutChain(chain, key, value) == chain + [Entry(key, value)]
    ensures stop == 0 ==> PutChain(chain, key, value) == chain[0 := Entry(key, value)]
    ensures 0 < stop < |chain| ==> PutChain(chain, key, value) == chain[..stop] + [Entry(key, value)]
  {
    if stop < |chain| {
      FirstMatchAt(chain, key, stop);
      FindAbsent(chain, key);
    } else {
      forall i | 0 <= i < |chain| ensures ChainKeys(chain)[i] != key { }
      PutAbsent(chain, key, value);
    }
  }

  /** A chain whose keys are a prefix of a well-shaped chain's keys, position
      by position, is in the same bucket and free of repeated keys too. */
  lemma KeyPrefixKeepsShape<V>(chain: seq<Entry<V>>, after: seq<Entry<V>>, capacity: Int32, bucket: int)
    requires capacity > 0 && |after| <= |chain|
    requires forall i :: 0 <= i < |after| ==> after[i].key == chain[i].key
    requires ChainUnique(chain) && ChainPlaced(chain, capacity, bucket)
    ensures ChainUnique(after) && ChainPlaced(after, capacity, bucket)
  {
    forall e | e in after ensures GetIndex(e.key, capacity) == bucket {
      var i :| 0 <= i < |after| && after[i] == e;
      assert chain[i] in chain;
    }
  }

  /** Linking an entry for a new key of the bucket after the tail keeps the
      chain in its bucket and free of repeated keys. */
  lemma AppendKeepsShape<V>(chain: seq<Entry<V>>, key: Long, value: V, capacity: Int32, bucket: int)
    requires capacity > 0 && GetIndex(key, capacity) == bucket && key !in ChainKeys(chain)
    requires ChainUnique(chain) && ChainPlaced(chain, capacity, bucket)
    ensures ChainUnique(chain + [Entry(key, value)]) && ChainPlaced(chain + [Entry(key, value)], capacity, bucket)
  {
    var after := chain + [Entry(key, value)];
    forall i | 0 <= i < |chain| ensures after[i].key != key {
      assert after[i].key == ChainKeys(chain)[i];
    }
  }

  /** In every case `put` keeps the chain in its bucket and free of repeated
      keys, a following `get` returns the value just put, and the chain grows by
      one entry for a new key and loses the `Dropped` entries otherwise. */
  lemma PutChainValid<V>(chain: seq<Entry<V>>, key: Long, value: V, capacity: Int32, bucket: int)
    requires capacity > 0 && GetIndex(key, capacity) == bucket
    requires ChainUnique(chain) && ChainPlaced(chain, capacity, bucket)
    ensures ChainUnique(PutChain(chain, key, value))
    ensures ChainPlaced(PutChain(chain, key, value), capacity, bucket)
    ensures Find(PutChain(chain, key, value), key) == Some(value)
    ensures |PutChain(chain, key, value)| + Dropped(chain, key)
         == |chain| + (if key in ChainKeys(chain) then 0 else 1)
  {
    FindAbsent(chain, key);
    match FirstMatch(chain, key)
    case None =>
      PutAbsent(chain, key, value);
      AppendKeepsShape(chain, key, value, capacity, bucket);
    case Some(j) =>
      if j == 0 {
        PutHead(chain, key, value);
        KeyPrefixKeepsShape(chain, chain[0 := Entry(key, value)], capacity, bucket);
      } else {
        PutNonHead(chain, key, value, j);
        KeyPrefixKeepsShape(chain, chain[..j] + [Entry(key, value)], capacity, bucket);
      }
  }

  /** `remove` of a key absent from its chain returns null and changes nothing. */
  lemma RemoveAbsent<V>(chain: seq<Entry<V>>, key: Long)
    requires key !in ChainKeys(chain)
    ensures RemoveChain(chain, key) == Removal(None, chain)
  {
    FindAbsent(chain, key);
  }

  /** `remove` of a present key unlinks exactly that entry (from the head, or by
      linking its predecessor to its successor), after which `get` of the key
      fails and every other key keeps its value.  It returns the removed value
      only when the match is the head; otherwise it returns the predecessor's. */
  lemma RemovePresent<V>(chain: seq<Entry<V>>, key: Long, j: nat)
    requires ChainUnique(chain) && FirstMatch(chain, key) == Some(j)
    ensures RemoveChain(chain, key).rest == chain[..j] + chain[j + 1..]
    ensures |RemoveChain(chain, key).rest| == |chain| - 1
    ensures RemoveChain(chain, key).returned == Some(if j == 0 then chain[0].value else chain[j - 1].value)
    ensures Find(RemoveChain(chain, key).rest, key) == None
    ensures forall k :: k != key ==> Find(RemoveChain(chain, key).rest, k) == Find(chain, k)
  {
    var rest := chain[..j] + chain[j + 1..];
    assert j == 0 ==> rest == chain[1..];
    UnlinkAt(chain, j);
    forall i | 0 <= i < |rest| ensures rest[i].key != key {
      if j <= i { assert rest[i] == chain[i + 1]; }
    }
    forall k | k != key
      ensures Find(rest, k) == Find(chain, k)
    {
      UnlinkOther(chain, j, k);
    }
  }

  /** Unlinking the entry at `j` does not change `get` for a key other than its own. */
  lemma UnlinkOther<V>(chain: seq<Entry<V>>, j: nat, k: Long)
    requires j < |chain| && chain[j].key != k
    ensures Find(chain[..j] + chain[j + 1..], k) == Find(chain, k)
  {
    var rest := chain[..j] + chain[j + 1..];
    UnlinkAt(chain, j);
    match FirstMatch(chain, k)
    case None =>
      forall i | 0 <= i < |rest| ensures rest[i].key != k {
        if j <= i { assert rest[i] == chain[i + 1]; }
      }
    case Some(m) =>
      if m < j {
        FirstMatchAt(rest, k, m);
      } else {
        assert rest[m - 1] == chain[m];
        forall i | 0 <= i < m - 1 ensures rest[i].key != k {
          if j <= i { assert rest[i] == chain[i + 1]; }
        }
        FirstMatchAt(rest, k, m - 1);
      }
  }

  /** Unlinking position `j` shifts every later entry down by one. */
  lemma UnlinkAt<V>(chain: seq<Entry<V>>, j: nat)
    requires j < |chain|
    ensures |chain[..j] + chain[j + 1..]| == |chain| - 1
    ensures forall i :: 0 <= i < j ==> (chain[..j] + chain[j + 1..])[i] == chain[i]
    ensures forall i :: j < i < |chain| ==> (chain[..j] + chain[j + 1..])[i - 1] == chain[i]
  {
  }

  /** Unlinking one entry keeps a chain in its bucket and free of repeated keys. */
  lemma UnlinkKeepsShape<V>(chain: seq<Entry<V>>, j: nat, capacity: Int32, bucket: int)
    requires capacity > 0 && j < |chain|
    requires ChainUnique(chain) && ChainPlaced(chain, capacity, bucket)
    ensures ChainUnique(chain[..j] + chain[j + 1..])
    ensures ChainPlaced(chain[..j] + chain[j + 1..], capacity, bucket)
  {
    var rest := chain[..j] + chain[j + 1..];
    UnlinkAt(chain, j);
    forall i | 0 <= i < |rest| ensures rest[i] == chain[if i < j then i else i + 1] {
      if j <= i { assert rest[i] == chain[i + 1]; }
    }
    forall e | e in rest ensures e in chain {
      var i :| 0 <= i < |rest| && rest[i] == e;
      assert e == chain[if i < j then i else i + 1];
    }
  }

  /** `remove` keeps the chain in its bucket and free of repeated keys, and it
      shortens the chain by one exactly when it returns a value. */
  lemma RemoveChainValid<V>(chain: seq<Entry<V>>, key: Long, capacity: Int32, bucket: int)
    requires capacity > 0
    requires ChainUnique(chain) && ChainPlaced(chain, capacity, bucket)
    ensures ChainUnique(RemoveChain(chain, key).rest)
    ensures ChainPlaced(RemoveChain(chain, key).rest, capacity, bucket)
    ensures RemoveChain(chain, key).returned.Some? <==> key in ChainKeys(chain)
    ensures |RemoveChain(chain, key).rest| == |chain| - (if key in ChainKeys(chain) then 1 else 0)
  {
    FindAbsent(chain, key);
    match FirstMatch(chain, key)
    case None =>
    case Some(j) =>
      RemovePresent(chain, key, j);
      UnlinkKeepsShape(chain, j, capacity, bucket);
  }

  /** The `remove` evidently intended: the entry with the key is unlinked as
      the source does it, and its own value is returned. */
  function IntendedRemoveChain<V>(chain: seq<Entry<V>>, key: Long): Removal<V>
  {
    match FirstMatch(chain, key)
    case None => Removal(None, chain)
    case Some(j) => Removal(Some(chain[j].value), chain[..j] + chain[j + 1..])
  }

  /** The intended `remove` returns what `get` of the key returned before, and
      leaves the same chain as the source's `remove`. */
  lemma IntendedRemoveReturnsRemoved<V>(chain: seq<Entry<V>>, key: Long)
    ensures IntendedRemoveChain(chain, key).returned == Find(chain, key)
    ensures IntendedRemoveChain(chain, key).rest == RemoveChain(chain, key).rest
  {
    match FirstMatch(chain, key)
    case None =>
    case Some(j) =>
      if j == 0 {
        assert chain[..0] + chain[1..] == chain[1..];
      }
  }

  /** The source's `remove` agrees with the intended one only for an absent
      key, a head match, or a match whose predecessor happens to hold the same
      value. */
  lemma RemoveAgreesWithIntended<V>(chain: seq<Entry<V>>, key: Long)
    ensures match FirstMatch(chain, key)
      case None => RemoveChain(chain, key) == IntendedRemoveChain(chain, key)
      case Some(j) =>
        RemoveChain(chain, key) == IntendedRemoveChain(chain, key) <==> j == 0 || chain[j - 1].value == chain[j].value
  {
    IntendedRemoveReturnsRemoved(chain, key);
  }
}
