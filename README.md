# LongMapImpl in Dafny

This project models `LongMapImpl<V>`, a hash map keyed by Java `long`. It
stores its entries in a fixed array of singly linked collision chains and
keeps a running entry counter. The array is built once with `capacity` buckets
(16 by default) and is never resized. Every operation finds the bucket of a key
with `getIndex(key) = (int) Math.abs(key % capacity)`.

The model has five modules, one file each:

- `BucketIndex` (`bucket_index.dfy`) writes out the Java arithmetic behind
  `getIndex`: the `long` and `int` ranges, `%` truncating toward zero,
  `Math.abs(long)` overflowing on `Long.MIN_VALUE`, and the narrowing `(int)`
  cast.
- `Chain` (`chain.dfy`) treats one chain as a sequence of entries, head first.
  It specifies the walks of `put`, `get` and `remove` as functions: `PutChain`,
  `Find` and `RemoveChain`. These functions relink the chain exactly as the
  code does, defects included.
- `Table` (`table.dfy`) covers the array as a sequence of chains. It defines
  the well-formedness invariant: every entry sits in its key's bucket, and no
  chain repeats a key. It also defines the bulk reads (`keys`, `values`,
  `containsKey`, `containsValue`) and the table-level effect of `put` and
  `remove`.
- `LongMap` (`long_map.dfy`) is the class itself. It has the `table` array of
  chains and the `size` counter, with constructors, `Put`, `Get`, `Remove` and
  `Clear`. These are loop-based methods proved against the `Chain` and
  `Table` functions. The class also has the read-only operations as functions,
  and the two cell helpers as loop methods.
- `Findings` (`findings.dfy`) holds concrete counterexamples. They use the
  collision table of the test suite.

The object invariant `Valid()` says three things:

- the table is well formed;
- the counter is never below the number of entries;
- the counter can be above that number.

The counter can run ahead because `put` of a key matched below the head of its
chain unlinks entries without adjusting the counter (see Findings).
`Counted()` is the stronger state where the counter is exact. The constructors
and `clear` establish it, and the read-only operations state what they promise
under it.

The map's design description promises two things the code does not do:

- a true in-place update with exact counting on every re-insert;
- `remove` returning the stored value.

The model follows the code. The intended behaviour is defined and proved
alongside it, under Findings.

## Model

| member | source | states |
|---|---|---|
| BucketIndex.GetIndex | src/main/java/de/comparus/opensource/longmap/LongMapImpl.java:130-132 | the bucket index is in `[0, capacity)` for every 64-bit key, negative keys and `Long.MIN_VALUE` included |
| BucketIndex.GetIndexIsAbsRem | src/main/java/de/comparus/opensource/longmap/LongMapImpl.java:130-132 | the bucket index equals `|key| mod capacity`; neither `Math.abs` nor the `(int)` cast overflows on the remainder |
| Chain.FindInUnique | src/main/java/de/comparus/opensource/longmap/LongMapImpl.java:51-61 | in a chain without repeated keys, the walk of `get` returns `v` for `k` exactly when the chain holds the entry `(k, v)` |
| Chain.FindAbsent | src/main/java/de/comparus/opensource/longmap/LongMapImpl.java:51-61 | the walk of `get` returns null exactly when no entry of the chain has the key |
| Chain.PutWalk | src/main/java/de/comparus/opensource/longmap/LongMapImpl.java:32-45 | the walk of `put` stops at the first entry with the key, or after the tail exactly when the key is absent; where it stops decides the relinking: append, overwrite of the head, or cut after the predecessor |
| Chain.PutAbsent | src/main/java/de/comparus/opensource/longmap/LongMapImpl.java:29-30 | `put` of an absent key makes the new entry the head of an empty bucket or links it after the tail; nothing is unlinked; a later `get` of the key returns the value; `get` of every other key is unchanged |
| Chain.PutHead | src/main/java/de/comparus/opensource/longmap/LongMapImpl.java:33-38 | `put` of a key at the head overwrites the head's value in place; the keys are unchanged and nothing is unlinked; a later `get` returns the new value; other keys are unaffected |
| Chain.PutNonHead | src/main/java/de/comparus/opensource/longmap/LongMapImpl.java:34-45 | `put` of a key matched at position `j > 0` leaves `chain[..j]` plus one fresh entry; `|chain| - j - 1` entries are unlinked; every key after the match, findable before, is no longer findable |
| Chain.PutKeepsOthers | src/main/java/de/comparus/opensource/longmap/LongMapImpl.java:26-49 | when `put` unlinks nothing, `get` of every other key is unchanged |
| Chain.PutChainValid | src/main/java/de/comparus/opensource/longmap/LongMapImpl.java:26-49 | `put` keeps the chain in its bucket and free of repeated keys; a later `get` returns the value put; the new length plus the unlinked entries is the old length, plus one for a new key |
| Chain.RemoveAbsent | src/main/java/de/comparus/opensource/longmap/LongMapImpl.java:63-85 | `remove` of an absent key returns null and leaves the chain unchanged |
| Chain.RemovePresent | src/main/java/de/comparus/opensource/longmap/LongMapImpl.java:67-79 | `remove` of a key at position `j` unlinks exactly that entry, so the chain loses one entry; afterwards `get` of the key fails and other keys are unaffected; the value returned is the entry's own only for `j = 0`, and its predecessor's otherwise |
| Chain.RemoveChainValid | src/main/java/de/comparus/opensource/longmap/LongMapImpl.java:63-85 | `remove` keeps the chain in its bucket and free of repeated keys; it returns a value, and shortens the chain by one, exactly when the key was present |
| Chain.IntendedPutIsUpdate | src/main/java/de/comparus/opensource/longmap/LongMapImpl.java:26-49 | the intended `put` is a map update: `get` of the key returns the new value, `get` of other keys is unchanged, the key list gains the key only when it is new, and uniqueness is kept |
| Chain.PutIsIntendedUnlessDropped | src/main/java/de/comparus/opensource/longmap/LongMapImpl.java:34-47 | the source's `put` equals the intended one exactly when it unlinks no entry |
| Chain.IntendedRemoveReturnsRemoved | src/main/java/de/comparus/opensource/longmap/LongMapImpl.java:69-79 | the intended `remove` returns what `get` of the key returned before, and leaves the same chain as the source's `remove` |
| Chain.RemoveAgreesWithIntended | src/main/java/de/comparus/opensource/longmap/LongMapImpl.java:70-77 | the source's `remove` agrees with the intended one exactly for an absent key, a head match, or a predecessor holding the same value |
| Table.EmptyChains | src/main/java/de/comparus/opensource/longmap/LongMapImpl.java:124-127 | a table of empty buckets has no entries, no keys and no values |
| Table.KeysValuesAligned | src/main/java/de/comparus/opensource/longmap/LongMapImpl.java:105-118 | `keys()` and `values()` both have one element per entry; position `i` of each comes from the `i`-th entry, bucket by bucket and along each chain |
| Table.ContainsKeyInKeys | src/main/java/de/comparus/opensource/longmap/LongMapImpl.java:91-96 | some bucket's key list contains `k` exactly when `keys()` lists `k` |
| Table.ContainsValueInValues | src/main/java/de/comparus/opensource/longmap/LongMapImpl.java:98-103 | some bucket's value list contains `v` exactly when `values()` lists `v` |
| Table.ContainsKeyAgreesWithLookup | src/main/java/de/comparus/opensource/longmap/LongMapImpl.java:91-96 | in a well-formed table, `containsKey(k)` holds exactly when `get(k)` is not null |
| Table.ContainsValueAgreesWithLookup | src/main/java/de/comparus/opensource/longmap/LongMapImpl.java:98-103 | in a well-formed table, `containsValue(v)` holds exactly when `get` maps some key to `v` |
| Table.KeysDistinct | src/main/java/de/comparus/opensource/longmap/LongMapImpl.java:105-111 | in a well-formed table, `keys()` lists no key twice |
| Table.LookupOfListedKeys | src/main/java/de/comparus/opensource/longmap/LongMapImpl.java:105-118 | in a well-formed table, `get(keys()[i])` returns `values()[i]` |
| Table.PutTableValid | src/main/java/de/comparus/opensource/longmap/LongMapImpl.java:26-49 | `put` keeps the table well formed; a later `get` of the key returns the value; the entry count changes by `+1` for a new key, minus the entries the walk unlinks |
| Table.PutTableKeepsOthers | src/main/java/de/comparus/opensource/longmap/LongMapImpl.java:26-49 | when `put` unlinks nothing, `get` of every other key is unchanged |
| Table.RemoveTableValid | src/main/java/de/comparus/opensource/longmap/LongMapImpl.java:63-85 | `remove` keeps the table well formed; it returns a value, and removes one entry, exactly when the key was present; afterwards `get` of the key is null and `get` of other keys is unchanged |
| LongMap.LongMapImpl.constructor | src/main/java/de/comparus/opensource/longmap/LongMapImpl.java:16-18 | a fresh table of 16 empty buckets with a zero, exact counter |
| LongMap.LongMapImpl.WithCapacity | src/main/java/de/comparus/opensource/longmap/LongMapImpl.java:20-23 | a fresh table of `capacity` empty buckets with a zero, exact counter |
| LongMap.LongMapImpl.Put | src/main/java/de/comparus/opensource/longmap/LongMapImpl.java:26-49 | the loop leaves the table equal to `TablePut` of the old table, so only the key's bucket changes; the counter grows by one exactly when the key was absent; the invariant is kept; the given value is returned |
| LongMap.LongMapImpl.Get | src/main/java/de/comparus/opensource/longmap/LongMapImpl.java:51-61 | returns the value of the first entry with the key in the key's bucket, or null; changes nothing |
| LongMap.LongMapImpl.Remove | src/main/java/de/comparus/opensource/longmap/LongMapImpl.java:63-85 | result and new table are those of `TableRemove`; a value is returned exactly when the key was present, and then the counter drops by one; the gap between counter and entry count is kept; `get` of the key is then null and other keys are unaffected |
| LongMap.LongMapImpl.IsEmpty | src/main/java/de/comparus/opensource/longmap/LongMapImpl.java:87-89 | a zero counter implies no keys; with an exact counter, it is empty exactly when there are no keys |
| LongMap.LongMapImpl.ContainsKey | src/main/java/de/comparus/opensource/longmap/LongMapImpl.java:91-96 | holds exactly when `keys()` lists the key, and exactly when `get` finds it |
| LongMap.LongMapImpl.ContainsValue | src/main/java/de/comparus/opensource/longmap/LongMapImpl.java:98-103 | holds exactly when `values()` lists the value, and exactly when `get` maps some key to it |
| LongMap.LongMapImpl.Keys | src/main/java/de/comparus/opensource/longmap/LongMapImpl.java:105-111 | no key is listed twice; the list is no longer than the counter, and as long when the counter is exact |
| LongMap.LongMapImpl.Values | src/main/java/de/comparus/opensource/longmap/LongMapImpl.java:113-118 | as long as `keys()`, and `get(keys()[i])` returns `values()[i]` |
| LongMap.LongMapImpl.Size | src/main/java/de/comparus/opensource/longmap/LongMapImpl.java:120-122 | never less than the number of listed keys, and equal to it when the counter is exact |
| LongMap.LongMapImpl.Clear | src/main/java/de/comparus/opensource/longmap/LongMapImpl.java:124-127 | a fresh table of empty buckets of the same capacity, a zero and exact counter, `isEmpty()` true and no keys |
| LongMap.LongMapImpl.AllKeysFromCell | src/main/java/de/comparus/opensource/longmap/LongMapImpl.java:134-141 | the loop collects exactly the chain's keys, head first |
| LongMap.LongMapImpl.AllValuesFromCell | src/main/java/de/comparus/opensource/longmap/LongMapImpl.java:143-150 | the loop collects exactly the chain's values, head first |
| Findings.CollisionTableBuiltByPuts | src/test/java/de/comparus/opensource/longmap/LongMapImplTest.java:95-107 | the test's puts of 16, 33, 3 and 15 into a map of capacity 2 build the table with 16 in bucket 0 and the chain 33, 3, 15 in bucket 1 |
| Findings.RemoveReturnsPredecessorValue | src/main/java/de/comparus/opensource/longmap/LongMapImpl.java:75 | on that table, `remove(15)` returns 3's value rather than 15's own, which the intended `remove` returns |
| Findings.PutUnlinksFollowers | src/main/java/de/comparus/opensource/longmap/LongMapImpl.java:43-45 | on that table, `put(3, "d")` unlinks 15: `get(15)` becomes null and the table goes from four entries to three, while the intended `put` keeps 15 |

## Left out

- Node identity and aliasing are not modelled. A chain is a value sequence, and each `setNext`/`setValue` on nodes becomes one reassignment of the bucket's sequence. No code outside the class can hold a node, so nothing observable depends on node identity.
- `.parallel()` in `containsKey` and `containsValue` is left out. Both are modelled as sequential existential scans, since the result does not depend on evaluation order.
- Java generic-array mechanics are left out: the unchecked `new Entry[capacity]`, the `(V[])` cast in `values()`, and `Long` boxing. `keys()` and `values()` return sequences rather than arrays.
- Exceptions for a bad capacity are left out: `ArithmeticException` from `% 0`, and `NegativeArraySizeException`. Instead the map requires `capacity > 0`.
- LongMap.LongMapImpl.Size: the counter is a `nat`, so 64-bit overflow of the `long` counter is not modelled. It would need more than 2^63 puts.
- Null values are left out. `V` is any type with equality, and `null` appears only as the absent result (`None`). In Java, a stored `null` value cannot be told apart from an absent key by `get`; the model has no stored nulls.
- The `Entry` class and the `LongMap` interface are not part of this model. An entry is modelled as a key and value, linked to its successor by position in the chain.
- LongMap.LongMapImpl.Put: its contract ties the new table to `TablePut` and states the counter. What `get` returns afterwards, and the gap between the counter and the entry count, are stated about `TablePut` in `Table.PutTableValid` and `Table.PutTableKeepsOthers`, not repeated in the method.

## Findings

| source | as written | input that shows it | evidently intended | confidence | as-written member | corrected member |
|---|---|---|---|---|---|---|
| src/main/java/de/comparus/opensource/longmap/LongMapImpl.java:43-45 | on a match below the head, the predecessor is linked to a fresh entry with no successor, so the match and everything after it are unlinked; the counter is decremented and re-incremented, so it stays unchanged | capacity 2, puts of 16, 33, 3, 15, then `put(3, "d")`: bucket 1 becomes 33, 3; `get(15)` returns null; `size()` still says 4 with three entries left | overwrite the matched entry's value where it stands and keep every other entry | high (proved on the model, not executed) | Findings.PutUnlinksFollowers | Chain.IntendedPutIsUpdate |
| src/main/java/de/comparus/opensource/longmap/LongMapImpl.java:75 | on a match below the head, the removed value is read from the predecessor | capacity 2, puts of 16, 33, 3 with "test_2", 15 with "test_3", then `remove(15)` returns "test_2"; the collision test passes only because 3 and 15 there hold the same value | return the removed entry's own value | high (proved on the model, not executed) | Findings.RemoveReturnsPredecessorValue | Chain.IntendedRemoveReturnsRemoved |
