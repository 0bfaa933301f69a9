/** Concrete tables on which the source's `put` and `remove` depart from a
    map's behaviour.  The table is the one the collision test of the test suite
    builds with capacity 2: key 16 alone in bucket 0, and keys 33, 3 and 15
    chained in that order in bucket 1.  Here 15 holds a value of its own, where
    the test gives 3 and 15 the same value. */
module Findings {
  import opened BucketIndex
  import opened Chain
  import opened Table

  /** The collision table of the test, with a distinct value for key 15. */
  function CollisionTable(): seq<seq<Entry<string>>>
  {
    [[Entry(16, "test-data")], [Entry(33, "test_1"), Entry(3, "test_2"), Entry(15, "test_3")]]
  }

  /** The table is the one the test's puts of 16, 33, 3 and 15 build from an
      empty table of capacity 2. */
  lemma CollisionTableBuiltByPuts()
    ensures CollisionTable()
         == TablePut(TablePut(TablePut(TablePut([[], []], 2, 16, "test-data"), 2, 33, "test_1"), 2, 3, "test_2"), 2, 15, "test_3")
  {
    var t := CollisionTable();
    assert GetIndex(16, 2) == 0 && GetIndex(33, 2) == 1 && GetIndex(3, 2) == 1 && GetIndex(15, 2) == 1;
    var t1 := TablePut([[], []], 2, 16, "test-data");
    var t2 := TablePut(t1, 2, 33, "test_1");
    assert t2 == [[Entry(16, "test-data")], [Entry(33, "test_1")]];
    PutWalk(t2[1], 3, "test_2", 1);
    assert PutChain(t2[1], 3, "test_2") == [Entry(33, "test_1"), Entry(3, "test_2")];
    var t3 := TablePut(t2, 2, 3, "test_2");
    assert t3 == t2[1 := PutChain(t2[1], 3, "test_2")];
    assert t3 == [[Entry(16, "test-data")], [Entry(33, "test_1"), Entry(3, "test_2")]];
    PutWalk(t3[1], 15, "test_3", 2);
    assert PutChain(t3[1], 15, "test_3") == t[1];
    assert TablePut(t3, 2, 15, "test_3") == t3[1 := t[1]] == t;
  }

  /** `remove(15)` unlinks key 15 but returns the value of key 3, its
      predecessor, where the intended `remove` returns 15's own value. */
  lemma RemoveReturnsPredecessorValue()
    ensures Lookup(CollisionTable(), 2, 15) == Some("test_3")
    ensures TableRemove(CollisionTable(), 2, 15).0 == Some("test_2")
    ensures IntendedRemoveChain(CollisionTable()[1], 15).returned == Some("test_3")
  {
    var t := CollisionTable();
    assert GetIndex(15, 2) == 1;
    FirstMatchAt(t[1], 15, 2);
  }

  /** `put(3, "d")` overwrites 3's value but then links 33 to a fresh entry,
      so that 15 is lost: `get(15)` returns null afterwards, the table holds
      three entries while the counter, which `put` leaves unchanged for a
      present key, still says four.  The intended `put` keeps 15. */
  lemma PutUnlinksFollowers()
    ensures TablePut(CollisionTable(), 2, 3, "d")
         == [[Entry(16, "test-data")], [Entry(33, "test_1"), Entry(3, "d")]]
    ensures Lookup(CollisionTable(), 2, 15) == Some("test_3")
    ensures Lookup(TablePut(CollisionTable(), 2, 3, "d"), 2, 15) == None
    ensures |Entries(CollisionTable())| == 4 && |Entries(TablePut(CollisionTable(), 2, 3, "d"))| == 3
    ensures Dropped(CollisionTable()[1], 3) == 1
    ensures Find(IntendedPutChain(CollisionTable()[1], 3, "d"), 15) == Some("test_3")
  {
    var t := CollisionTable();
    assert GetIndex(3, 2) == 1 && GetIndex(15, 2) == 1;
    FirstMatchAt(t[1], 3, 1);
    FirstMatchAt(t[1], 15, 2);
    var after := TablePut(t, 2, 3, "d");
    assert after[1] == [Entry(33, "test_1"), Entry(3, "d")];
    FirstMatchAt(IntendedPutChain(t[1], 3, "d"), 15, 2);
    assert Entries(t) == t[0] + t[1];
    assert Entries(after) == after[0] + after[1];
  }
}
