/** The eviction scenarios of lru_test.go, replayed against the contracts of
    the cache model with no file-system failure. */
module LruScenarios {
  import opened Lru

  /** A `trim` whose future size already fits evicts nothing. */
  lemma TrimmedNoop(s: seq<Object>, future: int, maxSize: nat)
    requires future <= maxSize
    ensures Trimmed(s, future, maxSize) == s
  {
  }

  /** `Set` of a new key whose payload fits next to everything already
      cached, with no failure: nothing is evicted and the entry goes in front. */
  method SetFits(c: Cache, key: string, value: Bytes, now: Time)
    requires c.Valid() && key !in c.table && key !in c.files
    requires c.size + |value| <= c.maxSize
    modifies c`list, c`table, c`size, c`files, c.list
    ensures c.Valid()
    ensures |c.list| == |old(c.list)| + 1 && c.list[1..] == old(c.list) && c.list[0].key == key
    ensures fresh(c.list[0])
    ensures c.size == old(c.size) + |value|
    ensures c.table.Keys == old(c.table.Keys) + {key}
    ensures c.files.Keys == old(c.files.Keys) + {key}
  {
    TrimmedNoop(c.list, c.size + |value|, c.maxSize);
    assert c.list[|c.list|..] == [];
    c.Set(key, value, now, false, false, k => false);
  }

  /** `Get` of the entry at position `i`, with no failure: a hit that moves
      that entry to the front and keeps the others in order. */
  method GetAt(c: Cache, i: nat, now: Time) returns (value: Bytes, ok: bool)
    requires c.Valid() && i < |c.list|
    modifies c`list, c.list
    ensures c.Valid() && ok
    ensures c.list == [old(c.list)[i]] + old(c.list)[..i] + old(c.list)[i + 1..]
    ensures c.size == old(c.size) && c.table == old(c.table) && c.files == old(c.files)
  {
    c.TableMatchesList();
    WithoutAt(c.list, i);
    value, ok := c.Get(c.list[i].key, now, false);
  }

  /** The three `Set` calls of TestLRUIsEvicted on a new cache sized for
      exactly three equal payloads: the cache is full, key3 in front. */
  method FillThree(value: Bytes) returns (c: Cache)
    requires |value| > 0
    ensures fresh(c) && c.Valid() && c.maxSize == 3 * |value|
    ensures |c.list| == 3 && fresh(c.list[0]) && fresh(c.list[1]) && fresh(c.list[2])
    ensures c.list == [c.list[0], c.list[1], c.list[2]] && c.size == 3 * |value|
    ensures c.list[0].key == "key3" && c.list[1].key == "key2" && c.list[2].key == "key1"
    ensures forall o :: o in c.list ==> o.size == |value|
    ensures c.table.Keys == {"key1", "key2", "key3"} && c.files.Keys == c.table.Keys
  {
    var n := |value|;
    c := new Cache(3 * n, map[]);
    SetFits(c, "key1", value, 1);
    SetFits(c, "key2", value, 2);
    SetFits(c, "key3", value, 3);
  }

  /** Reading the three entries back to front, with no failure, reverses
      the recency order. */
  method TouchAll(c: Cache, now: Time)
    requires c.Valid() && |c.list| == 3
    modifies c`list, c.list
    ensures c.Valid()
    ensures c.list == [old(c.list)[2], old(c.list)[1], old(c.list)[0]]
    ensures c.size == old(c.size) && c.table == old(c.table) && c.files == old(c.files)
  {
    ghost var l := c.list;
    var bytes, ok := GetAt(c, 0, now);
    assert c.list == [l[0], l[1], l[2]];
    bytes, ok := GetAt(c, 1, now + 1);
    assert c.list == [l[1], l[0], l[2]];
    bytes, ok := GetAt(c, 2, now + 2);
  }

  /** `Set` of a new key into a full cache of three equal entries, with a
      payload of the same size and no failure: exactly the back entry goes. */
  method SetEvictsBack(c: Cache, key: string, value: Bytes, now: Time)
    requires c.Valid() && key !in c.table && |c.list| == 3
    requires c.size == c.maxSize && c.list[2].size == |value| > 0
    requires key !in c.files && |value| <= c.maxSize
    modifies c`list, c`table, c`size, c`files, c.list
    ensures c.Valid()
    ensures |c.list| == 3 && fresh(c.list[0])
    ensures c.list == [c.list[0], old(c.list)[0], old(c.list)[1]]
    ensures old(c.list)[2].key !in c.table
  {
    ghost var l := c.list;
    c.TableMatchesList();
    assert l[2].key != key;
    assert KeptCount(l, 3, c.size + |value|, c.maxSize) == 2;
    assert Trimmed(l, c.size + |value|, c.maxSize) == l[..2];
    assert KeySet(l[2..]) == {l[2].key} by {
      assert l[2..] == [l[2]];
    }
    c.Set(key, value, now, false, false, k => false);
    assert c.list[1..] == l[..2];
  }

  /** TestLRUIsEvicted: after the cache is filled, reading key3, key2, key1
      in that order leaves key3 least recently used, so storing key0 evicts
      key3 and key3 then misses. */
  method LruIsEvicted(value: Bytes) returns (found: bool)
    requires |value| > 0
    ensures !found
  {
    var c := FillThree(value);
    assert fresh(c.list[0]) && fresh(c.list[1]) && fresh(c.list[2]);
    TouchAll(c, 4);
    assert fresh(c.list[0]) && fresh(c.list[1]) && fresh(c.list[2]);
    assert c.list[2].key == "key3";
    SetEvictsBack(c, "key0", value, 7);
    assert fresh(c.list[0]) && fresh(c.list[1]) && fresh(c.list[2]);
    var bytes;
    bytes, found := c.Get("key3", 8, false);
  }

  /** The round trip: storing a new key whose payload fits `maxSize`, with no
      failure, then reading it back returns that payload.  Trimming happens
      before the insert, so the new entry itself is never evicted. */
  method SetThenGet(c: Cache, key: string, value: Bytes, now: Time) returns (got: Bytes, ok: bool)
    requires c.Valid() && key !in c.table && key !in c.files && |value| <= c.maxSize
    modifies c`list, c`table, c`size, c`files, c.list
    ensures c.Valid() && ok && got == value
    ensures c.list != [] && c.list[0].key == key && c.size <= c.maxSize
  {
    ghost var l := c.list;
    c.Set(key, value, now, false, false, k => false);
    ghost var kept := Trimmed(l, old(c.size) + |value|, c.maxSize);
    TrimmedStops(l, old(c.size) + |value|, c.maxSize);
    forall o | o in c.list ensures o in l || fresh(o) {
      var j :| 0 <= j < |c.list| && c.list[j] == o;
      if j > 0 {
        assert o == kept[j - 1];
      }
    }
    got, ok := c.Get(key, now + 1, false);
  }
}
