/** A disk-backed, size-bounded cache with least-recently-used eviction.

    The recency list is a sequence of entries, front (index 0) = most recently
    used, back = least recently used.  The directory the cache writes its files
    to is an abstract map from key to bytes; the outcome of every file-system
    call that can fail is a parameter, so both branches can be stated. */
module Lru {

  type Bytes = seq<bv8>

  /** A point in time; 0 stands for Go's zero `time.Time`. */
  type Time = int

  /** One cached item: its key, the byte length of its payload and the last
      time a Get or Set touched it.  Key and size never change after creation;
      the access time is updated in place. */
  class Object {
    const key: string
    const size: nat
    var accessTime: Time

    constructor (key: string, size: nat, accessTime: Time)
      ensures this.key == key && this.size == size && this.accessTime == accessTime
    {
      this.key := key;
      this.size := size;
      this.accessTime := accessTime;
    }
  }

  // ---------------------------------------------------------------------------
  // The recency list as a sequence

  /** Total payload size of the entries of `s`. */
  function Sum(s: seq<Object>): nat
  {
    if s == [] then 0 else s[0].size + Sum(s[1..])
  }

  /** The set of keys of the entries of `s`. */
  function KeySet(s: seq<Object>): set<string>
  {
    set o | o in s :: o.key
  }

  /** No key occurs twice in `s`. */
  predicate DistinctKeys(s: seq<Object>)
  {
    forall i, j :: 0 <= i < j < |s| ==> s[i].key != s[j].key
  }

  /** `s` with the element `o` unlinked (`list.Remove`). */
  function Without(s: seq<Object>, o: Object): (r: seq<Object>)
    ensures |r| <= |s|
    ensures forall i :: 0 <= i < |r| ==> r[i] in s && r[i] != o
    ensures forall i :: 0 <= i < |s| && s[i] != o ==> s[i] in r
  {
    if s == [] then []
    else if s[0] == o then Without(s[1..], o)
    else [s[0]] + Without(s[1..], o)
  }

  /** How many entries of the prefix `s[..n]` are left after `trim(future)`
      has taken entries off its back, and their sizes off `future`, until
      `future` fits `maxSize` or nothing is left. */
  function KeptCount(s: seq<Object>, n: nat, future: int, maxSize: nat): (k: nat)
    requires n <= |s|
    ensures k <= n
    ensures k < n ==> future > maxSize
    decreases n
  {
    if future <= maxSize || n == 0 then n
    else KeptCount(s, n - 1, future - s[n - 1].size, maxSize)
  }

  /** One pass of `trim`'s loop while `future` does not fit. */
  lemma KeptCountStep(s: seq<Object>, n: nat, future: int, maxSize: nat, next: int)
    requires 0 < n <= |s| && future > maxSize && next == future - s[n - 1].size
    ensures KeptCount(s, n, future, maxSize) == KeptCount(s, n - 1, next, maxSize)
  {
  }

  /** What `trim(future)` leaves of the list `s`: always a prefix of it,
      and all of it when `future` already fits. */
  function Trimmed(s: seq<Object>, future: int, maxSize: nat): (r: seq<Object>)
    ensures |r| <= |s| && r == s[..|r|]
    ensures future <= maxSize ==> r == s
  {
    s[..KeptCount(s, |s|, future, maxSize)]
  }

  lemma {:induction false} SumAppend(a: seq<Object>, b: seq<Object>)
    ensures Sum(a + b) == Sum(a) + Sum(b)
  {
    if a == [] {
      assert a + b == b;
    } else {
      assert (a + b)[1..] == a[1..] + b;
      SumAppend(a[1..], b);
    }
  }

  lemma {:induction false} WithoutAbsent(s: seq<Object>, o: Object)
    requires o !in s
    ensures Without(s, o) == s
  {
    if s != [] {
      WithoutAbsent(s[1..], o);
    }
  }

  lemma DistinctKeysTail(s: seq<Object>)
    requires DistinctKeys(s) && s != []
    ensures DistinctKeys(s[1..]) && s[0] !in s[1..]
  {
    forall a, b | 0 <= a < b < |s[1..]| ensures s[1..][a].key != s[1..][b].key {
      assert s[1..][a] == s[a + 1] && s[1..][b] == s[b + 1];
    }
    forall j | 0 <= j < |s[1..]| ensures s[1..][j] != s[0] {
      assert s[1..][j].key == s[j + 1].key;
    }
  }

  /** Unlinking the element at position `i` of a list with distinct keys
      removes exactly that position and keeps the order of the others. */
  lemma {:induction false} WithoutAt(s: seq<Object>, i: nat)
    requires DistinctKeys(s) && i < |s|
    ensures Without(s, s[i]) == s[..i] + s[i + 1..]
  {
    DistinctKeysTail(s);
    if i == 0 {
      WithoutAbsent(s[1..], s[0]);
    } else {
      assert s[0].key != s[i].key;
      WithoutAt(s[1..], i - 1);
      assert s[1..][i - 1] == s[i];
      assert s[..i] == [s[0]] + s[1..][..i - 1];
      assert s[i + 1..] == s[1..][i..];
    }
  }

  /** Removing position `i` keeps the keys distinct. */
  lemma DeleteAtDistinct(s: seq<Object>, i: nat)
    requires DistinctKeys(s) && i < |s|
    ensures DistinctKeys(s[..i] + s[i + 1..])
  {
    var r := s[..i] + s[i + 1..];
    forall a, b | 0 <= a < b < |r| ensures r[a].key != r[b].key {
      assert r[a] == if a < i then s[a] else s[a + 1];
      assert r[b] == if b < i then s[b] else s[b + 1];
    }
  }

  /** Removing position `i` takes exactly its size off the total. */
  lemma {:induction false} DeleteAtSum(s: seq<Object>, i: nat)
    requires i < |s|
    ensures Sum(s[..i] + s[i + 1..]) + s[i].size == Sum(s)
  {
    var r := s[..i] + s[i + 1..];
    if i == 0 {
      assert r == s[1..];
    } else {
      var t := s[1..];
      DeleteAtSum(t, i - 1);
      assert r[1..] == t[..i - 1] + t[i..];
    }
  }

  /** Removing position `i` drops exactly that element. */
  lemma DeleteAtMembers(s: seq<Object>, i: nat)
    requires DistinctKeys(s) && i < |s|
    ensures forall o :: o in s[..i] + s[i + 1..] <==> o in s && o != s[i]
  {
    var r := s[..i] + s[i + 1..];
    forall o ensures o in r <==> o in s && o != s[i] {
      if o in r {
        var a :| 0 <= a < |r| && r[a] == o;
        assert r[a] == if a < i then s[a] else s[a + 1];
      }
      if o in s && o != s[i] {
        var a :| 0 <= a < |s| && s[a] == o;
        assert o == if a < i then r[a] else r[a - 1];
      }
    }
  }

  /** Removing position `i` drops exactly its key. */
  lemma DeleteAtKeys(s: seq<Object>, i: nat)
    requires DistinctKeys(s) && i < |s|
    ensures KeySet(s[..i] + s[i + 1..]) == KeySet(s) - {s[i].key}
  {
    var r := s[..i] + s[i + 1..];
    DeleteAtMembers(s, i);
    forall k ensures k in KeySet(r) <==> k in KeySet(s) - {s[i].key} {
      if k in KeySet(r) {
        var o :| o in r && o.key == k;
        var a :| 0 <= a < |s| && s[a] == o;
        assert a != i;
      }
      if k in KeySet(s) && k != s[i].key {
        var o :| o in s && o.key == k;
        assert o in r;
      }
    }
  }

  /** `list.Remove`: unlinking one element of a list with distinct keys keeps
      the keys distinct, drops exactly that element and its key, and lowers
      the total size by exactly its size. */
  lemma RemovePreserves(s: seq<Object>, i: nat)
    requires DistinctKeys(s) && i < |s|
    ensures DistinctKeys(Without(s, s[i]))
    ensures Sum(Without(s, s[i])) + s[i].size == Sum(s)
    ensures forall o :: o in Without(s, s[i]) <==> o in s && o != s[i]
    ensures KeySet(Without(s, s[i])) == KeySet(s) - {s[i].key}
  {
    WithoutAt(s, i);
    DeleteAtDistinct(s, i);
    DeleteAtSum(s, i);
    DeleteAtMembers(s, i);
    DeleteAtKeys(s, i);
  }

  /** Putting an element whose key is new in front keeps the keys distinct. */
  lemma ConsDistinct(x: Object, w: seq<Object>)
    requires DistinctKeys(w) && forall o :: o in w ==> o.key != x.key
    ensures DistinctKeys([x] + w)
  {
    var r := [x] + w;
    forall a, b | 0 <= a < b < |r| ensures r[a].key != r[b].key {
      assert r[b] == w[b - 1];
      if a > 0 {
        assert r[a] == w[a - 1];
      }
    }
  }

  /** `moveToFront`: the moved element is at the front, the others keep their
      order, the keys stay distinct and the total size is unchanged. */
  lemma MoveToFrontPreserves(s: seq<Object>, i: nat)
    requires DistinctKeys(s) && i < |s|
    ensures DistinctKeys([s[i]] + Without(s, s[i]))
    ensures Sum([s[i]] + Without(s, s[i])) == Sum(s)
    ensures forall o :: o in [s[i]] + Without(s, s[i]) <==> o in s
  {
    RemovePreserves(s, i);
    WithoutAt(s, i);
    var w := Without(s, s[i]);
    forall o | o in w ensures o.key != s[i].key {
      var c :| 0 <= c < |s| && s[c] == o;
      assert c != i;
    }
    ConsDistinct(s[i], w);
    assert ([s[i]] + w)[1..] == w;
  }

  /** Widening a slice by one entry at its back adds exactly that entry's size. */
  lemma SumSnoc(s: seq<Object>, j: nat, n: nat)
    requires j < n <= |s|
    ensures Sum(s[j..n]) == Sum(s[j..n - 1]) + s[n - 1].size
  {
    assert s[j..n] == s[j..n - 1] + [s[n - 1]];
    SumAppend(s[j..n - 1], [s[n - 1]]);
    assert [s[n - 1]][1..] == [];
  }

  /** Where `trim` stops, what is left of `future` fits, unless the whole
      prefix was evicted. */
  lemma {:induction false} KeptCountFits(s: seq<Object>, n: nat, future: int, maxSize: nat)
    requires n <= |s|
    ensures var k := KeptCount(s, n, future, maxSize);
      k == 0 || future - Sum(s[k..n]) <= maxSize
    decreases n
  {
    var k := KeptCount(s, n, future, maxSize);
    if future <= maxSize || n == 0 {
      assert s[n..n] == [];
    } else {
      KeptCountFits(s, n - 1, future - s[n - 1].size, maxSize);
      if k != 0 {
        SumSnoc(s, k, n);
      }
    }
  }

  /** Before `trim` stops, what is left of `future` does not fit. */
  lemma {:induction false} KeptCountMinimal(s: seq<Object>, n: nat, future: int, maxSize: nat)
    requires n <= |s|
    ensures var k := KeptCount(s, n, future, maxSize);
      forall j :: k < j <= n ==> future - Sum(s[j..n]) > maxSize
    decreases n
  {
    var k := KeptCount(s, n, future, maxSize);
    if !(future <= maxSize || n == 0) {
      KeptCountMinimal(s, n - 1, future - s[n - 1].size, maxSize);
      forall j | k < j <= n ensures future - Sum(s[j..n]) > maxSize {
        if j == n {
          assert s[n..n] == [];
        } else {
          SumSnoc(s, j, n);
        }
      }
    }
  }

  /** `trim` stops at the first point, counting evictions from the back, where
      `future` minus the evicted sizes fits `maxSize`; it goes on only while
      the list is non-empty, and it never evicts past that point. */
  lemma TrimmedStops(s: seq<Object>, future: int, maxSize: nat)
    ensures var r := Trimmed(s, future, maxSize);
      && |r| <= |s| && r == s[..|r|]
      && (r == [] || future - Sum(s[|r|..]) <= maxSize)
      && (forall n :: |r| < n <= |s| ==> future - Sum(s[n..]) > maxSize)
  {
    KeptCountFits(s, |s|, future, maxSize);
    KeptCountMinimal(s, |s|, future, maxSize);
    forall j | 0 <= j <= |s| ensures s[j..|s|] == s[j..] {
    }
  }

  /** When the future size is the current total plus one new payload that
      fits on its own, what `trim` leaves plus that payload fits. */
  lemma TrimmedFits(s: seq<Object>, n: nat, maxSize: nat)
    requires n <= maxSize
    ensures Sum(Trimmed(s, Sum(s) + n, maxSize)) + n <= maxSize
  {
    var k := KeptCount(s, |s|, Sum(s) + n, maxSize);
    KeptCountFits(s, |s|, Sum(s) + n, maxSize);
    var kept, gone := s[..k], s[k..];
    assert s[k..|s|] == gone;
    assert s == kept + gone;
    SumAppend(kept, gone);
  }

  /** Taking the back element off a list with distinct keys removes exactly
      its key and its size. */
  lemma DropLast(s: seq<Object>)
    requires DistinctKeys(s) && s != []
    ensures DistinctKeys(s[..|s| - 1])
    ensures Sum(s[..|s| - 1]) + s[|s| - 1].size == Sum(s)
    ensures forall o :: o in s[..|s| - 1] <==> o in s && o != s[|s| - 1]
    ensures KeySet(s[..|s| - 1]) == KeySet(s) - {s[|s| - 1].key}
  {
    var i := |s| - 1;
    assert s[i + 1..] == [];
    assert s[..i] + s[i + 1..] == s[..i];
    DeleteAtDistinct(s, i);
    DeleteAtSum(s, i);
    DeleteAtMembers(s, i);
    DeleteAtKeys(s, i);
  }

  /** The keys among `keys` whose file removal does not fail. */
  function Removed(keys: set<string>, fails: string -> bool): set<string>
  {
    set k | k in keys && !fails(k)
  }

  /** Evicting one more key removes its file unless that removal fails. */
  lemma RemovedInsert(keys: set<string>, k: string, fails: string -> bool)
    ensures Removed(keys + {k}, fails) == Removed(keys, fails) + (if fails(k) then {} else {k})
  {
  }

  /** Dropping one more key from a map is dropping the enlarged key set. */
  lemma MinusStep<V>(m: map<string, V>, keys: set<string>, k: string)
    ensures (m - keys) - {k} == m - (keys + {k})
  {
  }

  /** Removing one more file, unless its removal fails, is removing the
      enlarged set of removed keys. */
  lemma FilesStep(files: map<string, Bytes>, removed: set<string>, k: string, fails: bool)
    ensures (if fails then files - removed else (files - removed) - {k})
      == files - (removed + (if fails then {} else {k}))
  {
  }

  lemma KeySetCons(e: Object, t: seq<Object>)
    ensures KeySet([e] + t) == {e.key} + KeySet(t)
  {
    forall k ensures k in KeySet([e] + t) <==> k in {e.key} + KeySet(t) {
      if k in KeySet(t) {
        var o :| o in t && o.key == k;
        assert o in [e] + t;
      }
    }
  }

  /** Widening a suffix by one entry adds exactly that entry's key. */
  lemma KeySetSuffix(s: seq<Object>, n: nat)
    requires 0 < n <= |s|
    ensures KeySet(s[n - 1..]) == KeySet(s[n..]) + {s[n - 1].key}
  {
    assert s[n - 1..] == [s[n - 1]] + s[n..];
    KeySetCons(s[n - 1], s[n..]);
  }

  /** The key -> element map of a list, which `table` must always equal. */
  function Index(s: seq<Object>): map<string, Object>
  {
    if s == [] then map[] else Index(s[1..])[s[0].key := s[0]]
  }

  /** `Index` holds exactly the list's keys. */
  lemma {:induction false} IndexKeys(s: seq<Object>)
    ensures Index(s).Keys == KeySet(s)
  {
    if s != [] {
      IndexKeys(s[1..]);
      assert s == [s[0]] + s[1..];
      KeySetCons(s[0], s[1..]);
    }
  }

  /** Over a list with distinct keys, `Index` sends each element's key to
      that element. */
  lemma {:induction false} IndexAt(s: seq<Object>)
    requires DistinctKeys(s)
    ensures forall o :: o in s ==> o.key in Index(s) && Index(s)[o.key] == o
  {
    IndexKeys(s);
    if s != [] {
      DistinctKeysTail(s);
      IndexAt(s[1..]);
      IndexKeys(s[1..]);
      forall o | o in s ensures Index(s)[o.key] == o {
        if o != s[0] {
          var j :| 0 <= j < |s| && s[j] == o;
          assert j != 0 && s[0].key != s[j].key;
          assert o in s[1..];
        }
      }
    }
  }

  /** Over a list with distinct keys, `Index` holds exactly the list's keys,
      each mapped to the element that carries it. */
  lemma IndexFacts(s: seq<Object>)
    requires DistinctKeys(s)
    ensures Index(s).Keys == KeySet(s)
    ensures forall o :: o in s ==> Index(s)[o.key] == o
    ensures forall k :: k in Index(s) ==> Index(s)[k] in s && Index(s)[k].key == k
  {
    IndexKeys(s);
    IndexAt(s);
    forall k | k in Index(s) ensures Index(s)[k] in s && Index(s)[k].key == k {
      var o :| o in s && o.key == k;
    }
  }

  /** A map with the list's keys that sends each element's key to that
      element is the list's `Index`. */
  lemma IndexUnique(s: seq<Object>, m: map<string, Object>)
    requires DistinctKeys(s)
    requires m.Keys == KeySet(s)
    requires forall o :: o in s ==> o.key in m && m[o.key] == o
    ensures m == Index(s)
  {
    IndexFacts(s);
    forall k | k in m ensures m[k] == Index(s)[k] {
      var o :| o in s && o.key == k;
    }
  }

  /** Unlinking position `i` drops exactly its key from the index. */
  lemma IndexWithout(s: seq<Object>, i: nat)
    requires DistinctKeys(s) && i < |s|
    ensures Index(Without(s, s[i])) == Index(s) - {s[i].key}
  {
    RemovePreserves(s, i);
    IndexFacts(s);
    var r := Without(s, s[i]);
    forall o | o in r ensures o.key in Index(s) - {s[i].key} && (Index(s) - {s[i].key})[o.key] == o {
      assert o.key in KeySet(r);
    }
    IndexUnique(r, Index(s) - {s[i].key});
  }

  /** Taking the back element off drops exactly its key from the index. */
  lemma IndexDropLast(s: seq<Object>)
    requires DistinctKeys(s) && s != []
    ensures Index(s[..|s| - 1]) == Index(s) - {s[|s| - 1].key}
  {
    DropLast(s);
    IndexFacts(s);
    var r := s[..|s| - 1];
    var m := Index(s) - {s[|s| - 1].key};
    forall o | o in r ensures o.key in m && m[o.key] == o {
      assert o.key in KeySet(r);
    }
    IndexUnique(r, m);
  }

  /** The cache invariant over its four pieces of state: every key is in the
      list once, the table is exactly the list's index (the list's keys, each
      mapped to its own element), `size` is the sum of the entry sizes, and
      every indexed key has its file. */
  predicate Consistent(list: seq<Object>, table: map<string, Object>, size: nat,
                       files: map<string, Bytes>)
  {
    && DistinctKeys(list)
    && table == Index(list)
    && size == Sum(list)
    && table.Keys <= files.Keys
  }

  /** One pass of `trim`: evicting the back entry, with or without its file
      removed, keeps the state consistent. */
  lemma EvictBackPreserves(list: seq<Object>, table: map<string, Object>, size: nat,
                           files: map<string, Bytes>, removed: bool)
    requires Consistent(list, table, size, files) && list != []
    ensures var e := list[|list| - 1];
      e.size <= size &&
      Consistent(list[..|list| - 1], table - {e.key}, size - e.size,
                 if removed then files - {e.key} else files)
  {
    DropLast(list);
    IndexDropLast(list);
  }

  /** `Delete`: unlinking an indexed entry and removing its file keeps the
      state consistent. */
  lemma DeletePreserves(list: seq<Object>, table: map<string, Object>, size: nat,
                        files: map<string, Bytes>, key: string)
    requires Consistent(list, table, size, files) && key in table
    ensures var e := table[key];
      e.key == key && e.size <= size &&
      Consistent(Without(list, e), table - {key}, size - e.size, files - {key})
  {
    IndexFacts(list);
    var e := table[key];
    var i :| 0 <= i < |list| && list[i] == e;
    RemovePreserves(list, i);
    IndexWithout(list, i);
  }

  /** `moveToFront`: promoting an indexed entry keeps the state consistent
      with the same table. */
  lemma MoveToFrontConsistent(list: seq<Object>, table: map<string, Object>, size: nat,
                              files: map<string, Bytes>, e: Object)
    requires Consistent(list, table, size, files) && e in list
    ensures Consistent([e] + Without(list, e), table, size, files)
  {
    var i :| 0 <= i < |list| && list[i] == e;
    MoveToFrontPreserves(list, i);
    var w := Without(list, e);
    assert Index([e] + w) == Index(w)[e.key := e] by {
      assert ([e] + w)[1..] == w;
    }
    assert Index(w) == table - {e.key} by {
      IndexWithout(list, i);
    }
    assert e.key in table && table[e.key] == e by {
      IndexFacts(list);
    }
    MapRestore(table, e.key, e);
  }

  lemma MapRestore<K, V>(m: map<K, V>, k: K, v: V)
    requires k in m && m[k] == v
    ensures (m - {k})[k := v] == m
  {
  }

  /** `addNew`'s insertion: a fresh entry whose key is not indexed, pushed on
      the front together with its file, keeps the state consistent. */
  lemma PushFrontPreserves(list: seq<Object>, table: map<string, Object>, size: nat,
                           files: map<string, Bytes>, e: Object, value: Bytes)
    requires Consistent(list, table, size, files)
    requires e.key !in table && e.size == |value|
    ensures Consistent([e] + list, table[e.key := e], size + e.size, files[e.key := value])
  {
    IndexFacts(list);
    forall o | o in list ensures o.key != e.key {
      assert o.key in KeySet(list);
    }
    ConsDistinct(e, list);
    assert ([e] + list)[1..] == list;
  }

  // ---------------------------------------------------------------------------
  // The cache

  class Cache {
    /** `list`: recency order, front = most recently used. */
    var list: seq<Object>
    /** `table`: key -> its list element. */
    var table: map<string, Object>
    /** `size`: running byte total of the entries. */
    var size: nat
    const maxSize: nat
    /** The files under the cache directory, named by key. */
    var files: map<string, Bytes>

    /** The cache's invariant, over its current state. */
    ghost predicate Valid()
      reads this
    {
      Consistent(list, table, size, files) && size <= maxSize
    }

    /** `New`, without the boot-time wipe: an empty cache over the files
        already present. */
    constructor (maxSize: nat, files: map<string, Bytes>)
      ensures Valid()
      ensures list == [] && table == map[] && size == 0
      ensures this.maxSize == maxSize && this.files == files
    {
      this.list := [];
      this.table := map[];
      this.size := 0;
      this.maxSize := maxSize;
      this.files := files;
    }

    /** Under the invariant, the table holds exactly the list's keys, each
        mapped to the list element that carries it. */
    lemma TableMatchesList()
      requires Valid()
      ensures table.Keys == KeySet(list)
      ensures forall k :: k in table ==> table[k] in list && table[k].key == k
      ensures forall o :: o in list ==> o.key in table && table[o.key] == o
    {
      IndexFacts(list);
    }

    // --- the file-system calls the cache makes ---------------------------

    /** `os.Stat(path)` followed by `os.IsNotExist(err)`: true only when the
        file is absent and no other error occurred. */
    method StatNotExist(key: string, fails: bool) returns (notExist: bool)
      ensures notExist == (key !in files && !fails)
    {
      notExist := key !in files && !fails;
    }

    /** `ioutil.ReadFile`. */
    method ReadFile(key: string, fails: bool) returns (data: Bytes, ok: bool)
      ensures ok == (key in files && !fails)
      ensures ok ==> data == files[key]
      ensures !ok ==> data == []
    {
      if key in files && !fails {
        data, ok := files[key], true;
      } else {
        data, ok := [], false;
      }
    }

    /** `ioutil.WriteFile`. */
    method WriteFile(key: string, data: Bytes, fails: bool) returns (ok: bool)
      modifies this`files
      ensures ok == !fails
      ensures files == if ok then old(files)[key := data] else old(files)
    {
      ok := !fails;
      if ok {
        files := files[key := data];
      }
    }

    /** `os.Remove`: an error when the file does not exist. */
    method Remove(key: string, fails: bool) returns (ok: bool)
      modifies this`files
      ensures ok == (key in old(files) && !fails)
      ensures files == if ok then old(files) - {key} else old(files)
    {
      ok := key in files && !fails;
      if ok {
        files := files - {key};
      }
    }

    /** `os.RemoveAll`: a missing file is not an error; the error is ignored
        by every caller, so it is not returned. */
    method RemoveAll(key: string, fails: bool)
      modifies this`files
      ensures files == if fails then old(files) else old(files) - {key}
    {
      if !fails {
        files := files - {key};
      }
    }

    // --- the cache operations --------------------------------------------

    /** `moveToFront`: promote an entry to the front and stamp it. */
    method MoveToFront(e: Object, now: Time)
      requires Valid() && e in list
      modifies this`list, e
      ensures Valid()
      ensures list == [e] + Without(old(list), e)
      ensures e.accessTime == now
      ensures table == old(table) && size == old(size) && files == old(files)
    {
      MoveToFrontConsistent(list, table, size, files, e);
      list := [e] + Without(list, e);
      e.accessTime := now;
    }

    /** `Get`: a miss changes nothing; a hit promotes the entry, then returns
        its file's bytes unless the read fails. */
    method Get(key: string, now: Time, readFails: bool) returns (value: Bytes, ok: bool)
      requires Valid()
      modifies this`list, list
      ensures Valid()
      ensures ok == (key in old(table) && !readFails)
      ensures ok ==> value == files[key]
      ensures !ok ==> value == []
      ensures key !in old(table) ==> list == old(list)
      ensures key in old(table) ==>
        list == [old(table)[key]] + Without(old(list), old(table)[key]) && list[0].accessTime == now
      ensures forall o :: o in old(list) && o.key != key ==> o.accessTime == old(o.accessTime)
      ensures table == old(table) && size == old(size) && files == old(files)
    {
      if key !in table {
        return [], false;
      }
      TableMatchesList();
      var element := table[key];
      MoveToFront(element, now);
      value, ok := ReadFile(element.key, readFails);
    }

    /** `Set`: a present key is only promoted (its bytes and size are kept);
        an absent key goes to `addNew`. */
    method Set(key: string, value: Bytes, now: Time, statFails: bool, writeFails: bool,
               evictFails: string -> bool)
      requires Valid()
      modifies this`list, this`table, this`size, this`files, list
      ensures Valid()
      ensures key in old(table) ==>
        && list == [old(table)[key]] + Without(old(list), old(table)[key])
        && list[0].accessTime == now
        && table == old(table) && size == old(size) && files == old(files)
      ensures key !in old(table) && |value| > maxSize ==>
        list == old(list) && table == old(table) && size == old(size) && files == old(files)
      ensures key !in old(table) && |value| <= maxSize ==>
        var kept := Trimmed(old(list), old(size) + |value|, maxSize);
        var evicted := KeySet(old(list)[|kept|..]);
        var cleaned := old(files) - Removed(evicted, evictFails);
        var stored := key !in old(files) && !statFails && !writeFails;
        && (stored ==>
              && |list| == |kept| + 1 && list[1..] == kept
              && fresh(list[0]) && list[0].key == key && list[0].size == |value|
              && list[0].accessTime == now
              && table == (old(table) - evicted)[key := list[0]]
              && size == Sum(kept) + |value|
              && files == cleaned[key := value])
        && (!stored ==> list == kept && table == old(table) - evicted && files == cleaned)
        && size <= maxSize
      ensures forall o :: o in old(list) && o.key != key ==> o.accessTime == old(o.accessTime)
    {
      if key in table {
        TableMatchesList();
        MoveToFront(table[key], now);
      } else {
        AddNew(key, value, now, statFails, writeFails, evictFails);
      }
    }

    /** `addNew`: reject a payload larger than `maxSize`; otherwise trim for
        the future size FIRST, then write the file and index the entry only
        if the file did not exist and the write succeeded. */
    method AddNew(key: string, value: Bytes, now: Time, statFails: bool, writeFails: bool,
                  evictFails: string -> bool)
      requires Valid() && key !in table
      modifies this`list, this`table, this`size, this`files
      ensures Valid()
      ensures |value| > maxSize ==>
        list == old(list) && table == old(table) && size == old(size) && files == old(files)
      ensures |value| <= maxSize ==>
        var kept := Trimmed(old(list), old(size) + |value|, maxSize);
        var evicted := KeySet(old(list)[|kept|..]);
        var cleaned := old(files) - Removed(evicted, evictFails);
        var stored := key !in old(files) && !statFails && !writeFails;
        && (stored ==>
              && |list| == |kept| + 1 && list[1..] == kept
              && fresh(list[0]) && list[0].key == key && list[0].size == |value|
              && list[0].accessTime == now
              && table == (old(table) - evicted)[key := list[0]]
              && size == Sum(kept) + |value|
              && files == cleaned[key := value])
        && (!stored ==> list == kept && table == old(table) - evicted && files == cleaned)
        && size <= maxSize
    {
      var n := |value|;
      if n > maxSize {
        return;
      }
      var newObject := new Object(key, n, now);
      ghost var list0, files0 := list, files;
      TableMatchesList();
      Trim(size + n, evictFails);
      TrimmedFits(list0, n, maxSize);
      ghost var evicted := KeySet(list0[|list|..]);
      assert key !in evicted by {
        forall o | o in list0[|list|..] ensures o.key != key {
          assert o in list0;
        }
      }
      assert (key in files) == (key in files0);
      StoreNew(newObject, value, statFails, writeFails);
    }

    /** The tail of `addNew`, after the trim: stat the file, and only when it
        does not exist write it and, if the write succeeds, push the new
        entry in front, index it and add its size. */
    method StoreNew(e: Object, value: Bytes, statFails: bool, writeFails: bool)
      requires Valid() && e.key !in table && e.size == |value|
      requires size + e.size <= maxSize
      modifies this`list, this`table, this`size, this`files
      ensures Valid()
      ensures var stored := e.key !in old(files) && !statFails && !writeFails;
        && (stored ==>
              && list == [e] + old(list) && table == old(table)[e.key := e]
              && size == old(size) + e.size && files == old(files)[e.key := value])
        && (!stored ==>
              list == old(list) && table == old(table) && size == old(size) && files == old(files))
    {
      var notExist := StatNotExist(e.key, statFails);
      if notExist {
        var ok := WriteFile(e.key, value, writeFails);
        if !ok {
          return;
        }
        PushFrontPreserves(list, table, size, files, e, value);
        list := [e] + list;
        table := table[e.key := e];
        size := size + e.size;
      }
    }

    /** `trim(futureSize)`: while `futureSize > maxSize`, evict the back
        entry, remove its file (ignoring failure), and take its size off both
        `size` and `futureSize`; stop early when the list is empty. */
    method Trim(futureSize: nat, evictFails: string -> bool)
      requires Valid() && futureSize >= size
      modifies this`list, this`table, this`size, this`files
      ensures Valid()
      ensures list == Trimmed(old(list), futureSize, maxSize)
      ensures table == old(table) - KeySet(old(list)[|list|..])
      ensures files == old(files) - Removed(KeySet(old(list)[|list|..]), evictFails)
    {
      var future: int := futureSize;
      ghost var list0, table0, files0 := list, table, files;
      ghost var kept := KeptCount(list0, |list0|, futureSize, maxSize);
      ghost var evicted: set<string> := {};
      while future > maxSize
        invariant Valid()
        invariant |list| <= |list0| && list == list0[..|list|]
        invariant KeptCount(list0, |list|, future, maxSize) == kept
        invariant future - size == futureSize - old(size) && future >= size
        invariant evicted == KeySet(list0[|list|..])
        invariant table == table0 - evicted
        invariant files == files0 - Removed(evicted, evictFails)
        decreases |list|
      {
        if list == [] {
          return;
        }
        ghost var n := |list|;
        ghost var back := list0[n - 1];
        ghost var before := future;
        KeySetSuffix(list0, n);
        RemovedInsert(evicted, back.key, evictFails);
        MinusStep(table0, evicted, back.key);
        FilesStep(files0, Removed(evicted, evictFails), back.key, evictFails(back.key));
        var element := EvictBack(evictFails);
        assert element == back && list == list0[..n - 1] && |list| == n - 1;
        future := future - element.size;
        KeptCountStep(list0, n, before, maxSize, future);
        evicted := evicted + {element.key};
      }
    }

    /** One pass of `trim`'s loop: unlink the back entry, remove its file
        (ignoring failure), drop it from the table and take its size off. */
    method EvictBack(evictFails: string -> bool) returns (element: Object)
      requires Valid() && list != []
      modifies this`list, this`table, this`size, this`files
      ensures Valid()
      ensures element == old(list)[|old(list)| - 1]
      ensures list == old(list)[..|old(list)| - 1]
      ensures table == old(table) - {element.key}
      ensures size == old(size) - element.size
      ensures files == if evictFails(element.key) then old(files) else old(files) - {element.key}
    {
      element := list[|list| - 1];
      EvictBackPreserves(list, table, size, files, !evictFails(element.key));
      list := list[..|list| - 1];
      RemoveAll(element.key, evictFails(element.key));
      table := table - {element.key};
      size := size - element.size;
    }

    /** `Delete`: false, with nothing changed, when the key is absent or its
        file cannot be removed; otherwise the entry and its file are gone and
        `size` drops by exactly the entry's size. */
    method Delete(key: string, removeFails: bool) returns (ok: bool)
      requires Valid()
      modifies this`list, this`table, this`size, this`files
      ensures Valid()
      ensures ok == (key in old(table) && !removeFails)
      ensures ok ==>
        && list == Without(old(list), old(table)[key])
        && table == old(table) - {key}
        && size == old(size) - old(table)[key].size
        && files == old(files) - {key}
      ensures !ok ==>
        list == old(list) && table == old(table) && size == old(size) && files == old(files)
    {
      if key !in table {
        return false;
      }
      var element := table[key];
      ok := Remove(key, removeFails);
      if !ok {
        return;
      }
      DeletePreserves(list, table, size, old(files), key);
      list := Without(list, element);
      table := table - {key};
      size := size - element.size;
    }

    /** `Clear`: remove every indexed file (ignoring failures), then empty the
        list, the table and the size. */
    method Clear(removeFails: string -> bool)
      requires Valid()
      modifies this`list, this`table, this`size, this`files
      ensures Valid()
      ensures list == [] && table == map[] && size == 0
      ensures files == old(files) - Removed(KeySet(old(list)), removeFails)
    {
      ClearFiles(removeFails);
      list := [];
      table := map[];
      size := 0;
    }

    /** `clearFiles`: `os.RemoveAll` on the file of every key, front to back. */
    method ClearFiles(removeFails: string -> bool)
      modifies this`files
      ensures files == old(files) - Removed(KeySet(list), removeFails)
    {
      var ks := Keys();
      for i := 0 to |ks|
        invariant files == old(files) - (set k | k in ks[..i] && !removeFails(k))
      {
        RemoveAll(ks[i], removeFails(ks[i]));
        assert ks[..i + 1] == ks[..i] + [ks[i]];
      }
      assert ks[..|ks|] == ks;
      assert (set k | k in ks) == KeySet(list) by {
        forall k ensures k in ks <==> k in KeySet(list) {
          if k in ks {
            var j :| 0 <= j < |ks| && ks[j] == k;
            assert list[j] in list;
          }
          if k in KeySet(list) {
            var o :| o in list && o.key == k;
            var j :| 0 <= j < |list| && list[j] == o;
            assert ks[j] == k;
          }
        }
      }
    }

    /** `keys`: the keys front to back, i.e. from most to least recently used. */
    method Keys() returns (ks: seq<string>)
      ensures |ks| == |list|
      ensures forall i :: 0 <= i < |list| ==> ks[i] == list[i].key
    {
      ks := [];
      var i := 0;
      while i < |list|
        invariant 0 <= i <= |list|
        invariant |ks| == i
        invariant forall j :: 0 <= j < i ==> ks[j] == list[j].key
      {
        ks := ks + [list[i].key];
        i := i + 1;
      }
    }

    /** `Size`: the running total, which the invariant ties to the entries. */
    method Size() returns (s: nat)
      requires Valid()
      ensures s == Sum(list)
    {
      s := size;
    }

    /** `MaxSize`. */
    method MaxSize() returns (m: nat)
      ensures m == maxSize
    {
      m := maxSize;
    }

    /** `Oldest`: the access time of the least recently used entry, or the
        zero time when the cache is empty. */
    method Oldest() returns (t: Time)
      ensures list == [] ==> t == 0
      ensures list != [] ==> t == list[|list| - 1].accessTime
    {
      t := 0;
      if list != [] {
        t := list[|list| - 1].accessTime;
      }
    }
  }
}
