# A verified model of a disk-backed LRU cache

This project models the cache engine of a small Go library (`lru.go`). It stores
byte payloads as one file per key in a directory and keeps their total size
under a fixed budget, `maxSize`, by evicting the least recently used entries.
The engine keeps four pieces of state:

- a recency list, front = most recently used, back = least recently used;
- a table from key to list element;
- a running byte total, `size`;
- the constant `maxSize`.

The model is imperative, like the source:

- `Lru.Cache` is a class with these fields, plus `files`. `files` is the cache
  directory as a map from key to bytes.
- The list is a `seq<Object>` that the methods reassign.
- Each entry is an `Object` whose access time is updated in place.
- Every file-system call that can fail takes its outcome as a parameter. For
  `os.Stat`, `ioutil.ReadFile`, `ioutil.WriteFile` and `os.Remove` it is a
  boolean. For the `os.RemoveAll` calls made per evicted or cleared key it is a
  predicate on keys. The contracts therefore state both the success and the
  failure branches.
- The clock is a `now` parameter.

The cache invariant is `Lru.Cache.Valid`, which is `Lru.Consistent` plus the
size bound:

- the keys in the list are distinct;
- the table is exactly the list's index (each key mapped to the element that
  carries it);
- `size` is the sum of the entry sizes;
- every indexed key has its file;
- `size <= maxSize`.

Every operation preserves it. `trim` is specified by the function
`Lru.Trimmed`, the prefix of the list of length `Lru.KeptCount`. `KeptCount`
mirrors the loop: take entries off the back, subtracting their sizes from the
future size, until the future size fits or the list is empty. Lemmas
characterise `Trimmed`:

- it is always a prefix of the list;
- it stops at the first point where the future size fits;
- it evicts only while nothing fits;
- when the future size is the current total plus one payload that fits on its
  own, what remains plus that payload fits.

`LruScenarios` replays two things against the operations' contracts:

- the library's eviction test;
- the round trip "Set then Get returns the payload".

`addNew` calls `trim(size + len(value))` **before** it stats and writes the
file (`lru.go:231-234`), not after the insert. As a result:

- a `Set` that ends up not storing anything can still evict entries;
- a new entry is never evicted by its own `Set`.

## Model

| member | source | states |
|---|---|---|
| Lru.Cache.constructor | lru.go:53-71 | a new cache has an empty list and table, size 0, the given `maxSize`, and satisfies the invariant |
| Lru.Cache.TableMatchesList | lru.go:28-39 | under the invariant the table holds exactly the list's keys, each mapped to the list element carrying that key |
| Lru.IndexFacts | lru.go:28-39 | the index of a list with distinct keys has exactly the list's keys, maps each element's key to that element, and maps every key to an element with that key |
| Lru.IndexUnique | lru.go:28-39 | any map with the list's keys that sends each element's key to that element equals the list's index |
| Lru.Cache.Get | lru.go:83-102 | a miss returns (nil, false) and changes nothing; a hit moves the entry to the front, stamps it and returns the file's bytes, or (nil, false) when the read fails; the table, size, files and other access times are unchanged; the invariant is kept |
| Lru.Cache.MoveToFront | lru.go:214-217 | the element is first, the others keep their relative order, its access time is `now`, and table, size and files are unchanged |
| Lru.MoveToFrontPreserves | lru.go:214-217 | moving an element to the front keeps the keys distinct, keeps the same members and keeps the total size |
| Lru.MoveToFrontConsistent | lru.go:214-217 | moving an indexed element to the front keeps the invariant with the same table |
| Lru.Cache.Set | lru.go:134-143 | a present key is only moved to the front and stamped; an absent oversized payload changes nothing; otherwise the list is trimmed for `size + len(value)` and the entry is stored in front only when the file did not exist and both stat and write succeed; in every case size <= maxSize and the invariant holds |
| Lru.Cache.AddNew | lru.go:219-248 | the same outcome as `Set` on an absent key: oversized is a no-op; the trim happens first; the new entry goes in front with size `len(value)`, or nothing is indexed on stat or write failure; evicted keys leave the table and their files are gone unless removal failed; size <= maxSize |
| Lru.Cache.StoreNew | lru.go:233-247 | if the file is absent and the write succeeds, the entry is pushed in front, indexed, its size is added and its file is written; otherwise nothing changes |
| Lru.PushFrontPreserves | lru.go:241-243 | pushing a new-keyed entry in front with its file keeps the invariant with the table, size and files extended |
| Lru.TrimmedFits | lru.go:224-231 | when a payload fits `maxSize` on its own, what trim leaves of the list plus that payload fits `maxSize` |
| Lru.Cache.Trim | lru.go:250-272 | given a future size at least `size` (as `addNew` passes), the list becomes `Trimmed(old list, futureSize, maxSize)`; exactly the evicted keys leave the table; their files are removed unless removal fails; the invariant is kept; the loop keeps `futureSize - size` constant, so the unsigned `futureSize` never goes below `size` |
| Lru.Cache.EvictBack | lru.go:252-269 | one pass of the trim loop: the back element is unlinked and unindexed, its size is subtracted, and its file is removed unless removal fails |
| Lru.EvictBackPreserves | lru.go:259-269 | evicting the back entry, with or without removing its file, keeps the invariant, and its size is at most `size` (no unsigned underflow) |
| Lru.TrimmedStops | lru.go:250-272 | trim leaves a prefix of the list; it stops at the first cut from the back where the future size minus the evicted sizes fits, or when the list is empty; it never evicts past that point |
| Lru.KeptCountFits | lru.go:251-272 | where the trim loop stops, the remaining future size fits unless the list is empty |
| Lru.KeptCountMinimal | lru.go:251-272 | before the trim loop stops, the remaining future size never fits |
| Lru.KeptCount | lru.go:251-271 | the number of entries the trim loop keeps is at most the list's length, and is less only when the future size exceeds `maxSize` |
| Lru.Trimmed | lru.go:250-272 | what trim leaves is a prefix of the list, and the whole list when the future size already fits |
| Lru.Without | lru.go:161 | unlinking an element gives a list no longer than before, holding exactly the old elements other than that one |
| Lru.Cache.Delete | lru.go:145-167 | returns true exactly when the key is indexed and its file is removed; then the element is unlinked, the key is unindexed and size drops by exactly the entry's size; otherwise nothing changes |
| Lru.DeletePreserves | lru.go:145-167 | unlinking an indexed entry and removing its file keeps the invariant, and its size is at most `size` |
| Lru.RemovePreserves | lru.go:161-164 | unlinking one element keeps the keys distinct, removes exactly that element and its key, and lowers the sum by exactly its size |
| Lru.WithoutAt | lru.go:161 | unlinking the element at position i of a list with distinct keys leaves exactly the other positions, in order |
| Lru.DropLast | lru.go:259 | dropping the back element keeps the keys distinct, removes exactly that element and its key, and lowers the sum by its size |
| Lru.IndexWithout | lru.go:161-162 | unlinking a position removes exactly its key from the index |
| Lru.IndexDropLast | lru.go:259-267 | dropping the back element removes exactly its key from the index |
| Lru.Cache.Clear | lru.go:169-177 | list, table and size are empty and zero; exactly the keys whose removal did not fail lose their files |
| Lru.Cache.ClearFiles | lru.go:274-278 | `RemoveAll` is called on the file of every indexed key; files are removed exactly for those keys whose removal did not fail |
| Lru.Cache.Keys | lru.go:204-212 | returns one key per list element, in list order from front to back |
| Lru.Cache.Size | lru.go:179-184 | returns the sum of the sizes of the cached entries |
| Lru.Cache.MaxSize | lru.go:186-191 | returns the fixed capacity |
| Lru.Cache.Oldest | lru.go:193-202 | returns the zero time when the list is empty, else the back entry's access time |
| Lru.Cache.StatNotExist | lru.go:233 | reports "does not exist" exactly when the file is absent and the stat did not fail otherwise |
| Lru.Cache.ReadFile | lru.go:95 | returns the file's bytes, or failure when it is absent or the read fails |
| Lru.Cache.WriteFile | lru.go:234 | on success the file holds the bytes; on failure the files are unchanged |
| Lru.Cache.Remove | lru.go:155 | fails on a missing file or an I/O error; on success exactly that file is gone |
| Lru.Cache.RemoveAll | lru.go:263 | removes the file unless the call fails; a missing file is not an error |
| LruScenarios.SetFits | lru_test.go:167-169 | a `Set` of a new key that fits with no failure evicts nothing and puts the key in front; size grows by the payload length |
| LruScenarios.GetAt | lru_test.go:171-173 | a `Get` hit on the entry at position i moves exactly that entry to the front |
| LruScenarios.FillThree | lru_test.go:162-169 | three `Set`s of equal payloads into a cache sized for three fill it exactly, with key3, key2, key1 from front to back |
| LruScenarios.TouchAll | lru_test.go:171-173 | reading the three entries in recency order reverses the list |
| LruScenarios.SetEvictsBack | lru_test.go:175 | a new key of the same size into the full cache evicts exactly the back entry |
| LruScenarios.LruIsEvicted | lru_test.go:156-181 | after the reads, setting key0 evicts key3 and a `Get` of key3 misses |
| LruScenarios.SetThenGet | lru_test.go:22-41 | with no failure, `Set` of a new key that fits `maxSize`, followed by `Get`, returns the payload, and size <= maxSize |

## Left out

- The mutex embedded in `Cache`: every operation is modelled as one atomic step.
- `GetBuffer` and the buffer pool: a second read path that returns a pooled buffer instead of a slice.
- `Debug` and the `debug` flag: logging only.
- The directory wipe in `New` when `ClearCacheOnBoot` is set. The constructor takes the existing files as a parameter instead.
- `hashCacheKey` and `FilePath`: files are keyed by the cache key itself. Two keys whose hashes collide are therefore not modelled.
- The directory as a real file system: `files` changes only through the cache's own calls. A file deleted or changed from outside is not modelled.
- `os.Stat` errors other than "does not exist" all count as "exists". This is what the Go code does, since it only tests `os.IsNotExist`.
- Partial writes: a failed `ioutil.WriteFile` leaves `files` unchanged.
- `time.Now`: a `now` parameter. Time 0 stands for Go's zero `time.Time`.
- The list element and its `*object` payload are collapsed into one `Object` node.
- Lru.Cache.AddNew: `size + len(value)` and the `uint64` counters are unbounded integers, so a 64-bit wrap-around on addition is not modelled. The subtractions cannot go below zero: `EvictBackPreserves` and `DeletePreserves` show it for `cache.size`, and `Trim`'s loop invariant `future >= size` shows it for `futureSize`.
- The example program and the options struct (`Options`): they are not part of the engine.
