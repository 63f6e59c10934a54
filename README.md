# rache — a verified model of the bounded LRU cache

rache is a generic in-memory cache with a fixed entry limit. When a new key
arrives and the cache is full, it evicts the key used least recently. The
cache is a key-to-entry map with three counters: total reads, successful
reads and total writes. Each entry counts its own reads and writes. The
eviction policy keeps every key in a doubly linked list, most recently
touched first, and evicts the tail.

The model has two modules, one per source file.

- `DoublyLinkedList` (`dll.dfy`) models `rache/dll.go`.
  - `Node` and `DLL` are classes with real `next`/`prev` pointers, and every
    operation changes them in place.
  - The list also keeps two ghost sequences: `Nodes`, its nodes from head to
    tail, and `Contents`, the values they hold. `Valid()` ties them to
    `head`, `tail`, `size` and the links.
  - Each operation's effect is stated on `Contents`: prepend, append,
    first-occurrence search, removal of the first occurrence, and removal
    of the last element. Every operation preserves `Valid()`.
- `Rache` (`rache.dfy`) models `rache/rache.go`.
  - `LRUPolicy` owns a `DLL` of keys.
  - `Cache` owns the map, the counters and an `LRUPolicy`.
- The wall-clock `lastAccessed` stamps become a ghost logical clock.
  `Cache` carries a tick counter, `clock`, and the tick at which each key
  was last touched, `lastTouch`. That is enough to state that the evicted
  key is the one touched least recently, as the comment at
  rache/rache.go:96-107 describes.

The cache invariant is `Cache.Valid()`, built on the heap-free predicate
`Coherent`. It says three things:
- the map holds at most `limit` entries;
- the recency list has no duplicates and is as long as the map;
- the list orders keys of the map by strictly decreasing touch time.

`KeysAgree` derives from it that the list and the map hold exactly the
same keys. `Put`, `Get` and every policy operation preserve the
invariant. So eviction in a full cache always names a key of the map, and
the map never grows past `limit`.

`MoveToFront` is the recency list after a key is touched, written as a
function on sequences. `LRUPolicy.Update` is proved to compute it, and
lemmas show that it keeps every other key in its relative order.

## Model

| member | source | states |
|---|---|---|
| DoublyLinkedList.IndexOf | rache/dll.go:30-40 | the position of the first occurrence: it holds the value and no earlier position does |
| DoublyLinkedList.RemoveFirst | rache/dll.go:43-60 | removing the first occurrence leaves the sequence alone when the value is absent and shortens it by one when present |
| DoublyLinkedList.RemoveFirstMultiset | rache/dll.go:43-60 | exactly one copy of the value goes; every other value keeps its count |
| DoublyLinkedList.RemoveFirstIsSplice | rache/dll.go:48-59 | the removal cuts the sequence at the first occurrence and keeps both sides in order |
| DoublyLinkedList.RemoveFirstNoDup | rache/dll.go:43-60 | on a duplicate-free list the removal keeps it duplicate-free and drops exactly that value |
| DoublyLinkedList.Node.constructor | rache/dll.go:3-7 | a new node holds its value and has no neighbours |
| DoublyLinkedList.DLL.Valid | rache/dll.go:9-13 | the representation invariant: `size` counts the nodes, `head` and `tail` are the first and last node and are nil exactly when `size` is 0, and `next`/`prev` link neighbours both ways |
| DoublyLinkedList.DLL.constructor | rache/dll.go:9-13 | the zero `DLL` is a valid empty list |
| DoublyLinkedList.DLL.InsertFront | rache/dll.go:16-27 | contents become `[v] + old`; the head holds `v`, has no `prev`, and is followed by the old head; size grows by 1; a non-empty list keeps its tail |
| DoublyLinkedList.DLL.PrependedValid | rache/dll.go:16-27 | linking a new node before the old first node leaves a valid list |
| DoublyLinkedList.DLL.Find | rache/dll.go:30-40 | returns nil exactly when the value is absent, and otherwise the node at its first occurrence |
| DoublyLinkedList.DLL.Remove | rache/dll.go:43-60 | reports whether the value was present; contents lose its first occurrence only; size drops by 1 on success; an absent value changes nothing |
| DoublyLinkedList.DLL.Unlink | rache/dll.go:48-59 | splicing out the `i`-th node removes exactly position `i` from the nodes and contents, fixes `head`/`tail`, and drops size by 1 |
| DoublyLinkedList.DLL.UnlinkedValid | rache/dll.go:48-59 | bypassing node `i` in both directions leaves a valid list |
| DoublyLinkedList.DLL.InsertBack | rache/dll.go:63-74 | contents become `old + [v]`; the tail holds `v`, has no `next`, and its `prev` is the old tail; size grows by 1; a non-empty list keeps its head |
| DoublyLinkedList.DLL.AppendedValid | rache/dll.go:63-74 | linking a new node after the old last node leaves a valid list |
| DoublyLinkedList.DLL.DeleteBack | rache/dll.go:77-91 | on an empty list returns not-ok and changes nothing; otherwise returns the last value, leaves all but the last element in order, and drops size by 1 |
| DoublyLinkedList.FrontFour | rache/dll_test.go:7-24 | inserting 1, 2, 3, 4 at the front gives 4 -> 3 -> 2 -> 1 with head 4 and tail 1 |
| DoublyLinkedList.FindInFour | rache/dll_test.go:26-45 | in 4 -> 3 -> 2 -> 1, the node found for 3 sits between 4 and 2, and 6 is not found |
| DoublyLinkedList.RemoveThenDelete | rache/dll_test.go:46-77 | removing 3 succeeds and 3 is then not found, removing 5 fails, and the back value is 1 |
| DoublyLinkedList.DeleteFromEmpty | rache/dll_test.go:78-88 | deleting from an empty list reports not-ok |
| DoublyLinkedList.BackFour | rache/dll_test.go:89-111 | inserting 1, 2, 3, 4 at the back gives head 1 and tail 4 with nil `next` |
| Rache.MoveToFront | rache/rache.go:128-135 | touching a key not in the list leaves it unchanged; touching one in it keeps the length and puts the key first |
| Rache.MoveToFrontKeepsOthers | rache/rache.go:96-107 | after moving a key to the front, the other keys keep their relative order |
| Rache.MoveToFrontNoDup | rache/rache.go:128-135 | moving a key to the front keeps the list duplicate-free and keeps its key set |
| Rache.MoveToFrontExample | rache/rache.go:102-107 | the walk-through 1->2->3, then touching 2, 3 and 2 gives 2->1->3, 3->2->1 and 2->3->1 |
| Rache.ByRecency | rache/rache.go:96-107 | the recency order: every key in the list has a touch time, and times strictly decrease from head to tail; every listed key is a touched key |
| Rache.Coherent | rache/rache.go:26-34 | the value part of the cache invariant: `0 <= limit`, at most `limit` entries, a duplicate-free recency list as long as the map, touch times for exactly the map's keys and all before the clock, and the list ordered by recency; so the list is never longer than `limit` |
| Rache.ByRecencyNoDup | rache/rache.go:96-100 | a list ordered by strictly decreasing touch time has no duplicates |
| Rache.TouchKeepsRecency | rache/rache.go:99-100 | moving the key touched now to the front keeps the list ordered by recency |
| Rache.EvictKeepsRecency | rache/rache.go:117-121 | dropping the tail and its touch time keeps the rest ordered |
| Rache.CoversKeys | rache/rache.go:57-70 | a recency list as long as the set of touched keys holds exactly those keys |
| Rache.KeyInRecency | rache/rache.go:68-69 | that covering, one key at a time: a touched key is in the list |
| Rache.LastIsLeastRecent | rache/rache.go:106-107 | the tail of a covering recency list is the least recently touched key |
| Rache.TouchKeepsCoherent | rache/rache.go:68-74 | an overwrite or a hit (new entry, touched now, moved to the front) keeps the cache invariant |
| Rache.AddKeepsCoherent | rache/rache.go:57-67 | a new key added while there is room, touched now and put in front, keeps the cache invariant |
| Rache.EvictKeepsCoherent | rache/rache.go:59-63 | in a non-empty cache the tail is a key of the map, is least recently touched, and removing it keeps the invariant |
| Rache.LRUPolicy.Valid | rache/rache.go:108-115 | the policy owns its list, the list's footprint lies within the policy's and excludes the policy, and the list is valid |
| Rache.LRUPolicy.constructor | rache/rache.go:112-115 | a new policy holds an empty valid list |
| Rache.LRUPolicy.Evict | rache/rache.go:117-121 | reports a victim exactly when the list is non-empty; the victim is the tail, which leaves the list; the map is not consulted |
| Rache.LRUPolicy.Insert | rache/rache.go:123-126 | the key goes in front of the recency list |
| Rache.LRUPolicy.Update | rache/rache.go:128-135 | the recency list becomes `MoveToFront(old, k)`; an absent key changes nothing |
| Rache.Cache.Valid | rache/rache.go:26-34 | the cache invariant: the policy is valid and owned by the cache, `successfulReads <= totalReads`, and `Coherent` holds of the recency list, the map, the touch times, the clock and the limit; so the map never holds more than `limit` entries |
| Rache.Cache.KeysAgree | rache/rache.go:26-34 | in a valid cache the recency list and the map hold the same keys |
| Rache.Cache.constructor | rache/rache.go:36-43 | an empty valid cache with the given limit, zero counters and an empty recency list |
| Rache.Cache.Put | rache/rache.go:45-76 | returns whether the key was present. With limit 0 nothing changes. Otherwise `totalWrites` grows by 1. A present key gets the value and one more write and moves to the front. A new key in a cache with room gets a fresh entry (1 write) in front. A new key in a full cache first evicts the tail, a key of the map touched least recently, then goes in front, and its touch time is dropped. With limit above 0 the clock advances by one and the key's touch time becomes the old clock. The invariant is kept, so the map never holds more than `limit` entries |
| Rache.Cache.AddNew | rache/rache.go:65-74 | a new key gets an entry holding the value with one write and no reads, in front of the recency list, and is touched now |
| Rache.Cache.Overwrite | rache/rache.go:68-74 | a present key's entry takes the value, counts one more write, moves to the front and is touched now |
| Rache.Cache.EvictForRoom | rache/rache.go:58-64 | in a full cache the tail is evicted: it is a key of the map touched least recently, and it leaves the map and the list |
| Rache.Cache.RecordWrite | rache/rache.go:70-74 | the entry is stored and `totalWrites` grows by 1; the key is touched now |
| Rache.Cache.Get | rache/rache.go:78-94 | `totalReads` grows by 1. A miss returns not-ok and changes nothing else, the clock and the touch times included. A hit returns the stored value, counts a successful read and an entry read, moves the key to the front, advances the clock by one and records the old clock as the key's touch time. The invariant is kept |
| Rache.Cache.Hit | rache/rache.go:89-93 | a hit returns the value, counts one more read on the entry and one more successful read, moves the key to the front and touches it now |
| Rache.Cache.RecordHit | rache/rache.go:90-92 | the successful read is counted, the entry is stored back and the key is touched now |
| Rache.ReadAfterWrite | rache/rache_test.go:20-45 | in a cache with room for at least one entry, a `Put(k, v)` followed by `Get(k)` returns `(v, true)` |
| Rache.FillTwo | rache/rache_test.go:129-138 | with limit 2, writing 1 then 2 gives keys {1, 2} with 2 in front |
| Rache.EvictsLeastRecent | rache/rache_test.go:129-138 | writing 3 into that full cache evicts 1 and leaves keys {2, 3} with 3 in front |
| Rache.ReadSavesFromEviction | rache/rache.go:96-107 | in that full cache, reading 1 makes 2 the least recently touched key, so writing 3 evicts 2 and leaves keys {1, 3} with 3 in front |
| Rache.WriteMany | rache/rache_test.go:47-66 | after any number of writes of distinct keys the map holds at most `limit` entries |
| Rache.ZeroLimit | rache/rache.go:47-50 | with limit 0 a `Put` reports not-present and a following `Get` reports not-found |

## Left out

- Locking: the embedded `sync.Mutex` at rache/rache.go:27, 52-53 and 81-82, and the concurrent tests. `Put` and `Get` are modelled as sequential, atomic methods.
- The `lastAccessed = time.Now()` stamps at rache/rache.go:72 and 92. Nothing in the source reads them. The ghost `clock`/`lastTouch` pair stands in for them and only orders touches.
- The `Policy` interface at rache/rache.go:9-13. The cache holds the one concrete policy, `LRUPolicy`, directly, so there is no choice of policy at run time. The time-based policy and the public `Policy` field used in example/main.go are not part of the source and are not modelled.
- example/main.go is not part of this model; it is a demo that prints results.
- Rache.Cache.constructor: requires `entryLimit >= 0`. With a negative limit, `len(entries) == limit` never holds, so the Go map grows without bound; the model does not cover that case.
- The order of independent steps in `Put`. The source stores the new entry in the map and then calls `Insert` (rache/rache.go:66-67); the model calls `Insert` and then stores the entry. The source then fills the entry in through its pointer (rache/rache.go:71-74); the model stores the final entry by value. No caller can observe the difference, because the steps run under one lock and the pointer never leaves the cache.
- Go's `int` counters (64-bit on the usual platforms) and the list's `size` are unbounded integers in the model, so overflow is not modelled.
- The capacity hint of `make` (rache/rache.go:40) and the garbage collection of unlinked nodes. Unlinked nodes stay in the list's ghost footprint, which is harmless.
- Rache.Cache.Get: on a miss the returned value is not stated to be Go's zero value. Dafny gives a type parameter no zero value, so the model returns an arbitrary value of `V`.
- DoublyLinkedList.DLL.DeleteBack: on an empty list the returned value is not stated to be Go's zero value, for the same reason. The model returns an arbitrary value of `T`.
- DoublyLinkedList.DeleteFromEmpty: does not state the test's check that the returned value is 0 (rache/dll_test.go:85), because `DLL.DeleteBack` does not promise a zero value.
- The eviction-miss branch at rache/rache.go:60-64, where `Evict` finds nothing in a full cache. The invariant proves it unreachable whenever `limit > 0`, so the model has no case in which the map ends up over the limit.

## Notes on the source

- rache/rache_test.go:40-41 dereferences the value `Get` returns (`*val`), but `Get` at rache/rache.go:80 returns `V` itself. The model follows `Get`.
