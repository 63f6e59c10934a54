/** The bounded cache: a key-to-entry map, capacity `limit`, read/write
    counters, and the least-recently-used policy that keeps the keys in a
    doubly linked list, most recently touched first. */
module Rache {
  import opened DoublyLinkedList

  /** Per-entry counters (the wall-clock `lastAccessed` stamp is not kept;
      see `Cache.lastTouch`). */
  datatype Stats = Stats(readCount: nat, writeCount: nat)

  datatype Entry<V> = Entry(value: V, stats: Stats)

  // ---------------------------------------------------------------------
  // Recency order as a value

  /** The recency list after key `k` is touched: `k` moves to the front; a
      key that is not in the list leaves it as it is. */
  function MoveToFront<K(==)>(order: seq<K>, k: K): (r: seq<K>)
    ensures k !in order ==> r == order
    ensures k in order ==> |r| == |order| && r[0] == k
  {
    if k in order then [k] + RemoveFirst(order, k) else order
  }

  /** `s` with every occurrence of `k` dropped. */
  ghost function Without<K>(s: seq<K>, k: K): seq<K> {
    if s == [] then []
    else (if s[0] == k then [] else [s[0]]) + Without(s[1..], k)
  }

  lemma {:induction false} WithoutRemoveFirst<K>(s: seq<K>, k: K)
    ensures Without(RemoveFirst(s, k), k) == Without(s, k)
  {
    if s != [] && s[0] != k {
      WithoutRemoveFirst(s[1..], k);
      assert ([s[0]] + RemoveFirst(s[1..], k))[1..] == RemoveFirst(s[1..], k);
    }
  }

  /** Moving `k` to the front keeps every other key in its relative order. */
  lemma MoveToFrontKeepsOthers<K>(order: seq<K>, k: K)
    ensures Without(MoveToFront(order, k), k) == Without(order, k)
  {
    if k in order {
      var r := RemoveFirst(order, k);
      assert ([k] + r)[1..] == r;
      WithoutRemoveFirst(order, k);
    }
  }

  /** Moving a key to the front keeps the list duplicate-free and keeps its
      set of keys. */
  lemma MoveToFrontNoDup<K>(order: seq<K>, k: K)
    requires NoDup(order)
    ensures NoDup(MoveToFront(order, k))
    ensures Elements(MoveToFront(order, k)) == Elements(order)
  {
    if k in order {
      RemoveFirstNoDup(order, k);
      NoDupCons(k, RemoveFirst(order, k));
      assert Elements([k] + RemoveFirst(order, k)) == {k} + Elements(RemoveFirst(order, k));
    }
  }

  /** The walk-through in the comment above `LRUPolicy`: 1 -> 2 -> 3, then
      touching 2, 3 and 2 again leaves 1 at the tail. */
  lemma MoveToFrontExample()
    ensures MoveToFront([1, 2, 3], 2) == [2, 1, 3]
    ensures MoveToFront([2, 1, 3], 3) == [3, 2, 1]
    ensures MoveToFront([3, 2, 1], 2) == [2, 3, 1]
  {
    assert RemoveFirst([1, 2, 3], 2) == [1] + RemoveFirst([2, 3], 2);
    assert RemoveFirst([2, 1, 3], 3) == [2] + RemoveFirst([1, 3], 3);
    assert RemoveFirst([1, 3], 3) == [1] + RemoveFirst([3], 3);
    assert RemoveFirst([3, 2, 1], 2) == [3] + RemoveFirst([2, 1], 2);
  }

  /** `order` lists keys by strictly decreasing time of last touch `t`. */
  ghost predicate ByRecency<K>(order: seq<K>, t: map<K, nat>)
    ensures ByRecency(order, t) ==> forall k :: k in order ==> k in t
  {
    (forall i :: 0 <= i < |order| ==> order[i] in t) &&
    (forall i, j :: 0 <= i < j < |order| ==> t[order[i]] > t[order[j]])
  }

  lemma ByRecencyNoDup<K>(order: seq<K>, t: map<K, nat>)
    requires ByRecency(order, t)
    ensures NoDup(order)
  {
    forall i, j | 0 <= i < j < |order| ensures order[i] != order[j] {
      assert t[order[i]] > t[order[j]];
    }
  }

  /** A key without a recorded touch is not in the recency list. */
  lemma NotInRecency<K>(order: seq<K>, t: map<K, nat>, k: K)
    requires ByRecency(order, t) && k !in t
    ensures k !in order && RemoveFirst(order, k) == order
  {
  }

  /** Removing one position keeps a recency list ordered. */
  lemma SpliceKeepsRecency<K>(order: seq<K>, t: map<K, nat>, p: nat)
    requires ByRecency(order, t) && p < |order|
    ensures ByRecency(order[..p] + order[p + 1..], t)
  {
    var rest := order[..p] + order[p + 1..];
    assert forall i :: 0 <= i < |rest| ==> rest[i] == if i < p then order[i] else order[i + 1];
  }

  /** A key not in a recency list, touched later than every recorded touch,
      may go in front of it. */
  lemma ConsKeepsRecency<K>(k: K, rest: seq<K>, t: map<K, nat>, now: nat)
    requires ByRecency(rest, t) && k !in rest
    requires forall x :: x in t ==> t[x] < now
    ensures ByRecency([k] + rest, t[k := now])
  {
    var t' := t[k := now];
    forall i | 0 <= i < |rest| ensures t'[rest[i]] == t[rest[i]] {
      assert rest[i] in rest;
    }
    forall i, j | 0 <= i < j < |[k] + rest|
      ensures t'[([k] + rest)[i]] > t'[([k] + rest)[j]]
    {
      assert ([k] + rest)[j] == rest[j - 1];
      if 0 < i {
        assert ([k] + rest)[i] == rest[i - 1];
      }
    }
  }

  /** Touching `k` at a time later than every recorded touch and moving it
      to the front keeps the list ordered by recency. */
  lemma TouchKeepsRecency<K>(order: seq<K>, t: map<K, nat>, k: K, now: nat)
    requires ByRecency(order, t)
    requires forall x :: x in t ==> t[x] < now
    ensures ByRecency([k] + RemoveFirst(order, k), t[k := now])
  {
    ByRecencyNoDup(order, t);
    RemoveFirstNoDup(order, k);
    if k in order {
      RemoveFirstIsSplice(order, k);
      SpliceKeepsRecency(order, t, IndexOf(order, k));
    }
    ConsKeepsRecency(k, RemoveFirst(order, k), t, now);
  }

  /** Dropping the tail of a recency list (and its time) keeps the rest ordered. */
  lemma EvictKeepsRecency<K>(order: seq<K>, t: map<K, nat>)
    requires ByRecency(order, t) && order != []
    ensures ByRecency(order[..|order| - 1], t - {order[|order| - 1]})
  {
    ByRecencyNoDup(order, t);
    var n := |order| - 1;
    forall i | 0 <= i < n ensures order[i] != order[n] {
    }
  }

  /** A recency list as long as the key set of its times holds every key. */
  lemma CoversKeys<K>(order: seq<K>, t: map<K, nat>)
    requires ByRecency(order, t) && |order| == |t|
    ensures Elements(order) == t.Keys
  {
    ByRecencyNoDup(order, t);
    NoDupCard(order);
    var e := Elements(order);
    assert t.Keys + e == t.Keys && t.Keys * e == e;
    assert |t.Keys - e| == 0;
    assert t.Keys - e == {};
  }

  /** The same, one key at a time. */
  lemma KeyInRecency<K>(order: seq<K>, t: map<K, nat>, k: K)
    requires ByRecency(order, t) && |order| == |t| && k in t
    ensures k in order
  {
    CoversKeys(order, t);
    assert k in Elements(order);
  }

  /** The tail of a recency list covering all keys is the least recently
      touched key. */
  lemma LastIsLeastRecent<K>(order: seq<K>, t: map<K, nat>)
    requires ByRecency(order, t) && order != [] && |order| == |t|
    ensures forall x :: x in t ==> t[order[|order| - 1]] <= t[x]
  {
    CoversKeys(order, t);
    forall x | x in t ensures t[order[|order| - 1]] <= t[x] {
      assert x in Elements(order);
      var i :| 0 <= i < |order| && order[i] == x;
      assert i == |order| - 1 || t[order[i]] > t[order[|order| - 1]];
    }
  }

  /** The value part of the cache invariant: at most `limit` entries; a
      recency list as long as the map and ordered by touch times, which are
      recorded for exactly the map's keys and all lie before `clock`. */
  ghost predicate Coherent<K, V>(order: seq<K>, entries: map<K, Entry<V>>, t: map<K, nat>,
                                 clock: nat, limit: int)
    ensures Coherent(order, entries, t, clock, limit) ==> |order| <= limit
  {
    0 <= limit && |entries| <= limit &&
    NoDup(order) && |order| == |entries| && t.Keys == entries.Keys &&
    (forall k :: k in t ==> t[k] < clock) && ByRecency(order, t)
  }

  /** A hit or an overwrite: the key's entry changes, it is touched now, and
      it moves to the front. */
  lemma TouchKeepsCoherent<K, V>(order: seq<K>, entries: map<K, Entry<V>>, t: map<K, nat>,
                                 clock: nat, limit: int, key: K, e: Entry<V>)
    requires Coherent(order, entries, t, clock, limit) && key in entries
    ensures Coherent(MoveToFront(order, key), entries[key := e], t[key := clock], clock + 1, limit)
  {
    KeyInRecency(order, t, key);
    TouchKeepsRecency(order, t, key, clock);
    ByRecencyNoDup(MoveToFront(order, key), t[key := clock]);
  }

  /** A new key, when there is room, goes in front, touched now. */
  lemma AddKeepsCoherent<K, V>(order: seq<K>, entries: map<K, Entry<V>>, t: map<K, nat>,
                               clock: nat, limit: int, key: K, e: Entry<V>)
    requires Coherent(order, entries, t, clock, limit) && key !in entries && |entries| < limit
    ensures Coherent([key] + order, entries[key := e], t[key := clock], clock + 1, limit)
  {
    NotInRecency(order, t, key);
    TouchKeepsRecency(order, t, key, clock);
    ByRecencyNoDup([key] + order, t[key := clock]);
  }

  /** Evicting the tail of the recency list removes a key of the map, the
      least recently touched one, and leaves a coherent state. */
  lemma EvictKeepsCoherent<K, V>(order: seq<K>, entries: map<K, Entry<V>>, t: map<K, nat>,
                                 clock: nat, limit: int)
    requires Coherent(order, entries, t, clock, limit) && order != []
    ensures var last := order[|order| - 1];
            last in entries && (forall x :: x in t ==> t[last] <= t[x]) &&
            Coherent(order[..|order| - 1], entries - {last}, t - {last}, clock, limit)
  {
    var last := order[|order| - 1];
    assert last in t;
    LastIsLeastRecent(order, t);
    EvictKeepsRecency(order, t);
    ByRecencyNoDup(order[..|order| - 1], t - {last});
  }

  // ---------------------------------------------------------------------
  // The least-recently-used policy

  class LRUPolicy<K(0,==), V> {
    var list: DLL<K>
    ghost var Repr: set<object>

    ghost predicate Valid()
      reads this, Repr
      ensures Valid() ==> this in Repr
    {
      this in Repr && list in Repr && list.Repr <= Repr && this !in list.Repr && list.Valid()
    }

    /** The keys, most recently touched first. */
    ghost function Order(): seq<K>
      reads this, list
    {
      list.Contents
    }

    constructor ()
      ensures Valid() && fresh(Repr) && Order() == []
    {
      var l := new DLL();
      list := l;
      Repr := {this} + l.Repr;
    }

    /** The victim is the list's tail, which leaves the list; the map the
        cache passes in is not consulted. */
    method Evict(data: map<K, Entry<V>>) returns (k: K, ok: bool)
      requires Valid()
      modifies Repr
      ensures Valid() && Repr == old(Repr)
      ensures ok == (old(Order()) != [])
      ensures ok ==> k == old(Order())[|old(Order())| - 1]
      ensures ok ==> Order() == old(Order())[..|old(Order())| - 1]
      ensures !ok ==> Order() == old(Order())
    {
      k, ok := list.DeleteBack();
    }

    method Insert(k: K)
      requires Valid()
      modifies Repr
      ensures Valid() && fresh(Repr - old(Repr))
      ensures Order() == [k] + old(Order())
    {
      list.InsertFront(k);
      Repr := Repr + list.Repr;
    }

    /** Moves `k` to the front: removes it and, if it was there, puts it
        back at the front. */
    method Update(k: K)
      requires Valid()
      modifies Repr
      ensures Valid() && fresh(Repr - old(Repr))
      ensures Order() == MoveToFront(old(Order()), k)
    {
      ghost var r := list.Repr;
      var ok := list.Remove(k);
      if ok {
        list.InsertFront(k);
      }
      assert fresh(list.Repr - r);
      Repr := Repr + list.Repr;
    }
  }

  // ---------------------------------------------------------------------
  // The cache

  class Cache<K(0,==), V(0)> {
    var limit: int
    var totalReads: nat
    var successfulReads: nat
    var totalWrites: nat
    var entries: map<K, Entry<V>>
    var policy: LRUPolicy<K, V>

    ghost var Repr: set<object>
    // a logical clock standing for the `lastAccessed` stamps: every Put and
    // every successful Get records the current tick for its key
    ghost var clock: nat
    ghost var lastTouch: map<K, nat>

    /** The policy's recency list. */
    ghost function Order(): seq<K>
      reads this, policy, policy.list
    {
      policy.list.Contents
    }

    /** The cache invariant: the map never holds more than `limit` entries;
        the recency list has no duplicates, is as long as the map, and lists
        keys of the map by decreasing time of last touch (so it holds each
        key exactly once, see `KeysAgree`). */
    ghost predicate Valid()
      reads this, Repr
      ensures Valid() ==> this in Repr && |entries| <= limit && limit >= 0
    {
      this in Repr && policy in Repr && policy.Repr <= Repr && this !in policy.Repr &&
      policy.Valid() && successfulReads <= totalReads &&
      Coherent(Order(), entries, lastTouch, clock, limit)
    }

    /** The recency list and the map hold the same keys. */
    lemma KeysAgree()
      requires Valid()
      ensures Elements(Order()) == entries.Keys
    {
      CoversKeys(Order(), lastTouch);
    }

    /** `NewCache(entryLimit)`: an empty cache with the LRU policy. */
    constructor (entryLimit: int)
      requires entryLimit >= 0
      ensures Valid() && fresh(Repr)
      ensures limit == entryLimit && entries == map[] && Order() == []
      ensures totalReads == 0 && successfulReads == 0 && totalWrites == 0
    {
      limit := entryLimit;
      totalReads, successfulReads, totalWrites := 0, 0, 0;
      entries := map[];
      var p := new LRUPolicy();
      policy := p;
      Repr := {this} + p.Repr;
      clock := 0;
      lastTouch := map[];
    }

    /** Stores `val` under `key` and reports whether `key` was already there.
        With `limit == 0` nothing happens. A new key arriving when the map is
        full first evicts the least recently touched key. */
    method Put(key: K, val: V) returns (present: bool)
      requires Valid()
      modifies Repr
      ensures Valid() && fresh(Repr - old(Repr))
      ensures limit == old(limit)
      ensures present == (key in old(entries))
      ensures totalReads == old(totalReads) && successfulReads == old(successfulReads)
      ensures limit == 0 ==> Repr == old(Repr) && unchanged(Repr)
      ensures limit > 0 ==> totalWrites == old(totalWrites) + 1 && clock == old(clock) + 1
      ensures limit > 0 && (present || old(|entries|) < limit) ==>
                lastTouch == old(lastTouch)[key := old(clock)]
      ensures limit > 0 && present ==>
                var s := old(entries)[key].stats;
                entries == old(entries)[key := Entry(val, s.(writeCount := s.writeCount + 1))] &&
                Order() == MoveToFront(old(Order()), key)
      ensures limit > 0 && !present && old(|entries|) < limit ==>
                entries == old(entries)[key := Entry(val, Stats(0, 1))] &&
                Order() == [key] + old(Order())
      ensures limit > 0 && !present && old(|entries|) == limit ==>
                var victim := old(Order())[|old(Order())| - 1];
                victim in old(entries) &&
                (forall x :: x in old(entries) ==> old(lastTouch)[victim] <= old(lastTouch)[x]) &&
                entries == (old(entries) - {victim})[key := Entry(val, Stats(0, 1))] &&
                lastTouch == (old(lastTouch) - {victim})[key := old(clock)] &&
                Order() == [key] + old(Order())[..|old(Order())| - 1]
    {
      if limit == 0 {
        return false;
      }
      present := key in entries;
      if !present {
        if |entries| == limit {
          EvictForRoom();
        }
        AddNew(key, val);
      } else {
        Overwrite(key, val);
      }
    }

    /** The branch of `Put` for a key not in the map, once there is room:
        store a fresh entry holding `val` with one write, and put the key at
        the front of the recency list. */
    method AddNew(key: K, val: V)
      requires Valid() && key !in entries && |entries| < limit
      modifies Repr
      ensures Valid() && fresh(Repr - old(Repr))
      ensures limit == old(limit) && totalWrites == old(totalWrites) + 1
      ensures totalReads == old(totalReads) && successfulReads == old(successfulReads)
      ensures entries == old(entries)[key := Entry(val, Stats(0, 1))]
      ensures lastTouch == old(lastTouch)[key := old(clock)] && clock == old(clock) + 1
      ensures Order() == [key] + old(Order())
    {
      ghost var order, kept, t, now, r := Order(), entries, lastTouch, clock, policy.Repr;
      var zero: V := *;
      var e := Entry(zero, Stats(0, 0));
      policy.Insert(key);
      e := e.(value := val, stats := e.stats.(writeCount := e.stats.writeCount + 1));
      AddKeepsCoherent(order, kept, t, now, limit, key, e);
      assert r <= Repr && fresh(policy.Repr - r);
      RecordWrite(key, e);
    }

    /** The branch of `Put` for a key already in the map: the key moves to
        the front of the recency list and its entry takes `val`, with one
        more write counted. */
    method Overwrite(key: K, val: V)
      requires Valid() && key in entries
      modifies Repr
      ensures Valid() && fresh(Repr - old(Repr))
      ensures limit == old(limit) && totalWrites == old(totalWrites) + 1
      ensures totalReads == old(totalReads) && successfulReads == old(successfulReads)
      ensures var s := old(entries)[key].stats;
              entries == old(entries)[key := Entry(val, s.(writeCount := s.writeCount + 1))]
      ensures lastTouch == old(lastTouch)[key := old(clock)] && clock == old(clock) + 1
      ensures Order() == MoveToFront(old(Order()), key)
    {
      ghost var order, kept, t, now := Order(), entries, lastTouch, clock;
      var e := entries[key];
      policy.Update(key);
      e := e.(value := val, stats := e.stats.(writeCount := e.stats.writeCount + 1));
      TouchKeepsCoherent(order, kept, t, now, limit, key, e);
      RecordWrite(key, e);
    }

    /** The eviction step of `Put` for a new key when the map is full: the
        policy names the tail of the recency list, the least recently
        touched key, and it leaves the map. */
    method EvictForRoom()
      requires Valid() && 0 < limit == |entries|
      modifies Repr
      ensures Valid() && Repr == old(Repr)
      ensures var victim := old(Order())[|old(Order())| - 1];
              victim in old(entries) &&
              (forall x :: x in old(entries) ==> old(lastTouch)[victim] <= old(lastTouch)[x]) &&
              entries == old(entries) - {victim} && lastTouch == old(lastTouch) - {victim} &&
              Order() == old(Order())[..|old(Order())| - 1]
      ensures limit == old(limit) && clock == old(clock)
      ensures totalReads == old(totalReads) && successfulReads == old(successfulReads)
      ensures totalWrites == old(totalWrites)
    {
      EvictKeepsCoherent(Order(), entries, lastTouch, clock, limit);
      var k, ok := policy.Evict(entries);
      if ok {
        entries, lastTouch := entries - {k}, lastTouch - {k};
      }
    }

    /** The bookkeeping that ends `Put`: the entry is stored, the write is
        counted, the key is touched now, and the policy's new nodes join the
        footprint. */
    method RecordWrite(key: K, e: Entry<V>)
      requires this in Repr && policy in Repr && this !in policy.Repr && policy.Valid()
      requires successfulReads <= totalReads
      requires Coherent(Order(), entries[key := e], lastTouch[key := clock], clock + 1, limit)
      modifies this
      ensures Valid()
      ensures entries == old(entries)[key := e] && totalWrites == old(totalWrites) + 1
      ensures lastTouch == old(lastTouch)[key := old(clock)] && clock == old(clock) + 1
      ensures Repr == old(Repr) + policy.Repr
      ensures limit == old(limit) && policy == old(policy)
      ensures totalReads == old(totalReads) && successfulReads == old(successfulReads)
    {
      entries := entries[key := e];
      totalWrites := totalWrites + 1;
      lastTouch := lastTouch[key := clock];
      clock := clock + 1;
      Repr := Repr + policy.Repr;
    }

    /** Looks `key` up. Every call counts as a read; a hit also counts as a
        successful read and as a read of the entry, and moves the key to the
        front of the recency list. */
    method Get(key: K) returns (v: V, ok: bool)
      requires Valid()
      modifies Repr
      ensures Valid() && fresh(Repr - old(Repr))
      ensures ok == (key in old(entries))
      ensures limit == old(limit) && totalWrites == old(totalWrites)
      ensures totalReads == old(totalReads) + 1
      ensures !ok ==> entries == old(entries) && Order() == old(Order()) &&
                      successfulReads == old(successfulReads) &&
                      lastTouch == old(lastTouch) && clock == old(clock)
      ensures ok ==> lastTouch == old(lastTouch)[key := old(clock)] && clock == old(clock) + 1
      ensures ok ==> v == old(entries)[key].value
      ensures ok ==> successfulReads == old(successfulReads) + 1
      ensures ok ==> var s := old(entries)[key].stats;
                     entries == old(entries)[key := Entry(v, s.(readCount := s.readCount + 1))]
      ensures ok ==> Order() == MoveToFront(old(Order()), key)
    {
      var zero: V := *;
      ok := key in entries;
      totalReads := totalReads + 1;
      if !ok {
        return zero, false;
      }
      v := Hit(key);
    }

    /** The branch of `Get` for a key in the map: the key moves to the front
        of the recency list, and its entry gets one more read counted. */
    method Hit(key: K) returns (v: V)
      requires Valid() && key in entries && successfulReads < totalReads
      modifies Repr
      ensures Valid() && fresh(Repr - old(Repr))
      ensures limit == old(limit) && totalWrites == old(totalWrites)
      ensures totalReads == old(totalReads) && successfulReads == old(successfulReads) + 1
      ensures v == old(entries)[key].value
      ensures var s := old(entries)[key].stats;
              entries == old(entries)[key := Entry(v, s.(readCount := s.readCount + 1))]
      ensures lastTouch == old(lastTouch)[key := old(clock)] && clock == old(clock) + 1
      ensures Order() == MoveToFront(old(Order()), key)
    {
      var e := entries[key];
      ghost var order, kept, t, now := Order(), entries, lastTouch, clock;
      policy.Update(key);
      e := e.(stats := e.stats.(readCount := e.stats.readCount + 1));
      TouchKeepsCoherent(order, kept, t, now, limit, key, e);
      RecordHit(key, e);
      v := e.value;
    }

    /** The bookkeeping of a hit in `Get`: the successful read is counted,
        the entry is stored back with its read counted, the key is touched
        now, and the policy's new nodes join the footprint. */
    method RecordHit(key: K, e: Entry<V>)
      requires this in Repr && policy in Repr && this !in policy.Repr && policy.Valid()
      requires successfulReads < totalReads
      requires Coherent(Order(), entries[key := e], lastTouch[key := clock], clock + 1, limit)
      modifies this
      ensures Valid()
      ensures successfulReads == old(successfulReads) + 1 && entries == old(entries)[key := e]
      ensures lastTouch == old(lastTouch)[key := old(clock)] && clock == old(clock) + 1
      ensures Repr == old(Repr) + policy.Repr
      ensures limit == old(limit) && policy == old(policy)
      ensures totalReads == old(totalReads) && totalWrites == old(totalWrites)
    {
      successfulReads := successfulReads + 1;
      entries := entries[key := e];
      lastTouch := lastTouch[key := clock];
      clock := clock + 1;
      Repr := Repr + policy.Repr;
    }
  }

  // ---------------------------------------------------------------------
  // Scenarios from the repository's tests

  /** A value just written is read back. */
  method ReadAfterWrite<K(0,==), V(0)>(c: Cache<K, V>, k: K, v: V) returns (got: V, ok: bool)
    requires c.Valid() && c.limit > 0
    modifies c.Repr
    ensures c.Valid()
    ensures ok && got == v
  {
    var present := c.Put(k, v);
    got, ok := c.Get(k);
  }

  /** With room for two, writing keys 1 then 2 fills the cache, 2 in front. */
  method FillTwo() returns (c: Cache<int, int>)
    ensures c.Valid() && c.limit == 2
    ensures c.entries.Keys == {1, 2} && c.Order() == [2, 1]
  {
    c := new Cache(2);
    var p := c.Put(1, 10);
    p := c.Put(2, 20);
  }

  /** Writing a third key into that full cache evicts key 1. */
  method EvictsLeastRecent(c: Cache<int, int>)
    requires c.Valid() && c.limit == 2
    requires c.entries.Keys == {1, 2} && c.Order() == [2, 1]
    modifies c.Repr
    ensures c.Valid() && c.entries.Keys == {2, 3} && c.Order() == [3, 2]
  {
    var p := c.Put(3, 30);
  }

  /** Reading key 1 in that full cache makes 2 the least recently touched
      key, so writing 3 evicts 2 instead. */
  method ReadSavesFromEviction(c: Cache<int, int>) returns (v: int, ok: bool)
    requires c.Valid() && c.limit == 2
    requires c.entries.Keys == {1, 2} && c.Order() == [2, 1]
    modifies c.Repr
    ensures ok && c.Valid() && c.entries.Keys == {1, 3} && c.Order() == [3, 1]
  {
    v, ok := c.Get(1);
    assert c.Order() == [1, 2] by {
      assert RemoveFirst([2, 1], 1) == [2] + RemoveFirst([1], 1);
    }
    var p := c.Put(3, 30);
  }

  /** However many keys are written, the map never holds more than the
      limit. */
  method WriteMany(entryLimit: int, n: nat) returns (c: Cache<int, int>)
    requires entryLimit >= 0
    ensures c.Valid() && c.limit == entryLimit && |c.entries| <= entryLimit
  {
    c := new Cache(entryLimit);
    var i := 0;
    while i < n
      invariant c.Valid() && fresh(c.Repr) && c.limit == entryLimit
    {
      var p := c.Put(i, i);
      i := i + 1;
    }
  }

  /** A cache of capacity zero stores nothing. */
  method ZeroLimit() returns (present: bool, found: bool)
    ensures !present && !found
  {
    var c := new Cache<int, int>(0);
    present := c.Put(1, 10);
    var v;
    v, found := c.Get(1);
  }
}
