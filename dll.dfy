/** A doubly linked list of values, as used by the cache to keep its keys in
    recency order: new keys go in at the front, the back is the victim.

    The list is made of real node objects linked by `next` and `prev`.  The
    ghost field `Nodes` lists the nodes from the head to the tail and
    `Contents` the values they hold; `Valid()` ties both to the pointers. */
module DoublyLinkedList {

  /** The values a sequence holds. */
  ghost function Elements<T>(s: seq<T>): set<T> {
    set x | x in s
  }

  /** No value occurs twice. */
  ghost predicate NoDup<T>(s: seq<T>) {
    forall i, j :: 0 <= i < j < |s| ==> s[i] != s[j]
  }

  /** The position of the first occurrence of `v` in `s`. */
  function IndexOf<T(==)>(s: seq<T>, v: T): (i: nat)
    requires v in s
    ensures i < |s| && s[i] == v
    ensures forall j :: 0 <= j < i ==> s[j] != v
  {
    if s[0] == v then 0 else 1 + IndexOf(s[1..], v)
  }

  /** `s` without the first occurrence of `v` (and `s` itself when `v` is absent). */
  function RemoveFirst<T(==)>(s: seq<T>, v: T): (r: seq<T>)
    ensures v !in s ==> r == s
    ensures v in s ==> |r| == |s| - 1
  {
    if s == [] then []
    else if s[0] == v then s[1..]
    else [s[0]] + RemoveFirst(s[1..], v)
  }

  /** Exactly one copy of `v` goes (when there is one); every other value
      keeps its number of occurrences. */
  lemma {:induction false} RemoveFirstMultiset<T>(s: seq<T>, v: T)
    ensures multiset(RemoveFirst(s, v)) == multiset(s) - multiset{v}
  {
    if s != [] {
      assert s == [s[0]] + s[1..];
      if s[0] != v {
        RemoveFirstMultiset(s[1..], v);
      }
    }
  }

  /** Removing the first occurrence cuts the sequence at `IndexOf` and keeps
      both sides in their order. */
  lemma {:induction false} RemoveFirstAt<T>(s: seq<T>, v: T)
    requires v in s
    ensures |RemoveFirst(s, v)| == |s| - 1
    ensures forall k :: 0 <= k < IndexOf(s, v) ==> RemoveFirst(s, v)[k] == s[k]
    ensures forall k :: IndexOf(s, v) <= k < |s| - 1 ==> RemoveFirst(s, v)[k] == s[k + 1]
  {
    if s[0] != v {
      var t := s[1..];
      RemoveFirstAt(t, v);
      assert RemoveFirst(s, v) == [s[0]] + RemoveFirst(t, v);
      assert IndexOf(s, v) == 1 + IndexOf(t, v);
      forall k | 0 < k < |s| - 1
        ensures RemoveFirst(s, v)[k] == RemoveFirst(t, v)[k - 1]
        ensures t[k - 1] == s[k] && t[k] == s[k + 1]
      {
      }
    }
  }

  lemma RemoveFirstIsSplice<T>(s: seq<T>, v: T)
    requires v in s
    ensures RemoveFirst(s, v) == s[..IndexOf(s, v)] + s[IndexOf(s, v) + 1..]
  {
    var i, r := IndexOf(s, v), RemoveFirst(s, v);
    var splice := s[..i] + s[i + 1..];
    RemoveFirstAt(s, v);
    assert |r| == |splice|;
    forall k | 0 <= k < |r| ensures r[k] == splice[k] {
      if k < i {
        assert splice[k] == s[k];
      } else {
        assert splice[k] == s[k + 1];
      }
    }
  }

  /** A sequence without duplicates has as many distinct values as positions. */
  lemma {:induction false} NoDupCard<T>(s: seq<T>)
    requires NoDup(s)
    ensures |Elements(s)| == |s|
  {
    if s != [] {
      assert NoDup(s[1..]) by {
        forall i, j | 0 <= i < j < |s[1..]| ensures s[1..][i] != s[1..][j] {
          assert s[1..][i] == s[i + 1] && s[1..][j] == s[j + 1];
        }
      }
      NoDupCard(s[1..]);
      assert Elements(s) == {s[0]} + Elements(s[1..]);
      assert s[0] !in Elements(s[1..]);
    }
  }

  lemma NoDupTail<T>(s: seq<T>)
    requires NoDup(s) && s != []
    ensures NoDup(s[1..]) && s[0] !in s[1..]
  {
    forall i, j | 0 <= i < j < |s[1..]| ensures s[1..][i] != s[1..][j] {
      assert s[1..][i] == s[i + 1] && s[1..][j] == s[j + 1];
    }
  }

  lemma NoDupCons<T>(x: T, r: seq<T>)
    requires NoDup(r) && x !in r
    ensures NoDup([x] + r)
  {
    forall i, j | 0 <= i < j < |[x] + r| ensures ([x] + r)[i] != ([x] + r)[j] {
      assert ([x] + r)[j] == r[j - 1];
    }
  }

  /** Removing the first occurrence from a duplicate-free sequence removes
      exactly that value and keeps the sequence duplicate-free. */
  lemma {:induction false} RemoveFirstNoDup<T>(s: seq<T>, v: T)
    requires NoDup(s)
    ensures NoDup(RemoveFirst(s, v))
    ensures forall x :: x in RemoveFirst(s, v) <==> x in s && x != v
  {
    if s != [] {
      NoDupTail(s);
      assert s == [s[0]] + s[1..];
      if s[0] != v {
        var r := RemoveFirst(s[1..], v);
        RemoveFirstNoDup(s[1..], v);
        NoDupCons(s[0], r);
      }
    }
  }

  /** A list node: a value and the links to its neighbours. */
  class Node<T> {
    var value: T
    var next: Node?<T>
    var prev: Node?<T>

    constructor (value: T)
      ensures this.value == value && next == null && prev == null
    {
      this.value := value;
      next := null;
      prev := null;
    }
  }

  class DLL<T(0,==)> {
    var head: Node?<T>
    var tail: Node?<T>
    var size: int

    // ghost view: the nodes from head to tail and the values they hold
    ghost var Nodes: seq<Node<T>>
    ghost var Contents: seq<T>
    ghost var Repr: set<object>

    /** The representation invariant: `size` counts the nodes, `head` and
        `tail` are the first and last node (both null exactly when the list
        is empty), and `next`/`prev` link each node to its neighbours. */
    ghost predicate Valid()
      reads this, Repr
      ensures Valid() ==> this in Repr
      ensures Valid() ==> (head == null <==> size == 0) && (tail == null <==> size == 0)
    {
      this in Repr &&
      (forall i :: 0 <= i < |Nodes| ==> Nodes[i] in Repr) &&
      size == |Nodes| == |Contents| &&
      (forall i :: 0 <= i < |Nodes| ==> Nodes[i].value == Contents[i]) &&
      (forall i, j :: 0 <= i < j < |Nodes| ==> Nodes[i] != Nodes[j]) &&
      (if Nodes == [] then head == null && tail == null
       else head == Nodes[0] && tail == Nodes[|Nodes| - 1] && head.prev == null && tail.next == null) &&
      (forall i :: 0 <= i < |Nodes| - 1 ==> Nodes[i].next == Nodes[i + 1]) &&
      (forall i :: 0 < i < |Nodes| ==> Nodes[i].prev == Nodes[i - 1])
    }

    /** The empty list (Go's zero value `DLL[T]{}`). */
    constructor ()
      ensures Valid() && fresh(Repr)
      ensures Contents == [] && head == null && tail == null && size == 0
    {
      head, tail, size := null, null, 0;
      Nodes, Contents := [], [];
      Repr := {this};
    }

    method InsertFront(v: T)
      requires Valid()
      modifies Repr
      ensures Valid() && fresh(Repr - old(Repr))
      ensures Contents == [v] + old(Contents) && size == old(size) + 1
      ensures head != null && head.value == v && head.prev == null && head.next == old(head)
      ensures old(tail) != null ==> tail == old(tail)
    {
      ghost var was := Nodes;
      var n := new Node(v);
      if head == null {
        head := n;
        tail := n;
      } else {
        n.next := head;
        head.prev := n;
        head := n;
      }
      size := size + 1;
      Nodes := [n] + Nodes;
      Contents := [v] + Contents;
      Repr := Repr + {n};
      forall i | 1 <= i < |was|
        ensures was[i].prev == was[i - 1]
      {
        assert was[i] != was[0];
      }
      PrependedValid(was, old(Contents), n);
    }

    /** The state `InsertFront` leaves behind is valid: the old node
        sequence keeps its links, with the new node `n` linked before it. */
    lemma PrependedValid(was: seq<Node<T>>, vals: seq<T>, n: Node<T>)
      requires |was| == |vals| && this in Repr && n in Repr
      requires forall k :: 0 <= k < |was| ==> was[k] in Repr && was[k] != n && was[k].value == vals[k]
      requires forall k, j :: 0 <= k < j < |was| ==> was[k] != was[j]
      requires forall k :: 0 <= k < |was| - 1 ==> was[k].next == was[k + 1]
      requires forall k :: 0 < k < |was| ==> was[k].prev == was[k - 1]
      requires head == n && n.prev == null && n.next == (if was == [] then null else was[0])
      requires was != [] ==> was[0].prev == n
      requires tail == (if was == [] then n else was[|was| - 1]) && tail.next == null
      requires Nodes == [n] + was && Contents == [n.value] + vals && size == |was| + 1
      ensures Valid()
    {
      forall i | 1 <= i < |Nodes|
        ensures Nodes[i] == was[i - 1]
      {
      }
    }

    /** The first node holding `v`, or null when no node does. */
    method Find(v: T) returns (n: Node?<T>)
      requires Valid()
      ensures n == null <==> v !in Contents
      ensures n != null ==> n == Nodes[IndexOf(Contents, v)] && n.value == v
    {
      if head == null {
        return null;
      }
      var c := head;
      ghost var i := 0;
      while c != null
        invariant 0 <= i <= |Nodes|
        invariant c == if i < |Nodes| then Nodes[i] else null
        invariant forall j :: 0 <= j < i ==> Contents[j] != v
        decreases |Nodes| - i
      {
        if c.value == v {
          return c;
        }
        c := c.next;
        i := i + 1;
      }
      return null;
    }

    /** Unlinks the first node holding `v`; reports whether there was one. */
    method Remove(v: T) returns (ok: bool)
      requires Valid()
      modifies Repr
      ensures Valid() && Repr == old(Repr)
      ensures ok == (v in old(Contents))
      ensures Contents == RemoveFirst(old(Contents), v)
      ensures size == if ok then old(size) - 1 else old(size)
      ensures !ok ==> unchanged(Repr)
    {
      var n := Find(v);
      if n == null {
        return false;
      }
      RemoveFirstIsSplice(Contents, v);
      Unlink(n, IndexOf(Contents, v));
      return true;
    }

    /** Splices node `n`, the `i`-th one, out of the list. */
    method Unlink(n: Node<T>, ghost i: nat)
      requires Valid() && i < |Nodes| && n == Nodes[i]
      modifies Repr
      ensures Valid() && Repr == old(Repr)
      ensures Nodes == old(Nodes[..i] + Nodes[i + 1..])
      ensures Contents == old(Contents[..i] + Contents[i + 1..])
      ensures size == old(size) - 1
    {
      ghost var was := Nodes;
      ghost var last := |was| - 1;
      assert 0 < i ==> n.prev == was[i - 1];
      assert i < last ==> n.next == was[i + 1];
      if n.prev != null {
        n.prev.next := n.next;
      } else {
        head := n.next;
      }
      if n.next != null {
        n.next.prev := n.prev;
      } else {
        tail := n.prev;
      }
      size := size - 1;
      Nodes := was[..i] + was[i + 1..];
      Contents := Contents[..i] + Contents[i + 1..];
      forall k | 0 <= k < last && k != i - 1
        ensures was[k].next == was[k + 1]
      {
        assert i == 0 || was[k] != was[i - 1];
      }
      forall k | 0 < k <= last && k != i + 1
        ensures was[k].prev == was[k - 1]
      {
        assert i == last || was[k] != was[i + 1];
      }
      assert 0 < i < last ==> was[0] != was[i + 1];
      assert 0 < i < last ==> was[last] != was[i - 1];
      UnlinkedValid(was, old(Contents), i);
    }

    /** The state `Unlink` leaves behind is valid: what it needs are the
        links of the old node sequence with node `i` bypassed. */
    lemma UnlinkedValid(was: seq<Node<T>>, vals: seq<T>, i: nat)
      requires i < |was| == |vals| && this in Repr
      requires forall k :: 0 <= k < |was| ==> was[k] in Repr && was[k].value == vals[k]
      requires forall k, j :: 0 <= k < j < |was| ==> was[k] != was[j]
      requires forall k :: 0 <= k < |was| - 1 && k != i - 1 ==> was[k].next == was[k + 1]
      requires forall k :: 0 < k < |was| && k != i + 1 ==> was[k].prev == was[k - 1]
      requires 0 < i ==> was[i - 1].next == if i + 1 < |was| then was[i + 1] else null
      requires i + 1 < |was| ==> was[i + 1].prev == if 0 < i then was[i - 1] else null
      requires head == (if 0 < i then was[0] else if 1 < |was| then was[1] else null)
      requires tail == (if i + 1 < |was| then was[|was| - 1] else if 0 < i then was[i - 1] else null)
      requires head != null ==> head.prev == null
      requires tail != null ==> tail.next == null
      requires Nodes == was[..i] + was[i + 1..] && Contents == vals[..i] + vals[i + 1..]
      requires size == |was| - 1
      ensures Valid()
    {
      forall k | 0 <= k < |Nodes|
        ensures Nodes[k] == if k < i then was[k] else was[k + 1]
      {
      }
    }

    method InsertBack(v: T)
      requires Valid()
      modifies Repr
      ensures Valid() && fresh(Repr - old(Repr))
      ensures Contents == old(Contents) + [v] && size == old(size) + 1
      ensures tail != null && tail.value == v && tail.next == null && tail.prev == old(tail)
      ensures old(head) != null ==> head == old(head)
    {
      ghost var was := Nodes;
      var n := new Node(v);
      if tail == null {
        head := n;
        tail := n;
      } else {
        n.prev := tail;
        tail.next := n;
        tail := n;
      }
      size := size + 1;
      Nodes := Nodes + [n];
      Contents := Contents + [v];
      Repr := Repr + {n};
      forall i | 0 <= i < |was| - 1
        ensures was[i].next == was[i + 1]
      {
        assert was[i] != was[|was| - 1];
      }
      AppendedValid(was, old(Contents), n);
    }

    /** The state `InsertBack` leaves behind is valid: the old node
        sequence keeps its links, with the new node `n` linked after it. */
    lemma AppendedValid(was: seq<Node<T>>, vals: seq<T>, n: Node<T>)
      requires |was| == |vals| && this in Repr && n in Repr
      requires forall k :: 0 <= k < |was| ==> was[k] in Repr && was[k] != n && was[k].value == vals[k]
      requires forall k, j :: 0 <= k < j < |was| ==> was[k] != was[j]
      requires forall k :: 0 <= k < |was| - 1 ==> was[k].next == was[k + 1]
      requires forall k :: 0 < k < |was| ==> was[k].prev == was[k - 1]
      requires tail == n && n.next == null && n.prev == (if was == [] then null else was[|was| - 1])
      requires was != [] ==> was[|was| - 1].next == n
      requires head == (if was == [] then n else was[0]) && head.prev == null
      requires Nodes == was + [n] && Contents == vals + [n.value] && size == |was| + 1
      ensures Valid()
    {
      forall i | 0 <= i < |was|
        ensures Nodes[i] == was[i]
      {
      }
    }

    /** Unlinks the last node and returns its value; `ok` is false (and
        nothing changes) when the list is empty. */
    method DeleteBack() returns (v: T, ok: bool)
      requires Valid()
      modifies Repr
      ensures Valid() && Repr == old(Repr)
      ensures ok == (old(Contents) != [])
      ensures ok ==> v == old(Contents)[|old(Contents)| - 1]
      ensures ok ==> Contents == old(Contents)[..|old(Contents)| - 1]
      ensures ok ==> size == old(size) - 1
      ensures !ok ==> unchanged(Repr)
    {
      if head == null {
        var zero: T := *;
        return zero, false;
      }
      ghost var was := Nodes;
      ghost var last := |was| - 1;
      assert 0 < last ==> tail.prev == was[last - 1];
      v := tail.value;
      tail := tail.prev;
      if tail == null {
        head := null;
      } else {
        tail.next := null;
      }
      size := size - 1;
      Nodes := was[..last];
      Contents := Contents[..last];
      forall k | 0 <= k < last
        ensures Nodes[k] == was[k]
      {
      }
      forall k | 0 <= k < last - 1
        ensures Nodes[k].next == Nodes[k + 1]
      {
        assert was[k] != was[last - 1];
      }
      ok := true;
    }
  }
  // ---------------------------------------------------------------------
  // Scenarios from the repository's tests

  /** Four values put in at the front come out in reverse order: 4 is the
      head, 1 the tail. */
  method FrontFour() returns (l: DLL<int>)
    ensures l.Valid() && fresh(l.Repr)
    ensures l.Contents == [4, 3, 2, 1]
    ensures l.head != null && l.head.value == 4 && l.tail != null && l.tail.value == 1
  {
    l := new DLL();
    l.InsertFront(1);
    l.InsertFront(2);
    l.InsertFront(3);
    l.InsertFront(4);
  }

  /** On 4 -> 3 -> 2 -> 1, 3 is found between 4 and 2, and 6 is not found. */
  method FindInFour(l: DLL<int>) returns (found: Node?<int>, missing: Node?<int>)
    requires l.Valid() && l.Contents == [4, 3, 2, 1]
    ensures found != null && found.value == 3
    ensures found.next != null && found.next.value == 2
    ensures found.prev != null && found.prev.value == 4
    ensures missing == null
  {
    found := l.Find(3);
    assert IndexOf(l.Contents, 3) == 1;
    assert found.next == l.Nodes[2] && found.prev == l.Nodes[0];
    missing := l.Find(6);
  }

  /** On 4 -> 3 -> 2 -> 1, removing 3 succeeds and 3 is then gone, removing
      5 fails, and the back value is 1. */
  method RemoveThenDelete(l: DLL<int>) returns (removed: bool, gone: bool, notRemoved: bool, back: int)
    requires l.Valid() && l.Contents == [4, 3, 2, 1]
    modifies l.Repr
    ensures removed && gone && !notRemoved && back == 1
    ensures l.Valid() && l.Contents == [4, 2]
  {
    removed := l.Remove(3);
    assert l.Contents == [4, 2, 1] by {
      assert RemoveFirst([4, 3, 2, 1], 3) == [4] + RemoveFirst([3, 2, 1], 3);
    }
    var n := l.Find(3);
    gone := n == null;
    notRemoved := l.Remove(5);
    var ok;
    back, ok := l.DeleteBack();
  }

  /** An empty list has no back value. */
  method DeleteFromEmpty() returns (ok: bool)
    ensures !ok
  {
    var l := new DLL<int>();
    var v;
    v, ok := l.DeleteBack();
  }

  /** Four values put in at the back keep their order: 1 is the head, 4 the
      tail, with nothing after it. */
  method BackFour() returns (l: DLL<int>)
    ensures l.Valid() && fresh(l.Repr)
    ensures l.Contents == [1, 2, 3, 4]
    ensures l.head != null && l.head.value == 1
    ensures l.tail != null && l.tail.value == 4 && l.tail.next == null
  {
    l := new DLL();
    l.InsertBack(1);
    l.InsertBack(2);
    l.InsertBack(3);
    l.InsertBack(4);
  }
}

