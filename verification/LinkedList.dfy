/** The circular doubly linked lists of pkg/types/list.go. A head and the entries
    after it form a ring; every operation on the pointers is proved against the
    finite sequence of entries. */
module LinkedList {

  class ListHead {
    var Prev: ListHead?
    var Next: ListHead?

    /** `NewListHead`. */
    constructor ()
      ensures Ring(this, [])
    {
      Prev := this;
      Next := this;
    }
  }

  /** The node at a position: the head at both ends, the entries in between. */
  function At(head: ListHead, s: seq<ListHead>, i: nat): ListHead
    requires i <= |s| + 1
  {
    if i == 0 || i == |s| + 1 then head else s[i - 1]
  }

  ghost predicate Linked(x: ListHead, y: ListHead)
    reads x, y
  {
    x.Next == y && y.Prev == x
  }

  predicate NoTwice(head: ListHead, s: seq<ListHead>) {
    head !in s && forall i, j :: 0 <= i < j < |s| ==> s[i] != s[j]
  }

  /** The list of `head` holds exactly the entries `s`, in this order. */
  ghost predicate Ring(head: ListHead, s: seq<ListHead>)
    reads head, s
  {
    NoTwice(head, s) && forall i: nat :: i <= |s| ==> Linked(At(head, s, i), At(head, s, i + 1))
  }

  /** `Next` and `Prev` are inverse to each other at every node. */
  lemma NextPrevInverse(head: ListHead, s: seq<ListHead>, x: ListHead)
    requires Ring(head, s) && (x == head || x in s)
    ensures x.Next != null && x.Prev != null && x.Next.Prev == x && x.Prev.Next == x
  {
    var i: nat :| i <= |s| && x == At(head, s, i) by {
      if x == head {
        assert x == At(head, s, 0);
      } else {
        var k: nat :| k < |s| && s[k] == x;
        assert x == At(head, s, k + 1);
      }
    }
    assert Linked(At(head, s, i), At(head, s, i + 1));
    var j: nat := if i == 0 then |s| else i - 1;
    assert Linked(At(head, s, j), At(head, s, j + 1));
  }

  /** The pointers determine the entries. */
  lemma RingIsUnique(head: ListHead, s: seq<ListHead>, t: seq<ListHead>)
    requires Ring(head, s) && Ring(head, t)
    ensures s == t
  {
    SamePrefix(head, s, t, |s| + 1);
    SamePrefix(head, t, s, |t| + 1);
    forall k | 0 <= k < |s| ensures s[k] == t[k] {
      assert At(head, s, k + 1) == At(head, t, k + 1);
    }
  }

  lemma {:induction false} SamePrefix(head: ListHead, s: seq<ListHead>, t: seq<ListHead>, n: nat)
    requires Ring(head, s) && Ring(head, t) && n <= |s| + 1
    ensures n <= |t| + 1 && (forall i: nat :: i <= n && i <= |s| ==> At(head, s, i) == At(head, t, i))
  {
    if n > 0 {
      SamePrefix(head, s, t, n - 1);
      assert Linked(At(head, s, n - 1), At(head, s, n));
      if n - 1 == |t| + 1 {
        // The other ring would be back at its head, which is no entry of `s`.
        assert false;
      }
      assert Linked(At(head, t, n - 1), At(head, t, n));
    }
  }

  // ------------------------------------------------------------- operations

  /** `InitListHead`. */
  method InitListHead(list: ListHead)
    modifies list
    ensures Ring(list, [])
  {
    list.Prev := list;
    list.Next := list;
  }

  function Inserted(s: seq<ListHead>, k: nat, x: ListHead): seq<ListHead>
    requires k <= |s|
  {
    s[..k] + [x] + s[k..]
  }

  function Removed(s: seq<ListHead>, k: nat): seq<ListHead>
    requires k < |s|
  {
    s[..k] + s[k + 1..]
  }

  /** `__ListAdd`, between the neighbours at positions `k` and `k + 1`. */
  method AddBetween(entry: ListHead, prev: ListHead, next: ListHead, ghost head: ListHead, ghost s: seq<ListHead>, ghost k: nat)
    requires Ring(head, s) && entry != head && entry !in s
    requires k <= |s| && prev == At(head, s, k) && next == At(head, s, k + 1)
    modifies entry, prev, next
    ensures Ring(head, Inserted(s, k, entry))
  {
    assert Linked(prev, next);
    entry.Prev := prev;
    entry.Next := next;
    prev.Next := entry;
    next.Prev := entry;
    ghost var t := Inserted(s, k, entry);
    forall i: nat | i <= |t| ensures Linked(At(head, t, i), At(head, t, i + 1)) {
      InsertedAt(head, s, k, entry, i);
      InsertedAt(head, s, k, entry, i + 1);
      if i < k {
        assert old(Linked(At(head, s, i), At(head, s, i + 1)));
        AtDistinct(head, s, i, k);
        AtDistinct(head, s, i + 1, k + 1);
      } else if i > k + 1 {
        assert old(Linked(At(head, s, i - 1), At(head, s, i)));
        AtDistinct(head, s, i - 1, k);
        AtDistinct(head, s, i, k + 1);
      }
    }
  }

  lemma InsertedAt(head: ListHead, s: seq<ListHead>, k: nat, x: ListHead, i: nat)
    requires k <= |s| && i <= |s| + 2
    ensures At(head, Inserted(s, k, x), i) ==
      if i <= k then At(head, s, i) else if i == k + 1 then x else At(head, s, i - 1)
  {
  }

  lemma RemovedAt(head: ListHead, s: seq<ListHead>, k: nat, i: nat)
    requires k < |s| && i <= |s|
    ensures At(head, Removed(s, k), i) == if i <= k then At(head, s, i) else At(head, s, i + 1)
  {
  }

  /** Only the head is at two positions, the first and the last. */
  lemma AtDistinct(head: ListHead, s: seq<ListHead>, i: nat, j: nat)
    requires NoTwice(head, s) && i <= |s| + 1 && j <= |s| + 1
    ensures At(head, s, i) == At(head, s, j) <==> i == j || (i % (|s| + 1) == 0 && j % (|s| + 1) == 0)
  {
    assert i % (|s| + 1) == 0 <==> i == 0 || i == |s| + 1 by { ModAtEnds(i, |s| + 1); }
    assert j % (|s| + 1) == 0 <==> j == 0 || j == |s| + 1 by { ModAtEnds(j, |s| + 1); }
  }

  lemma ModAtEnds(i: nat, n: nat)
    requires 0 < n && i <= n
    ensures i % n == 0 <==> i == 0 || i == n
  {
  }

  /** `ListAdd`: behind the node at position `k`, which is the head or an entry. */
  method ListAdd(entry: ListHead, node: ListHead, ghost head: ListHead, ghost s: seq<ListHead>, ghost k: nat)
    requires Ring(head, s) && entry != head && entry !in s
    requires k <= |s| && node == At(head, s, k)
    modifies entry, node, node.Next
    ensures Ring(head, Inserted(s, k, entry))
  {
    assert Linked(At(head, s, k), At(head, s, k + 1));
    AddBetween(entry, node, node.Next, head, s, k);
  }

  /** `ListAddTail`: in front of the node at position `k + 1`. */
  method ListAddTail(entry: ListHead, node: ListHead, ghost head: ListHead, ghost s: seq<ListHead>, ghost k: nat)
    requires Ring(head, s) && entry != head && entry !in s
    requires k <= |s| && node == At(head, s, k + 1)
    modifies entry, node, node.Prev
    ensures Ring(head, Inserted(s, k, entry))
    ensures k == |s| ==> Ring(head, s + [entry])
  {
    assert Linked(At(head, s, k), At(head, s, k + 1));
    AddBetween(entry, node.Prev, node, head, s, k);
    assert k == |s| ==> Inserted(s, k, entry) == s + [entry];
  }

  /** `ListDel`: the entry is taken out and its pointers are cleared. */
  method ListDel(entry: ListHead, ghost head: ListHead, ghost s: seq<ListHead>, ghost k: nat)
    requires Ring(head, s) && k < |s| && entry == s[k]
    modifies entry, entry.Prev, entry.Next
    ensures Ring(head, Removed(s, k))
    ensures entry.Prev == null && entry.Next == null
  {
    assert entry == At(head, s, k + 1);
    assert Linked(At(head, s, k), At(head, s, k + 1));
    assert Linked(At(head, s, k + 1), At(head, s, k + 2));
    var prev, next := entry.Prev, entry.Next;
    prev.Next := next;
    next.Prev := prev;
    entry.Prev := null;
    entry.Next := null;
    ghost var t := Removed(s, k);
    forall i: nat | i <= |t| ensures Linked(At(head, t, i), At(head, t, i + 1)) {
      RemovedAt(head, s, k, i);
      RemovedAt(head, s, k, i + 1);
      if i < k {
        assert old(Linked(At(head, s, i), At(head, s, i + 1)));
        AtDistinct(head, s, i, k);
        AtDistinct(head, s, i + 1, k + 2);
      } else if i > k {
        assert old(Linked(At(head, s, i + 1), At(head, s, i + 2)));
        AtDistinct(head, s, i + 1, k);
        AtDistinct(head, s, i + 2, k + 2);
      }
    }
  }

  /** `IsListEmpty`. */
  method IsListEmpty(list: ListHead, ghost s: seq<ListHead>) returns (empty: bool)
    requires Ring(list, s)
    ensures empty <==> s == []
  {
    assert Linked(At(list, s, 0), At(list, s, 1));
    empty := list.Next == list;
  }

  /** `ListIsLast`. */
  method ListIsLast(entry: ListHead, head: ListHead, ghost s: seq<ListHead>, ghost k: nat) returns (last: bool)
    requires Ring(head, s) && k < |s| && entry == s[k]
    ensures last <==> k == |s| - 1
  {
    assert Linked(At(head, s, k + 1), At(head, s, k + 2));
    last := entry.Next == head;
  }

  /** `ListSpliceTail`: the entries of `list` go to the end of the other list. The
      head `list` itself is not touched and, unless it was empty, no longer
      belongs to a ring. */
  method ListSpliceTail(list: ListHead, head: ListHead, ghost a: seq<ListHead>, ghost s: seq<ListHead>)
    requires Ring(list, a) && Ring(head, s)
    requires forall x :: x in [list] + a ==> x !in [head] + s
    modifies list.Next, list.Prev, head, head.Prev
    ensures Ring(head, s + a)
    ensures list.Next == old(list.Next) && list.Prev == old(list.Prev)
    ensures a == [] <==> Ring(list, a)
  {
    assert Linked(At(list, a, 0), At(list, a, 1)) && Linked(At(list, a, |a|), At(list, a, |a| + 1));
    assert Linked(At(head, s, |s|), At(head, s, |s| + 1));
    assert list in [list] + a && head in [head] + s;
    assert forall x :: x in a ==> x in [list] + a;
    assert forall x :: x in s ==> x in [head] + s;
    assert NoTwice(head, s + a) by { Concatenated(head, s, a); }
    if list.Next == list {
      assert s + a == s;
      return;
    }
    assert At(list, a, 1) == a[0] && At(list, a, |a|) == a[|a| - 1];
    assert a[0] in [list] + a && a[|a| - 1] in [list] + a;
    var first, last, prev := list.Next, list.Prev, head.Prev;
    first.Prev := prev;
    prev.Next := first;
    last.Next := head;
    head.Prev := last;
    ghost var t := s + a;
    forall i: nat | i <= |t| ensures Linked(At(head, t, i), At(head, t, i + 1)) {
      if i < |s| {
        assert old(Linked(At(head, s, i), At(head, s, i + 1)));
        AtDistinct(head, s, i, |s|);
      } else if |s| < i < |t| {
        var j := i - |s|;
        assert At(head, t, i) == At(list, a, j) && At(head, t, i + 1) == At(list, a, j + 1);
        assert old(Linked(At(list, a, j), At(list, a, j + 1)));
        AtDistinct(list, a, j, |a|);
        AtDistinct(list, a, j + 1, 1);
      }
    }
    assert !Linked(At(list, a, 0), At(list, a, 1));
  }

  lemma Concatenated(head: ListHead, s: seq<ListHead>, a: seq<ListHead>)
    requires NoTwice(head, s) && head !in a && (forall i, j :: 0 <= i < j < |a| ==> a[i] != a[j])
    requires forall x :: x in s ==> x !in a
    ensures NoTwice(head, s + a)
  {
    var t := s + a;
    forall i, j | 0 <= i < j < |t| ensures t[i] != t[j] {
      if i < |s| <= j {
        assert t[i] in s && t[j] in a;
      }
    }
  }

  // -------------------------------------------------------------- traversal

  lemma Successor(head: ListHead, s: seq<ListHead>, i: nat)
    requires Ring(head, s) && i <= |s|
    ensures At(head, s, i).Next == At(head, s, i + 1)
  {
    assert Linked(At(head, s, i), At(head, s, i + 1));
  }

  lemma AtHead(head: ListHead, s: seq<ListHead>, i: nat)
    requires NoTwice(head, s) && i <= |s| + 1
    ensures At(head, s, i) == head <==> i == 0 || i == |s| + 1
    ensures 0 < i <= |s| ==> At(head, s, i) == s[i - 1]
  {
  }

  lemma RingNoTwice(head: ListHead, s: seq<ListHead>)
    requires Ring(head, s)
    ensures NoTwice(head, s)
  {
  }

  /** How many entries a traversal visits: up to the first one that ends it. */
  function Visited(s: seq<ListHead>, n: nat, go: ListHead -> bool): (r: nat)
    requires n <= |s|
    ensures n <= r <= |s|
    decreases |s| - n
  {
    if n == |s| then n else if go(s[n]) then Visited(s, n + 1, go) else n + 1
  }

  /** All entries before the last visited one let the traversal go on, and if it
      did not reach the end the last one did not. Each entry is visited once. */
  lemma {:induction false} VisitedIs(head: ListHead, s: seq<ListHead>, n: nat, go: ListHead -> bool)
    requires NoTwice(head, s) && n <= |s|
    ensures var r := Visited(s, n, go);
      && (n < |s| ==> n < r) && (forall i :: n <= i < r - 1 ==> go(s[i]))
      && (r < |s| ==> !go(s[r - 1])) && NoTwice(head, s[..r])
    decreases |s| - n
  {
    if n < |s| && go(s[n]) {
      VisitedIs(head, s, n + 1, go);
      var r := Visited(s, n, go);
      forall i | n <= i < r - 1 ensures go(s[i]) {
        if i > n { assert go(s[i]); }
      }
    }
  }

  function Surviving(s: seq<ListHead>, del: ListHead -> bool): seq<ListHead> {
    if s == [] then [] else (if del(s[0]) then [] else [s[0]]) + Surviving(s[1..], del)
  }

  lemma VisitedStep(s: seq<ListHead>, n: nat, go: ListHead -> bool)
    requires n <= |s|
    ensures Visited(s, n, go) == if n == |s| then n else if go(s[n]) then Visited(s, n + 1, go) else n + 1
  {
  }

  /** `ListForEachInList` with a callback that leaves the list alone. */
  method ListForEachInList(go: ListHead -> bool, head: ListHead, ghost s: seq<ListHead>) returns (visited: seq<ListHead>)
    requires Ring(head, s)
    ensures visited == s[..Visited(s, 0, go)]
  {
    hide Visited, At, Ring, NoTwice;
    RingNoTwice(head, s);
    AtHead(head, s, 0);
    Successor(head, s, 0);
    visited := [];
    var pos := head.Next;
    ghost var n := 0;
    while pos != head
      invariant n <= |s| && visited == s[..n] && pos == At(head, s, n + 1)
      invariant Visited(s, n, go) == Visited(s, 0, go)
      decreases |s| - n
    {
      AtHead(head, s, n + 1);
      Successor(head, s, n + 1);
      VisitedStep(s, n, go);
      visited := visited + [pos];
      if !go(pos) {
        return;
      }
      n := n + 1;
      pos := pos.Next;
    }
    AtHead(head, s, n + 1);
    VisitedStep(s, n, go);
  }

  lemma SurvivingAppend(s: seq<ListHead>, x: ListHead, del: ListHead -> bool)
    ensures Surviving(s + [x], del) == Surviving(s, del) + if del(x) then [] else [x]
  {
    if s != [] {
      assert (s + [x])[1..] == s[1..] + [x];
      SurvivingAppend(s[1..], x, del);
    }
  }

  /** What the callback of the safe traversal does with the current entry. */
  method Callback(entry: ListHead, delete: bool, ghost head: ListHead, ghost t: seq<ListHead>, ghost k: nat, ghost s: seq<ListHead>)
    requires Ring(head, t) && k < |t| && entry == t[k] && Subset(t, s)
    modifies head, s
    ensures Ring(head, if delete then Removed(t, k) else t)
  {
    hide Removed, NoTwice;
    if delete {
      assert Linked(At(head, t, k), At(head, t, k + 1)) && Linked(At(head, t, k + 1), At(head, t, k + 2));
      InRing(head, t, s, k);
      InRing(head, t, s, k + 1);
      InRing(head, t, s, k + 2);
      ListDel(entry, head, t, k);
    }
  }

  lemma InRing(head: ListHead, t: seq<ListHead>, s: seq<ListHead>, i: nat)
    requires Subset(t, s) && i <= |t| + 1
    ensures At(head, t, i) == head || At(head, t, i) in s
  {
  }

  /** One round: the successor is read before the callback runs. */
  method VisitOne(pos: ListHead, delete: bool, ghost head: ListHead, ghost s: seq<ListHead>, ghost n: nat, ghost del: ListHead -> bool)
    returns (next: ListHead?)
    requires n < |s| && Ring(head, Rest(s, n, del)) && pos == s[n] && delete == del(pos)
    modifies head, s
    ensures next == At(head, s, n + 2) && Ring(head, Rest(s, n + 1, del))
  {
    hide Ring, Rest, At, NoTwice, Subset, Removed;
    ghost var k := RestStep(head, s, n, del);
    ghost var t := Rest(s, n, del);
    Successor(head, t, k + 1);
    next := pos.Next;
    Callback(pos, delete, head, t, k, s);
  }

  /** `ListForEachInListSafe` with a callback that may delete the current entry:
      the traversal is the one of the original list, and exactly the visited
      entries that the callback deletes are gone. */
  method ListForEachInListSafe(go: ListHead -> bool, del: ListHead -> bool, head: ListHead, ghost s: seq<ListHead>)
    returns (visited: seq<ListHead>)
    requires Ring(head, s)
    modifies head, s
    ensures visited == s[..Visited(s, 0, go)]
    ensures Ring(head, Rest(s, |visited|, del))
  {
    hide Visited, Surviving, Removed, Ring, Rest, At, NoTwice, Subset;
    RingNoTwice(head, s);
    AtHead(head, s, 0);
    Successor(head, s, 0);
    visited := [];
    var pos := head.Next;
    ghost var n := 0;
    RestStart(s, del);
    while pos != head
      invariant n <= |s| && visited == s[..n] && pos == At(head, s, n + 1)
      invariant Ring(head, Rest(s, n, del))
      invariant Visited(s, n, go) == Visited(s, 0, go)
      decreases |s| - n
    {
      AtHead(head, s, n + 1);
      VisitedStep(s, n, go);
      var next := VisitOne(pos, del(pos), head, s, n, del);
      visited := visited + [pos];
      if !go(pos) {
        return;
      }
      n := n + 1;
      pos := next;
    }
    AtHead(head, s, n + 1);
    VisitedStep(s, n, go);
  }

  /** What the list holds after its first `n` entries were visited. */
  ghost function Rest(s: seq<ListHead>, n: nat, del: ListHead -> bool): seq<ListHead>
    requires n <= |s|
  {
    Surviving(s[..n], del) + s[n..]
  }

  lemma RestStart(s: seq<ListHead>, del: ListHead -> bool)
    ensures Rest(s, 0, del) == s
  {
    assert s[0..] == s && s[..0] == [];
  }

  /** The current entry, the one after it, and what the callback leaves. */
  lemma RestStep(head: ListHead, s: seq<ListHead>, n: nat, del: ListHead -> bool) returns (k: nat)
    requires n < |s|
    ensures var t := Rest(s, n, del);
      && k < |t| && t[k] == s[n] && At(head, t, k + 1) == s[n] && At(head, t, k + 2) == At(head, s, n + 2)
      && Rest(s, n + 1, del) == (if del(s[n]) then Removed(t, k) else t)
      && Subset(t, s)
  {
    hide Surviving;
    var a, b := Surviving(s[..n], del), s[n + 1..];
    k := |a|;
    SurvivingAppend(s[..n], s[n], del);
    SurvivorsIn(s[..n], del);
    assert s[..n + 1] == s[..n] + [s[n]];
    assert s[n..] == [s[n]] + b;
    Joined(head, a, s[n], b);
    assert Rest(s, n, del) == a + [s[n]] + b;
    assert b != [] ==> b[0] == s[n + 1];
  }

  lemma Joined(head: ListHead, a: seq<ListHead>, x: ListHead, b: seq<ListHead>)
    ensures var t := a + [x] + b;
      && t[|a|] == x && At(head, t, |a| + 1) == x && At(head, t, |a| + 2) == (if b == [] then head else b[0])
      && Removed(t, |a|) == a + b
  {
  }

  predicate Subset(t: seq<ListHead>, s: seq<ListHead>) { forall x :: x in t ==> x in s }

  lemma SurvivorsIn(s: seq<ListHead>, del: ListHead -> bool)
    ensures Subset(Surviving(s, del), s)
  {
    if s != [] { SurvivorsIn(s[1..], del); }
  }
}
