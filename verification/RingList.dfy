/** The intrusive circular doubly linked list: every node carries its two links, the list head is
    a node like any other, and a node that is in no list is a ring of its own. */
module RingList {

  class Node {
    var next: Node
    var prev: Node

    /** `LIST_Init`. */
    constructor ()
      ensures Ring([this])
    {
      next := this;
      prev := this;
    }
  }

  /** The place after `i` around a ring of `n`. */
  function After(i: nat, n: nat): nat
    requires i < n
  {
    if i + 1 == n then 0 else i + 1
  }

  function Before(i: nat, n: nat): nat
    requires i < n
  {
    if i == 0 then n - 1 else i - 1
  }

  ghost predicate Distinct(s: seq<Node>) {
    forall i, j :: 0 <= i < j < |s| ==> s[i] != s[j]
  }

  /** The place `i` of `s` is properly linked to the next one around. */
  ghost predicate Linked(s: seq<Node>, i: nat)
    requires i < |s|
    reads s
  {
    s[i].next == s[After(i, |s|)] && s[After(i, |s|)].prev == s[i]
  }

  /** The nodes of `s`, in this order, form a whole ring: next and prev are inverse to each other
      all around it. */
  ghost predicate Ring(s: seq<Node>)
    reads s
  {
    s != [] && Distinct(s) && forall i :: 0 <= i < |s| ==> Linked(s, i)
  }

  ghost function Inserted(s: seq<Node>, k: nat, n: Node): seq<Node>
    requires k <= |s|
  {
    s[..k] + [n] + s[k..]
  }

  ghost function Removed(s: seq<Node>, k: nat): seq<Node>
    requires k < |s|
  {
    s[..k] + s[k + 1..]
  }

  /** Any other list, or none: its nodes are neither in `s` nor the node `n`. */
  ghost predicate OtherList(other: seq<Node>, s: seq<Node>, n: Node)
    reads other
  {
    other != [] ==> Ring(other) && forall i :: 0 <= i < |other| ==> other[i] !in s && other[i] != n
  }

  lemma InsertKeepsDistinct(s: seq<Node>, k: nat, n: Node)
    requires Distinct(s) && n !in s && k <= |s|
    ensures Distinct(Inserted(s, k, n))
  {
  }

  lemma RemoveKeepsDistinct(s: seq<Node>, k: nat)
    requires Distinct(s) && k < |s|
    ensures Distinct(Removed(s, k)) && s[k] !in Removed(s, k)
  {
  }

  /** `LIST_InsertAfter`: `l` is the node at place `k` of a ring, `n` is not in the ring. */
  method InsertAfter(l: Node, n: Node, ghost s: seq<Node>, ghost k: nat, ghost other: seq<Node>)
    requires Ring(s) && k < |s| && s[k] == l && n !in s && OtherList(other, s, n)
    modifies l, l.next, n
    ensures Ring(Inserted(s, k + 1, n))
    ensures other != [] ==> Ring(other)
  {
    assert Linked(s, k);
    l.next.prev := n;
    n.next := l.next;
    l.next := n;
    n.prev := l;
    ghost var t := Inserted(s, k + 1, n);
    InsertKeepsDistinct(s, k + 1, n);
    forall i | 0 <= i < |t|
      ensures Linked(t, i)
    {
      if i < k {
        assert old(Linked(s, i));
      } else if i > k + 1 {
        assert old(Linked(s, i - 1));
        assert t[After(i, |t|)] == s[After(i - 1, |s|)];
      }
    }
  }

  /** `LIST_InsertBefore`. */
  method InsertBefore(l: Node, n: Node, ghost s: seq<Node>, ghost k: nat, ghost other: seq<Node>)
    requires Ring(s) && k < |s| && s[k] == l && n !in s && OtherList(other, s, n)
    modifies l, l.prev, n
    ensures Ring(Inserted(s, k, n))
    ensures other != [] ==> Ring(other)
  {
    ghost var j := Before(k, |s|);
    assert Linked(s, j);
    l.prev.next := n;
    n.prev := l.prev;
    l.prev := n;
    n.next := l;
    ghost var t := Inserted(s, k, n);
    InsertKeepsDistinct(s, k, n);
    forall i | 0 <= i < |t|
      ensures Linked(t, i)
    {
      if i + 1 < k {
        assert old(Linked(s, i));
      } else if i > k {
        assert old(Linked(s, i - 1));
        if i == |s| {
          assert t[After(i, |t|)] == if k == 0 then n else s[0];
        }
      }
    }
  }

  /** `LIST_Remove`: the rest of the ring closes up, and the node becomes a ring of its own. */
  method Remove(n: Node, ghost s: seq<Node>, ghost k: nat, ghost other: seq<Node>)
    requires Ring(s) && k < |s| && s[k] == n && OtherList(other, s, n)
    modifies n, n.next, n.prev
    ensures Ring([n])
    ensures |s| > 1 ==> Ring(Removed(s, k))
    ensures other != [] ==> Ring(other)
  {
    ghost var j := Before(k, |s|);
    assert Linked(s, j) && Linked(s, k);
    n.next.prev := n.prev;
    n.prev.next := n.next;
    n.next := n;
    n.prev := n;
    if |s| > 1 {
      ghost var t := Removed(s, k);
      RemoveKeepsDistinct(s, k);
      forall i | 0 <= i < |t|
        ensures Linked(t, i)
      {
        if i + 1 < k {
          assert old(Linked(s, i));
        } else if i >= k {
          assert old(Linked(s, i + 1));
        }
      }
    }
  }

  /** `LIST_Isempty`: a ring with no node but its head. */
  method IsEmpty(l: Node, ghost s: seq<Node>, ghost k: nat) returns (empty: bool)
    requires Ring(s) && k < |s| && s[k] == l
    ensures empty <==> |s| == 1
  {
    assert Linked(s, k);
    empty := l.next == l;
  }

  /** `LIST_ForEachEntry`: the loop visits every node but the head, once, in list order. */
  method ForEach(head: Node, ghost s: seq<Node>) returns (visited: seq<Node>)
    requires Ring(s) && s[0] == head
    ensures visited == s[1..]
  {
    visited := [];
    assert Linked(s, 0);
    var pos := head.next;
    ghost var i := After(0, |s|);
    while pos != head
      invariant 0 <= i < |s| && pos == s[i]
      invariant visited == if i == 0 then s[1..] else s[1..i]
      decreases if i == 0 then 0 else |s| - i
    {
      visited := visited + [pos];
      assert Linked(s, i);
      pos := pos.next;
      i := After(i, |s|);
    }
  }

  /** Removing what was just inserted gives the list back. */
  lemma RemoveUndoesInsert(s: seq<Node>, k: nat, n: Node)
    requires k <= |s|
    ensures Removed(Inserted(s, k, n), k) == s
  {
  }

  /** Insert and remove in the heap: the ring is as before and the node is alone again. */
  method InsertThenRemove(l: Node, n: Node, ghost s: seq<Node>, ghost k: nat, ghost other: seq<Node>)
    requires Ring(s) && k < |s| && s[k] == l && n !in s && OtherList(other, s, n)
    modifies s, n
    ensures Ring(s) && Ring([n]) && (other != [] ==> Ring(other))
  {
    assert Linked(s, k);
    InsertAfter(l, n, s, k, other);
    ghost var t := Inserted(s, k + 1, n);
    RemoveUndoesInsert(s, k + 1, n);
    assert t[k + 1] == n && Linked(t, k) && Linked(t, k + 1);
    assert forall x :: x in t ==> x in s || x == n;
    hide Ring, Inserted, Removed;
    Remove(n, t, k + 1, other);
  }

  /** A ring is determined by its first node: the links leave no freedom. */
  lemma RingIsDetermined(s: seq<Node>, t: seq<Node>)
    requires Ring(s) && Ring(t) && s[0] == t[0]
    ensures s == t
  {
    var m := if |s| <= |t| then |s| else |t|;
    SamePlaces(s, t, m - 1);
    assert Linked(s, m - 1) && Linked(t, m - 1);
    assert |s| == |t| by {
      if |s| < |t| {
        assert false;
      } else if |t| < |s| {
        assert false;
      }
    }
  }

  lemma {:induction false} SamePlaces(s: seq<Node>, t: seq<Node>, i: nat)
    requires Ring(s) && Ring(t) && s[0] == t[0] && i < |s| && i < |t|
    ensures forall j :: 0 <= j <= i ==> s[j] == t[j]
  {
    if i > 0 {
      SamePlaces(s, t, i - 1);
      assert Linked(s, i - 1) && Linked(t, i - 1);
    }
  }

  ghost function Rotated(s: seq<Node>, k: nat): seq<Node>
    requires k < |s|
  {
    s[k..] + s[..k]
  }

  /** A ring may be read from any of its nodes. */
  lemma RotationIsRing(s: seq<Node>, k: nat)
    requires Ring(s) && k < |s|
    ensures Ring(Rotated(s, k))
  {
    var t, n := Rotated(s, k), |s|;
    forall i | 0 <= i < n
      ensures Linked(t, i)
    {
      var p := if k + i < n then k + i else k + i - n;
      assert Linked(s, p);
      assert t[i] == s[p] && t[After(i, n)] == s[After(p, n)];
    }
  }

  /** Two rings that share a node are the same ring read from different nodes; so different lists
      never overlap. */
  lemma RingsShareAllOrNothing(s: seq<Node>, t: seq<Node>, i: nat, j: nat)
    requires Ring(s) && Ring(t) && i < |s| && j < |t| && s[i] == t[j]
    ensures Rotated(s, i) == Rotated(t, j)
  {
    RotationIsRing(s, i);
    RotationIsRing(t, j);
    RingIsDetermined(Rotated(s, i), Rotated(t, j));
  }
}
