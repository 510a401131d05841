/**
  The intrusive circular doubly linked list of elist.h.  A list is a ring of nodes starting at its
  head; every operation is proved against an operation on the sequence of nodes.
 */
module RingList {

  /** struct list_head; data stands for the structure the node is embedded in. */
  class Node {
    var next: Node?
    var prev: Node?
    var data: int

    /** INIT_LIST_HEAD on a new node. */
    constructor (data: int)
      ensures Ring([this]) && this.data == data
    {
      this.data := data;
      next := this;
      prev := this;
    }
  }

  /** The node after position i, going around. */
  function After(r: seq<Node>, i: nat): Node
    requires i < |r|
  {
    if i + 1 < |r| then r[i + 1] else r[0]
  }

  function Item(r: seq<Node>, i: nat): Node
    requires i < |r|
  {
    r[i]
  }

  /** r lists the nodes of a ring from its head on: distinct nodes, next and prev inverse. */
  ghost predicate Ring(r: seq<Node>)
    reads r
  {
    && |r| > 0
    && (forall i, j :: 0 <= i < j < |r| ==> r[i] != r[j])
    && (forall i :: 0 <= i < |r| ==> r[i].next == After(r, i) && After(r, i).prev == r[i])
  }

  lemma LastPrev(r: seq<Node>)
    requires Ring(r)
    ensures r[0].prev == r[|r| - 1] && r[|r| - 1].next == r[0]
  {
  }

  lemma InsertedDistinct(r: seq<Node>, n: Node, k: nat)
    requires k <= |r| && n !in r && forall i, j :: 0 <= i < j < |r| ==> r[i] != r[j]
    ensures var s := r[..k] + [n] + r[k..];
            forall i, j :: 0 <= i < j < |s| ==> s[i] != s[j]
  {
  }

  /** __list_add between positions k and k + 1. */
  method InsertAfter(n: Node, p: Node, q: Node, ghost r: seq<Node>, ghost k: nat)
    requires Ring(r) && n !in r && k < |r| && p == r[k] && q == After(r, k)
    modifies n`next, n`prev, p`next, q`prev
    ensures Ring(r[..k + 1] + [n] + r[k + 1..])
  {
    ghost var s := r[..k + 1] + [n] + r[k + 1..];
    q.prev := n;
    n.next := q;
    n.prev := p;
    p.next := n;
    InsertedDistinct(r, n, k + 1);
    forall i | 0 <= i < |s|
      ensures s[i].next == After(s, i) && After(s, i).prev == s[i]
    {
      if i < k {
        assert old(r[i].next == After(r, i) && After(r, i).prev == r[i]);
        assert s[i] == r[i] && After(s, i) == r[i + 1];
      } else if i > k + 1 {
        assert s[i] == r[i - 1] && After(s, i) == After(r, i - 1);
        assert old(r[i - 1].next == After(r, i - 1) && After(r, i - 1).prev == r[i - 1]);
      } else if i == k + 1 {
        assert s[i] == n && After(s, i) == q;
      }
    }
  }

  /** list_add: the node becomes the first after the head. */
  method ListAdd(n: Node, head: Node, ghost r: seq<Node>)
    requires Ring(r) && r[0] == head && n !in r
    modifies n`next, n`prev, head`next, After(r, 0)`prev
    ensures Ring([head, n] + r[1..])
  {
    assert r[0].next == After(r, 0);
    InsertAfter(n, head, head.next, r, 0);
    assert r[..1] + [n] + r[1..] == [head, n] + r[1..];
  }

  /** list_add_tail: the node becomes the last before the head. */
  method ListAddTail(n: Node, head: Node, ghost r: seq<Node>)
    requires Ring(r) && r[0] == head && n !in r
    modifies n`next, n`prev, Item(r, |r| - 1)`next, head`prev
    ensures Ring(r + [n])
  {
    LastPrev(r);
    InsertAfter(n, head.prev, head, r, |r| - 1);
    assert r[..|r|] + [n] + r[|r|..] == r + [n];
  }

  /** __list_del of the node at position k: its neighbours are joined. */
  method Unlink(n: Node, ghost r: seq<Node>, ghost k: nat)
    requires Ring(r) && 0 < k < |r| && n == r[k]
    modifies Item(r, k - 1)`next, After(r, k)`prev
    ensures Ring(r[..k] + r[k + 1..])
    ensures n.next == old(n.next) && n.prev == old(n.prev)
  {
    ghost var s := r[..k] + r[k + 1..];
    assert After(r, k - 1) == n && n.prev == r[k - 1] && n.next == After(r, k);
    var p, q := n.prev, n.next;
    q.prev := p;
    p.next := q;
    forall i | 0 <= i < |s|
      ensures s[i].next == After(s, i) && After(s, i).prev == s[i]
    {
      if i < k - 1 {
        assert old(r[i].next == After(r, i) && After(r, i).prev == r[i]);
      } else if i > k - 1 {
        assert s[i] == r[i + 1];
        assert old(r[i + 1].next == After(r, i + 1) && After(r, i + 1).prev == r[i + 1]);
      }
    }
  }

  /** list_del */
  method ListDel(n: Node, ghost r: seq<Node>, ghost k: nat)
    requires Ring(r) && 0 < k < |r| && n == r[k]
    modifies Item(r, k - 1)`next, After(r, k)`prev, n`next, n`prev
    ensures Ring(r[..k] + r[k + 1..])
    ensures n.next == null && n.prev == null
  {
    Unlink(n, r, k);
    n.next := null;
    n.prev := null;
  }

  /** list_empty */
  method ListEmpty(head: Node, ghost r: seq<Node>) returns (empty: bool)
    requires Ring(r) && r[0] == head
    ensures empty <==> |r| == 1
  {
    assert r[0].next == After(r, 0);
    empty := head.next == head;
  }

  ghost predicate Apart(r: seq<Node>, s: seq<Node>)
  {
    forall i, j :: 0 <= i < |r| && 0 <= j < |s| ==> r[i] != s[j]
  }

  /** list_del_init: the node is left as a ring of its own. */
  method ListDelInit(n: Node, ghost r: seq<Node>, ghost k: nat)
    requires Ring(r) && 0 < k < |r| && n == r[k]
    modifies Item(r, k - 1)`next, After(r, k)`prev, n`next, n`prev
    ensures Ring(r[..k] + r[k + 1..]) && Ring([n])
  {
    Unlink(n, r, k);
    n.next := n;
    n.prev := n;
  }

  /** list_move to another list. */
  method ListMove(n: Node, head: Node, ghost r: seq<Node>, ghost k: nat, ghost s: seq<Node>)
    requires Ring(r) && 0 < k < |r| && n == r[k]
    requires Ring(s) && s[0] == head && Apart(r, s)
    modifies r, s
    ensures Ring(r[..k] + r[k + 1..]) && Ring([head, n] + s[1..])
  {
    Unlink(n, r, k);
    assert Ring(s);
    ghost var rest := r[..k] + r[k + 1..];
    assert n !in s && n !in rest && Apart(rest, s);
    ListAdd(n, head, s);
    assert Ring(rest);
  }

  /** list_move within one list: the node comes to the front. */
  method ListMoveToFront(n: Node, head: Node, ghost r: seq<Node>, ghost k: nat)
    requires Ring(r) && 0 < k < |r| && n == r[k] && r[0] == head
    modifies r
    ensures Ring([head, n] + r[1..k] + r[k + 1..])
  {
    Unlink(n, r, k);
    ghost var rest := r[..k] + r[k + 1..];
    assert n !in rest && rest[0] == head;
    ListAdd(n, head, rest);
    assert [head, n] + rest[1..] == [head, n] + r[1..k] + r[k + 1..];
  }

  /** list_move_tail to another list. */
  method ListMoveTail(n: Node, head: Node, ghost r: seq<Node>, ghost k: nat, ghost s: seq<Node>)
    requires Ring(r) && 0 < k < |r| && n == r[k]
    requires Ring(s) && s[0] == head && Apart(r, s)
    modifies r, s
    ensures Ring(r[..k] + r[k + 1..]) && Ring(s + [n])
  {
    Unlink(n, r, k);
    assert Ring(s);
    ghost var rest := r[..k] + r[k + 1..];
    assert n !in s && n !in rest && Apart(rest, s);
    ListAddTail(n, head, s);
    assert Ring(rest);
  }

  /** list_move_tail within one list: the node comes to the back. */
  method ListMoveToBack(n: Node, head: Node, ghost r: seq<Node>, ghost k: nat)
    requires Ring(r) && 0 < k < |r| && n == r[k] && r[0] == head
    modifies r
    ensures Ring(r[..k] + r[k + 1..] + [n])
  {
    Unlink(n, r, k);
    ghost var rest := r[..k] + r[k + 1..];
    assert n !in rest && rest[0] == head;
    ListAddTail(n, head, rest);
  }

  lemma SplicedDistinct(r: seq<Node>, s: seq<Node>)
    requires |r| > 0 && |s| > 0 && Apart(r, s)
    requires forall i, j :: 0 <= i < j < |r| ==> r[i] != r[j]
    requires forall i, j :: 0 <= i < j < |s| ==> s[i] != s[j]
    ensures var t := [s[0]] + r[1..] + s[1..];
            forall i, j :: 0 <= i < j < |t| ==> t[i] != t[j]
  {
  }

  /** __list_splice: the members of the list r come right after the head of s. */
  method Splice(list: Node, head: Node, ghost r: seq<Node>, ghost s: seq<Node>)
    requires Ring(r) && r[0] == list && |r| > 1
    requires Ring(s) && s[0] == head && Apart(r, s)
    modifies r, s
    ensures Ring([head] + r[1..] + s[1..])
  {
    ghost var t := [head] + r[1..] + s[1..];
    LastPrev(r);
    assert list.next == After(r, 0) == r[1] && head.next == After(s, 0);
    var first, last, at := list.next, list.prev, head.next;
    first.prev := head;
    head.next := first;
    last.next := at;
    at.prev := last;
    ghost var m := |r| - 1;
    assert forall i :: 1 <= i <= m ==> t[i] == r[i];
    assert forall i :: m < i < |t| ==> t[i] == s[i - m];
    SplicedDistinct(r, s);
    forall i | 0 <= i < |t|
      ensures t[i].next == After(t, i) && After(t, i).prev == t[i]
    {
      if 0 < i < m {
        assert t[i] == r[i] && After(t, i) == r[i + 1];
        assert old(r[i].next == After(r, i) && After(r, i).prev == r[i]);
      } else if i == m {
        assert t[i] == last && After(t, i) == at;
      } else if i > m {
        assert t[i] == s[i - m] && After(t, i) == After(s, i - m);
        assert old(s[i - m].next == After(s, i - m) && After(s, i - m).prev == s[i - m]);
      }
    }
  }

  /** list_splice_init: the emptied list becomes a ring of its head alone. */
  method ListSpliceInit(list: Node, head: Node, ghost r: seq<Node>, ghost s: seq<Node>)
    requires Ring(r) && r[0] == list
    requires Ring(s) && s[0] == head && Apart(r, s)
    modifies r, s
    ensures Ring([head] + r[1..] + s[1..]) && Ring([list])
  {
    var empty := ListEmpty(list, r);
    if empty {
      assert [head] + r[1..] + s[1..] == s && r == [list];
    } else {
      Splice(list, head, r, s);
      ghost var t := [head] + r[1..] + s[1..];
      assert list !in t;
      list.next := list;
      list.prev := list;
      assert Ring(t);
    }
  }
}
