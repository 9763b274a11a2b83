// The intrusive circular doubly linked list of lab/zeos/list.c, on the heap.

module ListHeads {
  import opened Common

  /** struct list_head.  entry is what list_entry recovers by pointer arithmetic:
      the index of the PCB the node is embedded in, or -1 for the head of a queue. */
  class ListHead {
    var next: ListHead?
    var prev: ListHead?
    const entry: int

    constructor (entry: int)
      ensures this.entry == entry
    {
      this.entry := entry;
      next, prev := null, null;
    }
  }

  /** The list as a walk from the head back to the head. */
  ghost function Walk(head: ListHead, s: seq<ListHead>): seq<ListHead> {
    [head] + s + [head]
  }

  /** Neighbours along w point at each other. */
  ghost predicate Linked(w: seq<ListHead>)
    reads w
  {
    && (forall i {:trigger w[i].next} :: 0 <= i < |w| - 1 ==> w[i].next == w[i + 1])
    && (forall i {:trigger w[i].prev} :: 1 <= i < |w| ==> w[i].prev == w[i - 1])
  }

  /** head is a well-formed circular list whose elements, in order, are s. */
  ghost predicate IsList(head: ListHead, s: seq<ListHead>)
    reads head, s
  {
    && Distinct([head] + s)
    && Linked(Walk(head, s))
  }

  /** Every node of the list starts one link of the walk and ends one link of it. */
  lemma WalkVisitsOnce(head: ListHead, s: seq<ListHead>)
    requires Distinct([head] + s)
    ensures forall i, j :: 0 <= i < j <= |s| ==> Walk(head, s)[i] != Walk(head, s)[j]
    ensures forall i, j :: 1 <= i < j <= |s| + 1 ==> Walk(head, s)[i] != Walk(head, s)[j]
  {
    var w := Walk(head, s);
    forall i, j | 0 <= i < j <= |s|
      ensures w[i] != w[j]
    {
      assert w[i] == ([head] + s)[i] && w[j] == ([head] + s)[j];
    }
    forall i, j | 1 <= i < j <= |s| + 1
      ensures w[i] != w[j]
    {
      assert w[i] == ([head] + s)[i] && w[j] == ([head] + s)[if j == |s| + 1 then 0 else j];
    }
  }

  lemma InsertKeepsDistinct<T>(u: seq<T>, x: T, k: nat)
    requires Distinct(u) && x !in u && k <= |u|
    ensures Distinct(u[..k] + [x] + u[k..])
  {
  }

  lemma RemoveKeepsDistinct<T>(u: seq<T>, k: nat)
    requires Distinct(u) && k < |u|
    ensures Distinct(u[..k] + u[k + 1..]) && u[k] !in u[..k] + u[k + 1..]
  {
  }

  lemma WalkAfterInsert(head: ListHead, s: seq<ListHead>, node: ListHead, k: nat)
    requires Distinct([head] + s) && node !in [head] + s && k <= |s|
    ensures Distinct([head] + (s[..k] + [node] + s[k..]))
    ensures var w, w' := Walk(head, s), Walk(head, s[..k] + [node] + s[k..]);
            && |w'| == |w| + 1
            && forall i {:trigger w'[i]} :: 0 <= i < |w'| ==>
                 w'[i] == if i <= k then w[i] else if i == k + 1 then node else w[i - 1]
  {
    InsertKeepsDistinct([head] + s, node, k + 1);
    assert [head] + (s[..k] + [node] + s[k..]) == ([head] + s)[..k + 1] + [node] + ([head] + s)[k + 1..];
  }

  lemma WalkAfterRemove(head: ListHead, s: seq<ListHead>, k: nat)
    requires Distinct([head] + s) && k < |s|
    ensures Distinct([head] + (s[..k] + s[k + 1..]))
    ensures var w, w' := Walk(head, s), Walk(head, s[..k] + s[k + 1..]);
            && |w'| == |w| - 1
            && forall i {:trigger w'[i]} :: 0 <= i < |w'| ==> w'[i] == if i <= k then w[i] else w[i + 1]
  {
    RemoveKeepsDistinct([head] + s, k + 1);
    assert [head] + (s[..k] + s[k + 1..]) == ([head] + s)[..k + 1] + ([head] + s)[k + 2..];
  }

  method InitListHead(list: ListHead)
    modifies list
    ensures IsList(list, [])
  {
    list.next := list;
    list.prev := list;
  }

  /** __list_add */
  method Insert(node: ListHead, before: ListHead, after: ListHead, ghost head: ListHead, ghost s: seq<ListHead>, ghost k: nat)
    requires IsList(head, s) && node !in [head] + s && k <= |s|
    requires before == Walk(head, s)[k] && after == Walk(head, s)[k + 1]
    modifies node, before, after
    ensures IsList(head, s[..k] + [node] + s[k..])
  {
    WalkVisitsOnce(head, s);
    WalkAfterInsert(head, s, node, k);
    after.prev := node;
    node.next := after;
    node.prev := before;
    before.next := node;

  }

  /** list_add: the new node becomes the first element. */
  method ListAdd(node: ListHead, head: ListHead, ghost s: seq<ListHead>)
    requires IsList(head, s) && node !in [head] + s
    modifies node, head, s
    ensures IsList(head, [node] + s)
  {
    assert Walk(head, s)[0] == head;
    Insert(node, head, head.next, head, s, 0);
    assert s[..0] + [node] + s[0..] == [node] + s;
  }

  /** list_add_tail: the new node becomes the last element. */
  method ListAddTail(node: ListHead, head: ListHead, ghost s: seq<ListHead>)
    requires IsList(head, s) && node !in [head] + s
    modifies node, head, s
    ensures IsList(head, s + [node])
  {
    assert Walk(head, s)[|s|].next == head;
    Insert(node, head.prev, head, head, s, |s|);
    assert s[..|s|] + [node] + s[|s|..] == s + [node];
  }

  /** list_del: the element at position k leaves the list and keeps no links. */
  method ListDel(node: ListHead, ghost head: ListHead, ghost s: seq<ListHead>, ghost k: nat)
    requires IsList(head, s) && k < |s| && node == s[k]
    modifies head, s
    ensures IsList(head, s[..k] + s[k + 1..])
    ensures node.next == null && node.prev == null
  {
    WalkVisitsOnce(head, s);
    WalkAfterRemove(head, s, k);
    ghost var w := Walk(head, s);
    assert w[k + 1] == node && node.prev == w[k] && node.next == w[k + 2];
    node.next.prev := node.prev;
    node.prev.next := node.next;
    node.next := null;
    node.prev := null;
  }

  /** list_empty */
  method ListEmpty(head: ListHead, ghost s: seq<ListHead>) returns (empty: bool)
    requires IsList(head, s)
    ensures empty <==> s == []
  {
    assert Walk(head, s)[0] == head;
    empty := head.next == head;
  }

  /** list_first */
  method ListFirst(head: ListHead, ghost s: seq<ListHead>) returns (first: ListHead)
    requires IsList(head, s)
    ensures first == if s == [] then head else s[0]
  {
    assert Walk(head, s)[0] == head;
    first := head.next;
  }

  /** list_is_last */
  method ListIsLast(node: ListHead, head: ListHead, ghost s: seq<ListHead>) returns (last: bool)
    requires IsList(head, s) && node in s
    ensures last <==> node == s[|s| - 1]
  {
    ghost var k :| 0 <= k < |s| && s[k] == node;
    WalkVisitsOnce(head, s);
    ghost var w := Walk(head, s);
    assert w[k + 1] == node && w[k + 1].next == w[k + 2];
    assert w[|s| + 1] == w[0] == head && w[|s|] == s[|s| - 1];
    if k < |s| - 1 {
      assert w[k + 2] != w[|s| + 1];
    }
    last := node.next == head;
  }
}
