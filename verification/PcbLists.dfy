// All circular lists of the kernel on one heap: the PCB nodes and the heads of the free, ready,
// blocked and mutex queues.  The operations on one list leave every other list as it was.

module PcbListsOnHeap {
  import opened Common
  import opened ListHeads

  ghost predicate InRange(x: seq<nat>, n: nat) {
    forall i :: 0 <= i < |x| ==> x[i] < n
  }

  /** The list nodes of the PCBs in x. */
  ghost function Nodes(node: seq<ListHead>, x: seq<nat>): (s: seq<ListHead>)
    requires InRange(x, |node|)
    ensures |s| == |x| && forall i :: 0 <= i < |x| ==> s[i] == node[x[i]]
  {
    seq(|x|, i requires 0 <= i < |x| => node[x[i]])
  }

  /** Every element of queue d is placed in d, so no two queues share an element. */
  ghost predicate Placed(q: seq<seq<nat>>, place: map<nat, nat>) {
    forall d, i {:trigger q[d][i]} :: 0 <= d < |q| && 0 <= i < |q[d]| ==>
      q[d][i] < NR_TASKS && q[d][i] in place && place[q[d][i]] == d
  }

  lemma PlacedAfterRemove(q: seq<seq<nat>>, place: map<nat, nat>, d: nat, k: nat)
    requires Placed(q, place) && d < |q| && k < |q[d]|
    requires forall j :: 0 <= j < |q[d]| && j != k ==> q[d][j] != q[d][k]
    ensures Placed(q[d := q[d][..k] + q[d][k + 1..]], place - {q[d][k]})
  {
  }

  lemma NodesDistinct(node: seq<ListHead>, x: seq<nat>, head: ListHead, k: nat)
    requires InRange(x, |node|) && Distinct([head] + Nodes(node, x)) && k < |x|
    ensures forall j :: 0 <= j < |x| && j != k ==> x[j] != x[k]
  {
    var s := [head] + Nodes(node, x);
    assert forall j :: 0 <= j < |x| ==> s[j + 1] == node[x[j]];
  }

  class PcbLists {
    const node: seq<ListHead>          // task[t].list
    const head: seq<ListHead>          // freequeue, readyqueue, blocked, mutexes[m].blocked_queue
    ghost var q: seq<seq<nat>>         // the PCBs in each list, in order
    ghost var place: map<nat, nat>     // the list that each linked PCB is in

    ghost predicate Static() {
      && |node| == NR_TASKS && |head| == NR_QUEUES && Distinct(node + head)
      && forall t :: 0 <= t < NR_TASKS ==> node[t].entry == t
    }

    ghost predicate QueuesInRange()
      reads this
    {
      |q| == NR_QUEUES && forall d :: 0 <= d < NR_QUEUES ==> InRange(q[d], NR_TASKS)
    }

    /** Every list on the heap is well formed and holds what q says, each PCB at most once. */
    ghost predicate Valid()
      reads this, node, head
    {
      && Static() && QueuesInRange() && Placed(q, place)
      && forall d :: 0 <= d < NR_QUEUES ==> IsList(head[d], Nodes(node, q[d]))
    }

    /** The walk around list d. */
    ghost function WalkOf(d: nat): (w: seq<ListHead>)
      requires Static() && QueuesInRange() && d < NR_QUEUES
      reads this
      ensures |w| == |q[d]| + 2
    {
      Walk(head[d], Nodes(node, q[d]))
    }

    /** Position of the i-th object of list d's walk in node + head. */
    ghost function Origin(d: nat, i: nat): nat
      requires QueuesInRange() && d < NR_QUEUES && i < |q[d]| + 2
      reads this
    {
      if i == 0 || i == |q[d]| + 1 then NR_TASKS + d else q[d][i - 1]
    }

    lemma WalkOrigin(d: nat, i: nat)
      requires Static() && QueuesInRange() && d < NR_QUEUES && i < |q[d]| + 2
      ensures Origin(d, i) < NR_TASKS + NR_QUEUES && (node + head)[Origin(d, i)] == WalkOf(d)[i]
    {
    }

    /** The walks around two lists never meet. */
    lemma WalksApart(d: nat)
      requires Static() && QueuesInRange() && Placed(q, place) && d < NR_QUEUES
      ensures forall e, i {:trigger WalkOf(e)[i]} :: 0 <= e < NR_QUEUES && e != d && 0 <= i < |q[e]| + 2 ==>
                WalkOf(e)[i] != head[d] && WalkOf(e)[i] !in Nodes(node, q[d])
    {
      forall e, i | 0 <= e < NR_QUEUES && e != d && 0 <= i < |q[e]| + 2
        ensures WalkOf(e)[i] != head[d] && WalkOf(e)[i] !in Nodes(node, q[d])
      {
        WalkOrigin(e, i);
        assert (node + head)[NR_TASKS + d] == head[d];
        forall j | 0 <= j < |q[d]|
          ensures WalkOf(e)[i] != Nodes(node, q[d])[j]
        {
          assert (node + head)[q[d][j]] == Nodes(node, q[d])[j];
        }
      }
    }

    /** No walk meets the node of an unlinked PCB. */
    lemma NodeOffWalks(t: nat)
      requires Static() && QueuesInRange() && Placed(q, place) && t < NR_TASKS && t !in place
      ensures forall e, i {:trigger WalkOf(e)[i]} :: 0 <= e < NR_QUEUES && 0 <= i < |q[e]| + 2 ==> WalkOf(e)[i] != node[t]
      ensures forall e :: 0 <= e < NR_QUEUES ==> node[t] !in [head[e]] + Nodes(node, q[e])
    {
      assert (node + head)[t] == node[t];
      forall e, i | 0 <= e < NR_QUEUES && 0 <= i < |q[e]| + 2
        ensures WalkOf(e)[i] != node[t]
      {
        WalkOrigin(e, i);
      }
      forall e | 0 <= e < NR_QUEUES
        ensures node[t] !in [head[e]] + Nodes(node, q[e])
      {
        assert forall i :: 0 <= i < |q[e]| + 1 ==> WalkOf(e)[i] == ([head[e]] + Nodes(node, q[e]))[i];
      }
    }

    /** Fresh nodes and INIT_LIST_HEAD on every head. */
    constructor ()
      ensures Valid() && q == seq(NR_QUEUES, d => []) && place == map[]
      ensures (forall t :: 0 <= t < NR_TASKS ==> fresh(node[t])) && (forall d :: 0 <= d < NR_QUEUES ==> fresh(head[d]))
    {
      var n: seq<ListHead>, h: seq<ListHead> := [], [];
      for i := 0 to NR_TASKS
        invariant |n| == i && Distinct(n) && forall j :: 0 <= j < i ==> n[j].entry == j && fresh(n[j])
      {
        var x := new ListHead(i);
        n := n + [x];
      }
      for i := 0 to NR_QUEUES
        invariant |h| == i && Distinct(n + h) && forall j :: 0 <= j < i ==> fresh(h[j]) && IsList(h[j], [])
      {
        var x := new ListHead(-1);
        InitListHead(x);
        assert n + (h + [x]) == n + h + [x];
        h := h + [x];
      }
      node, head, q, place := n, h, seq(NR_QUEUES, d => []), map[];
    }

    /** list_add_tail of task[t].list to list d. */
    method LinkLast(d: nat, t: nat)
      requires Valid() && d < NR_QUEUES && t < NR_TASKS && t !in place
      modifies this, node, head
      ensures Valid() && q == old(q)[d := old(q)[d] + [t]] && place == old(place)[t := d]
    {
      ghost var s := Nodes(node, q[d]);
      WalksApart(d);
      NodeOffWalks(t);
      ListAddTail(node[t], head[d], s);
      forall e: nat | e < NR_QUEUES && e != d
        ensures IsList(head[e], Nodes(node, q[e]))
      {
        assert old(Linked(WalkOf(e)));
      }
      q, place := q[d := q[d] + [t]], place[t := d];
      assert Nodes(node, q[d]) == s + [node[t]];
    }

    /** list_add of task[t].list to list d. */
    method LinkFirst(d: nat, t: nat)
      requires Valid() && d < NR_QUEUES && t < NR_TASKS && t !in place
      modifies this, node, head
      ensures Valid() && q == old(q)[d := [t] + old(q)[d]] && place == old(place)[t := d]
    {
      ghost var s := Nodes(node, q[d]);
      WalksApart(d);
      NodeOffWalks(t);
      ListAdd(node[t], head[d], s);
      forall e: nat | e < NR_QUEUES && e != d
        ensures IsList(head[e], Nodes(node, q[e]))
      {
        assert old(Linked(WalkOf(e)));
      }
      q, place := q[d := [t] + q[d]], place[t := d];
      assert Nodes(node, q[d]) == [node[t]] + s;
    }

    /** list_del of task[t].list, which is element k of list d. */
    method Unlink(t: nat, ghost d: nat, ghost k: nat)
      requires Valid() && d < NR_QUEUES && k < |q[d]| && q[d][k] == t
      modifies this, node, head
      ensures Valid() && q == old(q)[d := old(q)[d][..k] + old(q)[d][k + 1..]] && place == old(place) - {t}
    {
      ghost var s := Nodes(node, q[d]);
      WalksApart(d);
      ListDel(node[t], head[d], s, k);
      forall e: nat | e < NR_QUEUES && e != d
        ensures IsList(head[e], Nodes(node, q[e]))
      {
        assert old(Linked(WalkOf(e)));
      }
      NodesDistinct(node, q[d], head[d], k);
      PlacedAfterRemove(q, place, d, k);
      q, place := q[d := q[d][..k] + q[d][k + 1..]], place - {t};
      assert Nodes(node, q[d]) == s[..k] + s[k + 1..];
    }

    /** list_del of the first element of list d. */
    method UnlinkFirst(t: nat, ghost d: nat)
      requires Valid() && d < NR_QUEUES && q[d] != [] && q[d][0] == t
      modifies this, node, head
      ensures Valid() && q == old(q)[d := old(q)[d][1..]] && place == old(place) - {t}
    {
      Unlink(t, d, 0);
      assert old(q)[d][..0] + old(q)[d][1..] == old(q)[d][1..];
    }

    /** list_empty of list d. */
    method IsEmpty(d: nat) returns (empty: bool)
      requires Valid() && d < NR_QUEUES
      ensures empty <==> q[d] == []
    {
      empty := ListEmpty(head[d], Nodes(node, q[d]));
    }

    /** list_first and list_head_to_task_struct. */
    method First(d: nat) returns (t: nat)
      requires Valid() && d < NR_QUEUES && q[d] != []
      ensures t == q[d][0] && t < NR_TASKS && t in place
    {
      var l := ListFirst(head[d], Nodes(node, q[d]));
      t := l.entry;
    }

    /** The list node of an unlinked PCB may hold anything, such as another node's links. */
    method OverwriteLinks(child: nat, parent: nat)
      requires Valid() && child < NR_TASKS && parent < NR_TASKS && child !in place
      modifies node
      ensures Valid()
    {
      NodeOffWalks(child);
      node[child].next := node[parent].next;
      node[child].prev := node[parent].prev;
      forall e: nat | e < NR_QUEUES
        ensures IsList(head[e], Nodes(node, q[e]))
      {
        assert old(Linked(WalkOf(e)));
      }
    }
  }
}
