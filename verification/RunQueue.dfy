/** The intrusive circular list and the per-CPU run queue built on it. */
module RunQueue {
  import opened Sequences

  /** A list node embedded in a task; `task` is what container_of recovers. The head
      of a list is a node of its own. */
  class ListHead {
    var next: ListHead?
    var prev: ListHead?
    const task: nat

    /** INIT_LIST_HEAD: a list of its own. */
    constructor (task: nat)
      ensures this.task == task && next == this && prev == this
    {
      this.task := task;
      next := this;
      prev := this;
    }
  }

  /** head, the nodes in order, and head again. */
  ghost function Circle(head: ListHead, nodes: seq<ListHead>): seq<ListHead> {
    [head] + nodes + [head]
  }

  ghost predicate Apart(head: ListHead, nodes: seq<ListHead>) {
    head !in nodes && forall i, j :: 0 <= i < j < |nodes| ==> nodes[i] != nodes[j]
  }

  /** The list of head holds exactly these nodes, linked both ways around. */
  ghost predicate IsList(head: ListHead, nodes: seq<ListHead>)
    reads head, nodes
  {
    && Apart(head, nodes)
    && forall i :: 0 <= i <= |nodes| ==>
         var c := Circle(head, nodes);
         c[i].next == c[i + 1] && c[i + 1].prev == c[i]
  }

  /** __list_add: put n between two neighbours. */
  method ListAdd(n: ListHead, prev: ListHead, next: ListHead)
    requires n != prev && n != next
    modifies n, prev`next, next`prev
    ensures n.next == next && n.prev == prev && prev.next == n && next.prev == n
  {
    next.prev := n;
    n.next := next;
    n.prev := prev;
    prev.next := n;
  }

  /** list_add_tail: n becomes the last node. */
  method ListAddTail(n: ListHead, head: ListHead, ghost nodes: seq<ListHead>)
    requires IsList(head, nodes) && n != head && n !in nodes
    modifies n, head, nodes
    ensures IsList(head, nodes + [n])
  {
    ghost var c, k := Circle(head, nodes), |nodes|;
    assert c[k].next == c[k + 1] && c[k + 1].prev == c[k];
    assert forall i :: 0 <= i <= k ==> c[i] == if i == 0 then head else nodes[i - 1];
    ListAdd(n, head.prev, head);
    ghost var c' := Circle(head, nodes + [n]);
    assert forall i :: 0 <= i <= k ==> c'[i] == c[i];
    assert c'[k + 1] == n && c'[k + 2] == head;
  }

  /** list_del_init: take the k-th node out and make it a list of its own. */
  method ListDelInit(n: ListHead, ghost head: ListHead, ghost nodes: seq<ListHead>, ghost k: nat)
    requires IsList(head, nodes) && k < |nodes| && nodes[k] == n
    modifies head, nodes
    ensures IsList(head, RemoveAt(nodes, k)) && n.next == n && n.prev == n
  {
    ghost var c, rest := Circle(head, nodes), RemoveAt(nodes, k);
    ghost var c' := Circle(head, rest);
    assert c[k + 1] == n;
    assert c[k].next == c[k + 1] && c[k + 1].prev == c[k];
    assert c[k + 1].next == c[k + 2] && c[k + 2].prev == c[k + 1];
    assert forall i :: 0 <= i <= |rest| + 1 ==> c'[i] == if i <= k then c[i] else c[i + 1];
    n.next.prev := n.prev;
    n.prev.next := n.next;
    n.next := n;
    n.prev := n;
    forall i | 0 <= i <= |rest| ensures c'[i].next == c'[i + 1] && c'[i + 1].prev == c'[i] {
      Separate(head, nodes, i, k);
      Separate(head, nodes, i + 1, k);
      assert i < k ==> old(c[i].next) == c[i + 1] && old(c[i + 1].prev) == c[i];
      assert i > k ==> old(c[i + 1].next) == c[i + 2] && old(c[i + 2].prev) == c[i + 1];
    }
  }

  /** In the circle only the head comes twice. */
  lemma Separate(head: ListHead, nodes: seq<ListHead>, i: nat, k: nat)
    requires Apart(head, nodes) && i <= |nodes| && k < |nodes|
    ensures var c := Circle(head, nodes);
            && (i != k ==> c[i] != c[k]) && (i != k + 1 ==> c[i] != c[k + 1])
            && (i != k + 2 && (i != 0 || k + 1 != |nodes|) ==> c[i] != c[k + 2])
            && (i != k + 1 ==> c[i + 1] != c[k + 2]) && (i != k ==> c[i + 1] != c[k + 1])
  {
    var c := Circle(head, nodes);
    assert forall j :: 0 <= j < |c| ==> c[j] == if j == 0 || j == |nodes| + 1 then head else nodes[j - 1];
  }

  method ListEmpty(head: ListHead, ghost nodes: seq<ListHead>) returns (empty: bool)
    requires IsList(head, nodes)
    ensures empty <==> nodes == []
  {
    assert Circle(head, nodes)[0].next == Circle(head, nodes)[1];
    empty := head.next == head;
  }

  /** The run queue of one CPU. */
  class RunQueue {
    const head: ListHead
    var nrRunning: nat
    ghost var nodes: seq<ListHead>

    ghost predicate Valid()
      reads this, head, nodes
    {
      IsList(head, nodes) && nrRunning == |nodes|
    }

    /** The queued tasks, first to run first. */
    ghost function Tasks(): seq<nat>
      reads this
    {
      seq(|nodes|, i requires 0 <= i < |nodes| reads this => nodes[i].task)
    }

    constructor ()
      ensures Valid() && nodes == [] && fresh(head)
    {
      head := new ListHead(0);
      nrRunning := 0;
      nodes := [];
      new;
      assert Circle(head, nodes) == [head, head];
    }

    /** enqueue_task, under the queue's lock. */
    method EnqueueTask(n: ListHead)
      requires Valid() && n != head && n !in nodes
      modifies this, n, head, nodes
      ensures Valid() && nodes == old(nodes) + [n]
      ensures Tasks() == old(Tasks()) + [n.task]
    {
      ListAddTail(n, head, nodes);
      nrRunning := nrRunning + 1;
      nodes := nodes + [n];
    }

    /** The locked section of pick_next_task and load_balance: the first task, or
        nothing when the queue is empty. */
    method TakeFirst() returns (n: ListHead?)
      requires Valid()
      modifies this, head, nodes
      ensures Valid()
      ensures old(nodes) == [] ==> n == null && nodes == []
      ensures old(nodes) != [] ==> n == old(nodes)[0] && nodes == old(nodes)[1..] && n.next == n
      ensures n != null ==> old(Tasks()) == [n.task] + Tasks()
    {
      var empty := ListEmpty(head, nodes);
      if empty { return null; }
      assert Circle(head, nodes)[0].next == Circle(head, nodes)[1];
      n := head.next;
      assert RemoveAt(nodes, 0) == nodes[1..];
      ListDelInit(n, head, nodes, 0);
      nrRunning := nrRunning - 1;
      nodes := nodes[1..];
    }
  }
}
