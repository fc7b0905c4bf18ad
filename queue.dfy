/** A FIFO queue over a singly linked chain of cells, with head, tail and count. */
module Queues {
  import opened Wrappers
  import opened Nodes

  /** Message of the exception thrown by Dequeue and Peek on an empty queue. */
  const EmptyQueue := "La cola está vacía"

  class Queue<T> {
    var head: Node?<T>
    var tail: Node?<T>
    var count: int

    /** The elements, oldest first. */
    ghost var Contents: seq<T>
    /** The cells holding Contents, in chain order. */
    ghost var nodes: seq<Node<T>>
    /** The queue and every cell it has used. */
    ghost var Repr: set<object>

    /** The representation invariant: head, tail and count agree with the chain
        of cells, which runs from head to tail and ends in null. */
    ghost predicate Valid()
      reads this, Repr
      ensures Valid() ==> this in Repr
    {
      && this in Repr
      && |nodes| == |Contents| == count
      && (forall i :: 0 <= i < |nodes| ==> nodes[i] in Repr && nodes[i].value == Contents[i])
      && (forall i :: 0 < i < |nodes| ==> nodes[i - 1].next == nodes[i])
      && (nodes == [] ==> head == null && tail == null)
      && (nodes != [] ==> head == nodes[0] && tail == nodes[|nodes| - 1] && tail.next == null)
    }

    /** head is null exactly when tail is null, exactly when count is zero. */
    lemma EndsAgree()
      requires Valid()
      ensures head == null <==> tail == null
      ensures head == null <==> count == 0
    {
    }

    constructor ()
      ensures Valid() && fresh(Repr) && Contents == []
    {
      head, tail, count := null, null, 0;
      Contents, nodes := [], [];
      Repr := {this};
    }

    /** The number of queued elements. */
    function Count(): (n: int)
      reads this, Repr
      requires Valid()
      ensures n == |Contents|
    {
      count
    }

    /** Appends `value` at the tail. */
    method Enqueue(value: T)
      requires Valid()
      modifies Repr
      ensures Valid() && fresh(Repr - old(Repr))
      ensures Contents == old(Contents) + [value]
    {
      var node := new Node(value);
      if head == null {
        head := node;
        tail := node;
      } else {
        tail.next := node;
        tail := node;
      }
      count := count + 1;
      nodes := nodes + [node];
      Contents := Contents + [value];
      Repr := Repr + {node};
    }

    /** Removes and returns the oldest element; on an empty queue it fails and
        changes nothing. */
    method Dequeue() returns (r: Result<T>)
      requires Valid()
      modifies Repr
      ensures Valid() && fresh(Repr - old(Repr))
      ensures old(Contents) == [] ==> r == Error(EmptyQueue) && Contents == old(Contents)
      ensures old(Contents) != [] ==> r == Ok(old(Contents)[0]) && Contents == old(Contents)[1..]
    {
      if head == null {
        return Error(EmptyQueue);
      }
      var value := head.value;
      head := head.next;
      count := count - 1;
      if head == null {
        tail := null;
      }
      nodes := nodes[1..];
      Contents := Contents[1..];
      r := Ok(value);
    }

    /** The element Dequeue would return, without removing it. */
    function Peek(): (r: Result<T>)
      reads this, Repr
      requires Valid()
      ensures Contents == [] <==> r == Error(EmptyQueue)
      ensures Contents != [] ==> r == Ok(Contents[0])
    {
      if head == null then Error(EmptyQueue) else Ok(head.value)
    }

    /** Whether the queue holds no element. */
    function IsEmpty(): (b: bool)
      reads this, Repr
      requires Valid()
      ensures b <==> Contents == []
    {
      count == 0
    }

    /** Drops every element. */
    method Clear()
      requires Valid()
      modifies Repr
      ensures Valid() && fresh(Repr - old(Repr))
      ensures Contents == []
    {
      head, tail, count := null, null, 0;
      nodes, Contents := [], [];
    }
  }
}
