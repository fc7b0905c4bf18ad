/** A singly linked list with append, remove-first-occurrence, membership and
    snapshot to an array, and the sequence functions that specify it. */
module LinkedLists {
  import opened Nodes

  /** `s` with its first element equal to `x` taken out; `s` itself when no
      element equals `x`. */
  function RemoveFirst<T(==)>(s: seq<T>, x: T): seq<T>
  {
    if s == [] then []
    else if s[0] == x then s[1..]
    else [s[0]] + RemoveFirst(s[1..], x)
  }

  /** No element occurs twice. */
  predicate NoDup<T(==)>(s: seq<T>)
  {
    forall i, j :: 0 <= i < j < |s| ==> s[i] != s[j]
  }

  /** When position `i` holds the first `x`, RemoveFirst cuts out exactly that
      position and keeps everything else in order. */
  lemma {:induction false} RemoveFirstAt<T>(s: seq<T>, x: T, i: nat)
    requires i < |s| && s[i] == x
    requires forall j :: 0 <= j < i ==> s[j] != x
    ensures RemoveFirst(s, x) == s[..i] + s[i + 1..]
  {
    if i > 0 {
      RemoveFirstAt(s[1..], x, i - 1);
      assert s[1..][..i - 1] == s[1..i];
      assert s[1..][i..] == s[i + 1..];
      assert [s[0]] + s[1..i] == s[..i];
    }
  }

  /** RemoveFirst takes out one element when `x` occurs and nothing
      otherwise. */
  lemma {:induction false} RemoveFirstCounts<T>(s: seq<T>, x: T)
    ensures x !in s ==> RemoveFirst(s, x) == s
    ensures x in s ==> |RemoveFirst(s, x)| == |s| - 1
  {
    if s != [] && s[0] != x {
      RemoveFirstCounts(s[1..], x);
      assert s == [s[0]] + s[1..];
    }
  }

  /** What RemoveFirst takes out is one `x`: every other element keeps its
      multiplicity. */
  lemma {:induction false} RemoveFirstMultiset<T>(s: seq<T>, x: T)
    ensures multiset(RemoveFirst(s, x)) == multiset(s) - multiset{x}
  {
    if s != [] {
      assert s == [s[0]] + s[1..];
      if s[0] != x {
        RemoveFirstMultiset(s[1..], x);
      }
    }
  }

  /** On a duplicate-free sequence, RemoveFirst removes `x` entirely, keeps
      every other element and keeps the sequence duplicate-free. */
  lemma {:induction false} RemoveFirstNoDup<T>(s: seq<T>, x: T)
    requires NoDup(s)
    ensures NoDup(RemoveFirst(s, x))
    ensures x !in RemoveFirst(s, x)
    ensures forall y :: y != x ==> (y in RemoveFirst(s, x) <==> y in s)
  {
    if s != [] {
      assert s == [s[0]] + s[1..];
      NoDupCons(s[0], s[1..]);
      if s[0] != x {
        RemoveFirstNoDup(s[1..], x);
        NoDupCons(s[0], RemoveFirst(s[1..], x));
      }
    }
  }

  /** A sequence with a first element is duplicate-free exactly when its tail
      is and does not contain that element. */
  lemma NoDupCons<T>(a: T, t: seq<T>)
    ensures NoDup([a] + t) <==> a !in t && NoDup(t)
  {
    var s := [a] + t;
    if a !in t && NoDup(t) {
      forall i, j | 0 <= i < j < |s| ensures s[i] != s[j] {
        if i > 0 {
          assert s[i] == t[i - 1] && s[j] == t[j - 1];
        } else {
          assert s[j] == t[j - 1];
        }
      }
    }
    if NoDup(s) {
      forall i, j | 0 <= i < j < |t| ensures t[i] != t[j] {
        assert t[i] == s[i + 1] && t[j] == s[j + 1];
      }
      forall i | 0 <= i < |t| ensures t[i] != a {
        assert s[0] == a && t[i] == s[i + 1];
      }
    }
  }

  /** Two duplicate-free sequences with no element in common concatenate to a
      duplicate-free sequence. */
  lemma NoDupAppend<T>(a: seq<T>, b: seq<T>)
    requires NoDup(a) && NoDup(b) && forall x :: x in a ==> x !in b
    ensures NoDup(a + b)
  {
    var s := a + b;
    forall i, j | 0 <= i < j < |s| ensures s[i] != s[j] {
      if j < |a| {
        assert s[i] == a[i] && s[j] == a[j];
      } else if i < |a| {
        assert s[i] == a[i] && s[j] == b[j - |a|] && a[i] in a;
      } else {
        assert s[i] == b[i - |a|] && s[j] == b[j - |a|];
      }
    }
  }

  class LinkedList<T(==)> {
    var head: Node?<T>
    var tail: Node?<T>
    var count: int

    /** The elements, in insertion order. */
    ghost var Contents: seq<T>
    /** The cells holding Contents, in chain order. */
    ghost var nodes: seq<Node<T>>
    /** The list and every cell it has used. */
    ghost var Repr: set<object>

    /** The representation invariant: the chain of distinct cells runs from
        head to tail, tail is its last cell, and count is its length. */
    ghost predicate Valid()
      reads this, Repr
      ensures Valid() ==> this in Repr
    {
      && this in Repr
      && |nodes| == |Contents| == count
      && (forall i :: 0 <= i < |nodes| ==> nodes[i] in Repr && nodes[i].value == Contents[i])
      && (forall i :: 0 < i < |nodes| ==> nodes[i - 1].next == nodes[i])
      && (forall i, j :: 0 <= i < j < |nodes| ==> nodes[i] != nodes[j])
      && (nodes == [] ==> head == null && tail == null)
      && (nodes != [] ==> head == nodes[0] && tail == nodes[|nodes| - 1] && tail.next == null)
    }

    constructor ()
      ensures Valid() && fresh(Repr) && Contents == []
    {
      head, tail, count := null, null, 0;
      Contents, nodes := [], [];
      Repr := {this};
    }

    /** The number of elements. */
    function Count(): (n: int)
      reads this, Repr
      requires Valid()
      ensures n == |Contents|
    {
      count
    }

    /** Appends `value` at the end. */
    method Add(value: T)
      requires Valid()
      modifies Repr
      ensures Valid() && fresh(Repr - old(Repr))
      ensures Contents == old(Contents) + [value]
    {
      var node := new Node(value);
      if head == null {
        head := node;
        tail := node;
      } else {
        tail.next := node;
        tail := node;
      }
      count := count + 1;
      nodes := nodes + [node];
      Contents := Contents + [value];
      Repr := Repr + {node};
    }

    /** Unlinks the first element equal to `value`; answers whether there was one. */
    method Remove(value: T) returns (removed: bool)
      requires Valid()
      modifies Repr
      ensures Valid() && Repr == old(Repr)
      ensures removed <==> value in old(Contents)
      ensures Contents == RemoveFirst(old(Contents), value)
    {
      if head == null {
        return false;
      }
      if head.value == value {
        UnlinkHead();
        return true;
      }
      var current := head;
      ghost var k := 0;
      while current.next != null && current.next.value != value
        invariant 0 <= k < |nodes| && current == nodes[k]
        invariant current.next == if k + 1 < |nodes| then nodes[k + 1] else null
        invariant forall j :: 0 <= j <= k ==> Contents[j] != value
        decreases |nodes| - k
      {
        current := current.next;
        k := k + 1;
      }
      if current.next == null {
        assert forall j :: 0 <= j < |Contents| ==> Contents[j] != value;
        RemoveFirstCounts(Contents, value);
        return false;
      }
      RemoveFirstAt(Contents, value, k + 1);
      UnlinkAfter(current, k);
      removed := true;
    }

    /** Unlinks the first cell, clearing tail when the list becomes empty. */
    method UnlinkHead()
      requires Valid() && nodes != []
      modifies this
      ensures Valid() && Repr == old(Repr)
      ensures Contents == old(Contents)[1..]
    {
      head := head.next;
      count := count - 1;
      if head == null {
        tail := null;
      }
      nodes := nodes[1..];
      Contents := Contents[1..];
    }

    /** Unlinks the cell after `current`, the cell at position `k`, moving
        tail back when the unlinked cell was the last one. */
    method UnlinkAfter(current: Node<T>, ghost k: nat)
      requires Valid() && k + 1 < |nodes| && current == nodes[k]
      modifies Repr
      ensures Valid() && Repr == old(Repr)
      ensures Contents == old(Contents[..k + 1] + Contents[k + 2..])
    {
      ghost var ns := nodes;
      var target := current.next;
      assert target == ns[k + 1];
      assert target == tail <==> k + 2 == |ns|;
      if target == tail {
        tail := current;
      }
      current.next := target.next;
      count := count - 1;
      nodes := nodes[..k + 1] + nodes[k + 2..];
      Contents := Contents[..k + 1] + Contents[k + 2..];
      forall i | 0 < i < |nodes| ensures nodes[i - 1].next == nodes[i] {
        if i - 1 < k {
          assert nodes[i - 1] == ns[i - 1] != current && nodes[i] == ns[i];
        } else if i - 1 == k {
          assert nodes[i] == ns[k + 2];
        } else {
          assert nodes[i - 1] == ns[i] != current && nodes[i] == ns[i + 1];
        }
      }
      forall i, j | 0 <= i < j < |nodes| ensures nodes[i] != nodes[j] {
        assert nodes[i] == ns[if i <= k then i else i + 1];
        assert nodes[j] == ns[if j <= k then j else j + 1];
      }
    }

    /** Whether some element equals `value`. */
    method Contains(value: T) returns (found: bool)
      requires Valid()
      ensures found <==> value in Contents
    {
      var current := head;
      ghost var k := 0;
      while current != null
        invariant 0 <= k <= |nodes|
        invariant current == if k < |nodes| then nodes[k] else null
        invariant forall j :: 0 <= j < k ==> Contents[j] != value
        decreases |nodes| - k
      {
        if current.value == value {
          return true;
        }
        current := current.next;
        k := k + 1;
      }
      return false;
    }

    /** A new array holding the elements in order. */
    method ToArray() returns (a: array<T>)
      requires Valid()
      ensures fresh(a) && a[..] == Contents
    {
      if count == 0 {
        return new T[0];
      }
      var first := head.value;
      a := new T[count](_ => first);
      var current := head;
      var index := 0;
      while current != null
        invariant 0 <= index <= |nodes|
        invariant current == if index < |nodes| then nodes[index] else null
        invariant a[..index] == Contents[..index]
        decreases |nodes| - index
      {
        a[index] := current.value;
        current := current.next;
        index := index + 1;
      }
    }

    /** Drops every element. */
    method Clear()
      requires Valid()
      modifies this
      ensures Valid() && Repr == old(Repr)
      ensures Contents == []
    {
      head, tail, count := null, null, 0;
      nodes, Contents := [], [];
    }
  }
}
