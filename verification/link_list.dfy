/** The doubly linked list: a pointer to a first node, nodes that point both ways. */
module LinkList {
  import opened Sequences

  class Node<T> {
    var data: T
    var next: Node?<T>
    var prev: Node?<T>

    constructor (data: T)
      ensures this.data == data && next == null && prev == null
    {
      this.data, next, prev := data, null, null;
    }
  }

  /** The list without the first occurrence of `x`. */
  function WithoutFirst<T(==)>(s: seq<T>, x: T): seq<T> {
    if s == [] then []
    else if s[0] == x then s[1..]
    else [s[0]] + WithoutFirst(s[1..], x)
  }

  /** What that leaves: one occurrence of `x` is gone if there was one, the rest keeps its order. */
  lemma {:induction false} WithoutFirstAt<T>(s: seq<T>, x: T, k: nat)
    requires k < |s| && s[k] == x && forall j :: 0 <= j < k ==> s[j] != x
    ensures WithoutFirst(s, x) == s[..k] + s[k + 1..]
  {
    if k > 0 {
      WithoutFirstAt(s[1..], x, k - 1);
      assert s[..k] == [s[0]] + s[1..][..k - 1] && s[k + 1..] == s[1..][k..];
    }
  }

  lemma {:induction false} WithoutAbsent<T>(s: seq<T>, x: T)
    requires x !in s
    ensures WithoutFirst(s, x) == s
  {
    if s != [] {
      WithoutAbsent(s[1..], x);
    }
  }

  /** Nothing else is lost and nothing is added. */
  lemma WithoutFirstCounts<T>(s: seq<T>, x: T)
    ensures multiset(WithoutFirst(s, x)) == multiset(s) - multiset{x}
  {
    if x in s {
      var k := FirstIndex(s, x);
      WithoutFirstAt(s, x, k);
      assert s == s[..k] + [x] + s[k + 1..];
    } else {
      WithoutAbsent(s, x);
    }
  }

  ghost function Values<T>(nodes: seq<Node<T>>): (s: seq<T>)
    reads nodes
    ensures |s| == |nodes| && forall i {:trigger s[i]} :: 0 <= i < |nodes| ==> s[i] == nodes[i].data
  {
    seq(|nodes|, i requires 0 <= i < |nodes| reads nodes => nodes[i].data)
  }

  class List<T(==)> {
    var head: Node?<T>
    ghost var nodes: seq<Node<T>>

    ghost function At(i: nat): Node?<T>
      reads this
    {
      if i < |nodes| then nodes[i] else null
    }

    /**
     An acyclic chain: `next` runs through distinct nodes to null, and the `prev` of every node but
     the first is its predecessor. Nothing is said of the first one's `prev`.
     */
    ghost predicate Valid()
      reads this, nodes
    {
      && head == At(0)
      && (forall i, j :: 0 <= i < j < |nodes| ==> nodes[i] != nodes[j])
      && (forall i {:trigger nodes[i].next} :: 0 <= i < |nodes| ==> nodes[i].next == At(i + 1))
      && (forall i {:trigger nodes[i].prev} :: 0 < i < |nodes| ==> nodes[i].prev == nodes[i - 1])
    }

    ghost function Contents(): seq<T>
      reads this, nodes
    {
      Values(nodes)
    }

    constructor ()
      ensures Valid() && nodes == []
    {
      head, nodes := null, [];
    }

    method Append(data: T)
      requires Valid()
      modifies this, nodes
      ensures Valid() && Contents() == old(Contents()) + [data]
      ensures |nodes| == old(|nodes|) + 1 && nodes[..old(|nodes|)] == old(nodes) && fresh(nodes[old(|nodes|)])
    {
      var element := new Node(data);
      if head == null {
        head, nodes := element, [element];
        return;
      }
      var current := head;
      ghost var i: nat := 0;
      while current.next != null
        invariant i < |nodes| && current == nodes[i]
        decreases |nodes| - i
      {
        current, i := current.next, i + 1;
      }
      element.prev := current;
      current.next := element;
      nodes := nodes + [element];
    }

    method Prepend(data: T)
      requires Valid()
      modifies this, nodes
      ensures Valid() && Contents() == [data] + old(Contents())
      ensures |nodes| == old(|nodes|) + 1 && nodes[1..] == old(nodes) && fresh(nodes[0]) && nodes[0].prev == null
      ensures |nodes| > 1 ==> nodes[1].prev == nodes[0]
    {
      var first := new Node(data);
      if head != null {
        first.next := head;
        head.prev := first;
      }
      head, nodes := first, [first] + nodes;
    }

    /**
     Exactly the element is taken out, and the order stays. Deleting the first one leaves the new
     first node's `prev` pointing at the node that is gone.
     */
    method DeleteElement(element: Node<T>, ghost i: nat)
      requires Valid() && i < |nodes| && nodes[i] == element
      modifies this, nodes
      ensures Valid() && nodes == old(nodes[..i] + nodes[i + 1..])
      ensures Contents() == old(Contents()[..i] + Contents()[i + 1..])
      ensures i == 0 && |nodes| > 0 ==> nodes[0].prev == element
      ensures i > 0 && |nodes| > 0 ==> nodes[0].prev == old(nodes[0].prev)
    {
      hide Values;
      ghost var all, contents := nodes, Contents();
      if head == element {
        head := element.next;
      } else {
        element.prev.next := element.next;
        if element.next != null {
          element.next.prev := element.prev;
        }
      }
      nodes := all[..i] + all[i + 1..];
      assert forall j {:trigger nodes[j]} :: 0 <= j < |nodes| ==> nodes[j] == all[if j < i then j else j + 1];
      assert Contents() == contents[..i] + contents[i + 1..];
    }

    /** The first element with this data goes, if there is one. */
    method DeleteFirstMatching(data: T)
      requires Valid()
      modifies this, nodes
      ensures Valid() && Contents() == WithoutFirst(old(Contents()), data)
      ensures forall k :: 0 <= k < |nodes| ==> nodes[k] in old(nodes)
    {
      var current := head;
      ghost var i: nat := 0;
      while current != null
        invariant i <= |nodes| && current == At(i) && nodes == old(nodes) && Valid()
        invariant Contents() == old(Contents())
        invariant forall j :: 0 <= j < i ==> Contents()[j] != data
        decreases |nodes| - i
      {
        if current.data == data {
          WithoutFirstAt(Contents(), data, i);
          DeleteElement(current, i);
          return;
        }
        current, i := current.next, i + 1;
      }
      WithoutAbsent(Contents(), data);
    }

    /** Every element is handed to the delete function once, in order. */
    method Clear() returns (deleted: seq<T>)
      requires Valid()
      modifies this
      ensures Valid() && nodes == [] && deleted == old(Contents())
    {
      deleted := [];
      var current := head;
      ghost var i: nat := 0;
      while current != null
        invariant i <= |nodes| && current == At(i) && nodes == old(nodes) && Valid()
        invariant deleted == Contents()[..i]
        decreases |nodes| - i
      {
        var next := current.next;
        deleted := deleted + [current.data];
        current, i := next, i + 1;
      }
      head, nodes := null, [];
    }
  }
}
