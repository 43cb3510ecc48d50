/** The circular doubly linked list behind every runqueue (src/queue.c). */
module Queue {

  class Node {
    var value: int
    var prev: Node
    var next: Node

    constructor (value: int)
      ensures this.value == value && prev == this && next == this
    {
      this.value := value;
      prev, next := this, this;
    }
  }

  class Queue {
    var head: Node?
    ghost var nodes: seq<Node>   // from the oldest element to the newest
    ghost var repr: set<object>

    /** The element before and after index i, around the circle. */
    static ghost predicate LinkedAt(ns: seq<Node>, i: int)
      requires 0 <= i < |ns|
      reads ns
    {
      && ns[i].next == ns[if i + 1 == |ns| then 0 else i + 1]
      && ns[i].prev == ns[if i == 0 then |ns| - 1 else i - 1]
    }

    static ghost predicate Distinct(ns: seq<Node>)
    {
      forall i, j :: 0 <= i < j < |ns| ==> ns[i] != ns[j]
    }

    ghost predicate Valid()
      reads this, repr
      ensures Valid() ==> this in repr
    {
      && this in repr && (forall i :: 0 <= i < |nodes| ==> nodes[i] in repr)
      && (head == null <==> nodes == [])
      && (head != null ==> head == nodes[0])
      && Distinct(nodes)
      && forall i {:trigger LinkedAt(nodes, i)} :: 0 <= i < |nodes| ==> LinkedAt(nodes, i)
    }

    /** The values, oldest first. */
    static ghost function Values(ns: seq<Node>): seq<int>
      reads ns
    {
      seq(|ns|, i requires 0 <= i < |ns| reads ns => ns[i].value)
    }

    ghost function Contents(): seq<int>
      requires Valid()
      reads this, repr
    {
      Values(nodes)
    }

    constructor ()
      ensures Valid() && fresh(repr) && Contents() == []
    {
      head := null;
      nodes := [];
      repr := {this};
    }

    method IsEmpty() returns (r: bool)
      requires Valid()
      ensures r <==> Contents() == []
    {
      r := head == null;
    }

    /** A node between the newest and the oldest. */
    method LinkBehind(elt: Node)
      requires Valid() && head != null && elt !in nodes && elt in repr
      modifies nodes, elt, this`nodes
      ensures Valid() && Contents() == old(Contents()) + [elt.value] && elt.value == old(elt.value)
    {
      assert LinkedAt(nodes, 0);
      ghost var last := |nodes| - 1;
      assert LinkedAt(nodes, last);
      elt.next := head;
      elt.prev := head.prev;
      head.prev.next := elt;
      head.prev := elt;
      ghost var before := nodes;
      nodes := nodes + [elt];
      forall i | 0 <= i < |nodes| ensures LinkedAt(nodes, i) {
        if i <= last { assert old(LinkedAt(before, i)); }
      }
    }

    /** A new element behind all others. */
    method Enqueue(v: int)
      requires Valid()
      modifies repr
      ensures Valid() && fresh(repr - old(repr))
      ensures Contents() == old(Contents()) + [v]
    {
      var elt := new Node(v);
      repr := repr + {elt};
      if head != null {
        LinkBehind(elt);
      } else {
        head := elt;
        nodes := [elt];
        assert LinkedAt(nodes, 0);
      }
    }

    /** The oldest element leaves. */
    method Dequeue() returns (v: int)
      requires Valid() && Contents() != []
      modifies repr
      ensures Valid() && repr == old(repr)
      ensures [v] + Contents() == old(Contents())
    {
      var elt := head;
      v := elt.value;
      assert LinkedAt(nodes, 0);
      var next := elt.next;
      var prev := elt.prev;
      next.prev := prev;
      prev.next := next;
      ghost var before := nodes;
      nodes := nodes[1..];
      if next == elt {
        head := null;
      } else {
        head := next;
      }
      forall i | 0 <= i < |nodes| ensures LinkedAt(nodes, i) {
        assert old(LinkedAt(before, i + 1));
      }
    }
  }
}
