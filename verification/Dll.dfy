/** libc/sys/dll.c: the doubly linked list, as the sequence of its nodes. */
module Dll {
  import opened Common

  const SIZE_LIMIT := 0x1_0000_0000   // `size` is a uint32_t

  /** A node, with the value it is embedded in. */
  class Node<T> {
    var prev: Node?<T>
    var next: Node?<T>
    var list: List?<T>
    const val: T

    constructor (v: T)
      ensures val == v
    {
      val := v;
      prev, next, list := null, null, null;
    }
  }

  ghost predicate NoDuplicates<T>(nodes: seq<Node<T>>) {
    forall i, j :: 0 <= i < j < |nodes| ==> nodes[i] != nodes[j]
  }

  class List<T> {
    var head: Node?<T>
    var tail: Node?<T>
    var size: nat
    ghost var nodes: seq<Node<T>>

    constructor ()
      ensures Valid() && nodes == []
    {
      head, tail, size, nodes := null, null, 0, [];
    }

    ghost predicate Valid()
      reads this, nodes
    {
      && size == |nodes| < SIZE_LIMIT && NoDuplicates(nodes)
      && head == (if nodes == [] then null else nodes[0])
      && tail == (if nodes == [] then null else nodes[|nodes| - 1])
      && (forall i {:trigger nodes[i].list} :: 0 <= i < |nodes| ==> nodes[i].list == this)
      && (forall i {:trigger nodes[i].prev} ::
            0 <= i < |nodes| ==> nodes[i].prev == if i == 0 then null else nodes[i - 1])
      && (forall i {:trigger nodes[i].next} ::
            0 <= i < |nodes| ==> nodes[i].next == if i == |nodes| - 1 then null else nodes[i + 1])
    }

    /** dll_add_only */
    method AddOnly(node: Node<T>)
      requires Valid() && nodes == []
      modifies this, node
      ensures Valid() && nodes == [node]
    {
      head := node;
      tail := node;
      node.prev := null;
      node.next := null;
      node.list := this;
      size := 1;
      nodes := [node];
    }

    /** dll_add_head */
    method AddHead(node: Node<T>)
      requires Valid() && node !in nodes && |nodes| + 1 < SIZE_LIMIT
      modifies this, nodes, node
      ensures Valid() && nodes == [node] + old(nodes)
    {
      if size == 0 {
        AddOnly(node);
      } else {
        Link(node, head);
        head := node;
        node.list := this;
        node.prev := null;
        size := size + 1;
        nodes := [node] + nodes;
      }
    }

    /** dll_add_tail */
    method AddTail(node: Node<T>)
      requires Valid() && node !in nodes && |nodes| + 1 < SIZE_LIMIT
      modifies this, nodes, node
      ensures Valid() && nodes == old(nodes) + [node]
    {
      if size == 0 {
        AddOnly(node);
      } else {
        Link(tail, node);
        tail := node;
        node.list := this;
        node.next := null;
        size := size + 1;
        nodes := nodes + [node];
      }
    }

    /** dll_remove_head */
    method RemoveHead() returns (n: Node<T>)
      requires Valid() && nodes != []
      modifies this, nodes
      ensures n == old(nodes[0]) && Valid() && nodes == old(nodes)[1..]
    {
      n := head;
      if size == 1 {
        Clear();
      } else {
        head := head.next;
        head.prev := null;
        size := size - 1;
        nodes := nodes[1..];
      }
    }

    /** dll_remove_tail */
    method RemoveTail() returns (n: Node<T>)
      requires Valid() && nodes != []
      modifies this, nodes
      ensures n == old(nodes[|nodes| - 1]) && Valid() && nodes == old(nodes)[..|old(nodes)| - 1]
    {
      if size == 1 {
        n := head;
        Clear();
      } else {
        n := tail;
        tail := tail.prev;
        tail.next := null;
        size := size - 1;
        nodes := nodes[..|nodes| - 1];
      }
    }

    /** dll_clear */
    method Clear()
      modifies this
      ensures Valid() && nodes == []
    {
      head := null;
      tail := null;
      size := 0;
      nodes := [];
    }
  }

  /** dll_link */
  method Link<T>(node1: Node<T>, node2: Node<T>)
    modifies node1`next, node2`prev
    ensures node1.next == node2 && node2.prev == node1
  {
    node1.next := node2;
    node2.prev := node1;
  }

  /** dll_add_before: node goes in front of node i of its list. */
  method AddBefore<T>(ref: Node<T>, node: Node<T>, ghost queue: List<T>, ghost i: nat)
    requires queue.Valid() && i < |queue.nodes| && queue.nodes[i] == ref
    requires node !in queue.nodes && |queue.nodes| + 1 < SIZE_LIMIT
    modifies queue, queue.nodes, node
    ensures queue.Valid() && queue.nodes == InsertAt(old(queue.nodes), i, node)
  {
    var q := ref.list;
    if q.head == ref {
      q.AddHead(node);
    } else {
      Link(ref.prev, node);
      Link(node, ref);
      node.list := q;
      q.size := q.size + 1;
      q.nodes := InsertAt(q.nodes, i, node);
    }
  }

  /** dll_add_after: node goes behind node i of its list. */
  method AddAfter<T>(ref: Node<T>, node: Node<T>, ghost queue: List<T>, ghost i: nat)
    requires queue.Valid() && i < |queue.nodes| && queue.nodes[i] == ref
    requires node !in queue.nodes && |queue.nodes| + 1 < SIZE_LIMIT
    modifies queue, queue.nodes, node
    ensures queue.Valid() && queue.nodes == InsertAt(old(queue.nodes), i + 1, node)
  {
    var q := ref.list;
    if q.tail == ref {
      q.AddTail(node);
    } else {
      Link(node, ref.next);
      Link(ref, node);
      node.list := q;
      q.size := q.size + 1;
      q.nodes := InsertAt(q.nodes, i + 1, node);
    }
  }

  /** dll_remove of node i of its list; the node keeps its own links and owner. */
  method Remove<T>(node: Node<T>, ghost queue: List<T>, ghost i: nat) returns (n: Node<T>)
    requires queue.Valid() && i < |queue.nodes| && queue.nodes[i] == node
    modifies queue, queue.nodes
    ensures n == node && queue.Valid() && queue.nodes == RemoveAt(old(queue.nodes), i)
  {
    var q := node.list;
    if q.head == node {
      n := q.RemoveHead();
    } else if q.tail == node {
      n := q.RemoveTail();
    } else {
      Link(node.prev, node.next);
      q.size := q.size - 1;
      q.nodes := RemoveAt(q.nodes, i);
      n := node;
    }
  }
}
