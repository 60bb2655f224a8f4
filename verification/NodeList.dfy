/** The singly linked queue: head and tail pointers, a count, and nodes chained through `next`. */
module NodeList {

  class Node<T> {
    const value: T
    var next: Node?<T>

    constructor (value: T)
      ensures this.value == value && next == null
    {
      this.value := value;
      next := null;
    }
  }

  function Values<T>(nodes: seq<Node<T>>): (values: seq<T>)
    ensures |values| == |nodes| && forall i | 0 <= i < |nodes| :: values[i] == nodes[i].value
  {
    if nodes == [] then [] else Values(nodes[..|nodes| - 1]) + [nodes[|nodes| - 1].value]
  }

  /** The node behind position i. */
  function After<T>(nodes: seq<Node<T>>, i: nat): Node?<T> {
    if i + 1 < |nodes| then nodes[i + 1] else null
  }

  ghost predicate Distinct<T>(nodes: seq<Node<T>>) {
    forall i, j | 0 <= i < j < |nodes| :: nodes[i] != nodes[j]
  }

  /** Each node's link leads to the next node, the last one's nowhere. */
  ghost predicate Chained<T>(nodes: seq<Node<T>>)
    reads nodes
  {
    forall i | 0 <= i < |nodes| :: nodes[i].next == After(nodes, i)
  }

  class List<T> {
    var head: Node?<T>
    var tail: Node?<T>
    var count: int
    /** The nodes of the chain, in order. */
    ghost var nodes: seq<Node<T>>

    ghost predicate Valid()
      reads this, nodes
    {
      && count == |nodes|
      && head == (if nodes == [] then null else nodes[0])
      && tail == (if nodes == [] then null else nodes[|nodes| - 1])
      && Distinct(nodes) && Chained(nodes)
    }

    constructor ()
      ensures Valid() && nodes == []
    {
      head, tail, count, nodes := null, null, 0, [];
    }

    method GetCount() returns (n: int)
      requires Valid()
      ensures n == |nodes|
    {
      n := count;
    }

    /** Appends a node, whose own link has to be clear. */
    method AddTail(node: Node<T>)
      requires Valid() && node !in nodes && node.next == null
      modifies this, nodes
      ensures Valid() && nodes == old(nodes) + [node]
    {
      if head == null && tail == null {
        head := node;
        tail := node;
        count := 1;
      } else if tail != null {
        tail.next := node;
        tail := node;
        count := count + 1;
      }
      nodes := nodes + [node];
    }

    /** Prepends a node; into an empty list its link is taken over as it is. */
    method AddHead(node: Node<T>)
      requires Valid() && node !in nodes && (nodes == [] ==> node.next == null)
      modifies this, node
      ensures Valid() && nodes == [node] + old(nodes)
    {
      if head == null {
        head := node;
        count := 1;
        if tail == null {
          tail := node;
        }
      } else if tail != null {
        node.next := head;
        head := node;
        count := count + 1;
      }
      nodes := [node] + nodes;
    }

    /** Deletes the first node, if there is one. */
    method DeleteHead()
      requires Valid()
      modifies this
      ensures Valid() && nodes == if old(nodes) == [] then [] else old(nodes)[1..]
    {
      if head != null {
        var headNext := head.next;
        head := headNext;
        count := count - 1;
        nodes := nodes[1..];
        if head == null {
          tail := null;
          count := 0;
        }
      }
    }

    method DeleteAll()
      requires Valid()
      modifies this
      ensures Valid() && nodes == []
    {
      while head != null
        invariant Valid()
        decreases |nodes|
      {
        DeleteHead();
      }
      tail := null;
      count := 0;
    }

    /** Unlinks the first node and returns it with a clear link. */
    method GetAndSeparateHeader() returns (node: Node?<T>)
      requires Valid()
      modifies this, nodes
      ensures Valid()
      ensures old(nodes) == [] ==> node == null && nodes == []
      ensures old(nodes) != [] ==>
                node == old(nodes[0]) && node.next == null && node !in nodes && nodes == old(nodes[1..])
    {
      node := null;
      if head != null {
        var headNext := head.next;
        node := head;
        node.next := null;
        count := count - 1;
        head := headNext;
        nodes := nodes[1..];
        if count == 0 {
          head := null;
          tail := null;
          count := 0;
        }
      }
    }

    /** Takes over the chain of another list, as the assignment of one list object to another does. */
    method Assign(other: List<T>)
      requires other.Valid()
      modifies this
      ensures Valid() && nodes == old(other.nodes)
    {
      head, tail, count, nodes := other.head, other.tail, other.count, other.nodes;
    }
  }
}
