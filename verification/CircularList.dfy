/**
 Circular doubly linked lists with the head as one of the nodes.  A ring is the sequence of nodes met
 from its head on; the poison pointers of an unlinked entry are null here.
 */
module CircularList {

  class Node {
    var next: Node?
    var prev: Node?

    /** A list head that leads to itself. */
    constructor ()
      ensures Ring([this])
    {
      next := this;
      prev := this;
    }
  }

  function Succ(ring: seq<Node>, i: nat): Node
    requires i < |ring|
  {
    if i + 1 < |ring| then ring[i + 1] else ring[0]
  }

  function Pred(ring: seq<Node>, i: nat): Node
    requires i < |ring|
  {
    if i > 0 then ring[i - 1] else ring[|ring| - 1]
  }

  ghost predicate Distinct(ring: seq<Node>) {
    forall i, j | 0 <= i < j < |ring| :: ring[i] != ring[j]
  }

  ghost predicate Linked(ring: seq<Node>)
    reads ring
  {
    forall i | 0 <= i < |ring| :: ring[i].next == Succ(ring, i) && ring[i].prev == Pred(ring, i)
  }

  /** The nodes form a ring: next and prev lead around it in the two directions. */
  ghost predicate Ring(ring: seq<Node>)
    reads ring
  {
    |ring| > 0 && Distinct(ring) && Linked(ring)
  }

  /** In a ring, next and prev undo each other. */
  lemma NextAndPrevAreInverse(ring: seq<Node>, node: Node)
    requires Ring(ring) && node in ring
    ensures node.next in ring && node.prev in ring
    ensures node.next != null && node.next.prev == node
    ensures node.prev != null && node.prev.next == node
  {
    var i :| 0 <= i < |ring| && ring[i] == node;
    assert Succ(ring, i) in ring && Pred(ring, i) in ring;
    var s, p := if i + 1 < |ring| then i + 1 else 0, if i > 0 then i - 1 else |ring| - 1;
    assert ring[s] == Succ(ring, i) && Pred(ring, s) == ring[i];
    assert ring[p] == Pred(ring, i) && Succ(ring, p) == ring[i];
  }

  lemma Neighbours(ring: seq<Node>, k: nat)
    requires Ring(ring) && k < |ring|
    ensures ring[k].next == Succ(ring, k) && Succ(ring, k) in ring
    ensures ring[k].prev == Pred(ring, k) && Pred(ring, k) in ring
  {
  }

  /** The ring with a node inserted behind position k. */
  function Inserted(ring: seq<Node>, k: nat, node: Node): (r: seq<Node>)
    requires k < |ring|
    ensures |r| == |ring| + 1
  {
    ring[..k + 1] + ([node] + ring[k + 1..])
  }

  /** The ring without position k. */
  function Removed(ring: seq<Node>, k: nat): (r: seq<Node>)
    requires k < |ring|
    ensures |r| == |ring| - 1
  {
    ring[..k] + ring[k + 1..]
  }

  lemma InsertedIsDistinct(ring: seq<Node>, k: nat, node: Node)
    requires Distinct(ring) && k < |ring| && node !in ring
    ensures Distinct(Inserted(ring, k, node))
  {
    forall i, j | 0 <= i < j < |Inserted(ring, k, node)|
      ensures Inserted(ring, k, node)[i] != Inserted(ring, k, node)[j]
    {
    }
  }

  lemma RemovedIsDistinct(ring: seq<Node>, k: nat)
    requires Distinct(ring) && k < |ring|
    ensures Distinct(Removed(ring, k))
  {
  }

  /** Who stands at position i after an insertion, between whom. */
  lemma InsertedAt(ring: seq<Node>, k: nat, node: Node, i: nat)
    requires Distinct(ring) && k < |ring| && node !in ring && i <= |ring|
    ensures var r := Inserted(ring, k, node);
            var n := Succ(ring, k);
            if i == k + 1 then r[i] == node && Succ(r, i) == n && Pred(r, i) == ring[k]
            else var j := if i <= k then i else i - 1;
                 && r[i] == ring[j] && ring[j] != node && (ring[j] == ring[k] <==> j == k)
                 && Succ(r, i) == (if j == k then node else Succ(ring, j))
                 && Pred(r, i) == (if ring[j] == n then node else Pred(ring, j))
  {
  }

  /** Inserts a node between two neighbours. */
  method InsertBetween(node: Node, prev: Node, next: Node, ghost ring: seq<Node>, ghost k: nat)
    requires Ring(ring) && k < |ring| && node !in ring && prev == ring[k] && next == Succ(ring, k)
    modifies node, prev, next
    ensures Ring(Inserted(ring, k, node))
  {
    InsertedIsDistinct(ring, k, node);
    next.prev := node;
    node.next := next;
    node.prev := prev;
    prev.next := node;
    ghost var r := Inserted(ring, k, node);
    forall i | 0 <= i < |r| ensures r[i].next == Succ(r, i) && r[i].prev == Pred(r, i) {
      hide Inserted, Succ, Pred;
      InsertedAt(ring, k, node, i);
    }
  }

  method ListAdd(node: Node, head: Node, ghost ring: seq<Node>)
    requires Ring(ring) && ring[0] == head && node !in ring
    modifies node, ring
    ensures Ring([head, node] + ring[1..])
  {
    hide Linked;
    Neighbours(ring, 0);
    var next := head.next;
    InsertBetween(node, head, next, ring, 0);
    assert Inserted(ring, 0, node) == [head, node] + ring[1..];
  }

  method ListAddTail(node: Node, head: Node, ghost ring: seq<Node>)
    requires Ring(ring) && ring[0] == head && node !in ring
    modifies node, ring
    ensures Ring(ring + [node])
  {
    hide Linked;
    Neighbours(ring, 0);
    var prev := head.prev;
    InsertBetween(node, prev, head, ring, |ring| - 1);
    assert Inserted(ring, |ring| - 1, node) == ring + [node];
  }

  /** Who stands at position i after a removal, between whom. */
  lemma RemovedAt(ring: seq<Node>, k: nat, i: nat)
    requires Distinct(ring) && 0 < k < |ring| && i < |ring| - 1
    ensures var r := Removed(ring, k);
            var p, n := Pred(ring, k), Succ(ring, k);
            var j := if i < k then i else i + 1;
            && r[i] == ring[j]
            && Succ(r, i) == (if ring[j] == p then n else Succ(ring, j))
            && Pred(r, i) == (if ring[j] == n then p else Pred(ring, j))
  {
  }

  /** Makes the neighbours of entry k lead to each other. */
  method Unlink(prev: Node, next: Node, ghost ring: seq<Node>, ghost k: nat)
    requires Ring(ring) && 0 < k < |ring| && prev == Pred(ring, k) && next == Succ(ring, k)
    modifies prev, next
    ensures Ring(Removed(ring, k))
  {
    RemovedIsDistinct(ring, k);
    next.prev := prev;
    prev.next := next;
    ghost var r := Removed(ring, k);
    forall i | 0 <= i < |r| ensures r[i].next == Succ(r, i) && r[i].prev == Pred(r, i) {
      hide Removed, Succ, Pred;
      RemovedAt(ring, k, i);
    }
  }

  /** Takes entry k out of its ring and poisons its pointers. */
  method ListDel(entry: Node, ghost ring: seq<Node>, ghost k: nat)
    requires Ring(ring) && 0 < k < |ring| && ring[k] == entry
    modifies entry, Pred(ring, k), Succ(ring, k)
    ensures Ring(Removed(ring, k)) && entry !in Removed(ring, k)
    ensures entry.next == null && entry.prev == null
  {
    Neighbours(ring, k);
    LeavesRing(ring, k);
    hide Linked, Removed;
    Unlink(entry.prev, entry.next, ring, k);
    entry.next := null;
    entry.prev := null;
  }

  lemma LeavesRing(ring: seq<Node>, k: nat)
    requires Distinct(ring) && k < |ring|
    ensures ring[k] !in Removed(ring, k)
  {
  }

  lemma StaysInRing(ring: seq<Node>, k: nat)
    requires k < |ring|
    ensures forall i | 0 <= i < |Removed(ring, k)| :: Removed(ring, k)[i] in ring
  {
  }

  /** Takes entry k out of its ring and makes it a ring of its own. */
  method ListDelInit(entry: Node, ghost ring: seq<Node>, ghost k: nat)
    requires Ring(ring) && 0 < k < |ring| && ring[k] == entry
    modifies entry, Pred(ring, k), Succ(ring, k)
    ensures Ring(Removed(ring, k)) && Ring([entry])
  {
    Neighbours(ring, k);
    LeavesRing(ring, k);
    hide Linked, Removed;
    Unlink(entry.prev, entry.next, ring, k);
    entry.next := entry;
    entry.prev := entry;
  }

  ghost predicate Disjoint(a: seq<Node>, b: seq<Node>) {
    forall i, j | 0 <= i < |a| && 0 <= j < |b| :: a[i] != b[j]
  }

  /** The ring that a moved entry joins: its own, without it, or another. */
  function Target(from: seq<Node>, k: nat, to: seq<Node>): seq<Node>
    requires k < |from|
  {
    if to == from then Removed(from, k) else to
  }

  /** Unlinks entry k from a ring, ready to join the target ring. */
  method Detach(entry: Node, ghost from: seq<Node>, ghost k: nat, ghost to: seq<Node>)
    returns (ghost rest: seq<Node>, ghost target: seq<Node>)
    requires Ring(from) && 0 < k < |from| && from[k] == entry && Ring(to) && (to == from || Disjoint(from, to))
    modifies from
    ensures rest == Removed(from, k) && target == Target(from, k, to)
    ensures Ring(rest) && entry !in rest && forall i | 0 <= i < |rest| :: rest[i] in from
    ensures Ring(target) && entry !in target && target[0] == to[0]
    ensures target == rest || (target == to && Disjoint(rest, to))
  {
    hide Linked;
    Neighbours(from, k);
    Unlink(entry.prev, entry.next, from, k);
    rest, target := Removed(from, k), Target(from, k, to);
    assert rest[0] == from[0];
    LeavesRing(from, k);
    StaysInRing(from, k);
    hide Removed, Distinct;
  }

  method ListMove(entry: Node, head: Node, ghost from: seq<Node>, ghost k: nat, ghost to: seq<Node>)
    requires Ring(from) && 0 < k < |from| && from[k] == entry && Ring(to) && to[0] == head
    requires to == from || Disjoint(from, to)
    modifies from, to
    ensures Ring([head, entry] + Target(from, k, to)[1..])
    ensures to != from ==> Ring(Removed(from, k))
  {
    hide Distinct, Linked, Removed;
    ghost var rest, target := Detach(entry, from, k, to);
    ListAdd(entry, head, target);
  }

  method ListMoveTail(entry: Node, head: Node, ghost from: seq<Node>, ghost k: nat, ghost to: seq<Node>)
    requires Ring(from) && 0 < k < |from| && from[k] == entry && Ring(to) && to[0] == head
    requires to == from || Disjoint(from, to)
    modifies from, to
    ensures Ring(Target(from, k, to) + [entry])
    ensures to != from ==> Ring(Removed(from, k))
  {
    hide Distinct, Linked, Removed;
    ghost var rest, target := Detach(entry, from, k, to);
    ListAddTail(entry, head, target);
  }

  method ListEmpty(head: Node, ghost ring: seq<Node>) returns (empty: bool)
    requires Ring(ring) && ring[0] == head
    ensures empty <==> ring == [head]
  {
    empty := head.next == head;
  }

  /** The entries of ring a put behind the head of ring b. */
  function Spliced(a: seq<Node>, b: seq<Node>): (r: seq<Node>)
    requires |a| > 0 && |b| > 0
    ensures |r| == |a| + |b| - 1
  {
    [b[0]] + (a[1..] + b[1..])
  }

  lemma SplicedIsDistinct(a: seq<Node>, b: seq<Node>)
    requires |a| > 0 && |b| > 0 && Distinct(a) && Distinct(b) && Disjoint(a, b)
    ensures Distinct(Spliced(a, b))
  {
    var r := Spliced(a, b);
    forall i, j | 0 <= i < j < |r| ensures r[i] != r[j] {
    }
  }

  /** Who stands at position i after a splice, between whom. */
  lemma SplicedAt(a: seq<Node>, b: seq<Node>, i: nat)
    requires |a| > 1 && |b| > 0 && Distinct(a) && Distinct(b) && Disjoint(a, b) && i < |a| + |b| - 1
    ensures var r := Spliced(a, b);
            if 0 < i < |a| then
              && r[i] == a[i]
              && Succ(r, i) == (if a[i] == Pred(a, 0) then Succ(b, 0) else Succ(a, i))
              && Pred(r, i) == (if a[i] == Succ(a, 0) then b[0] else Pred(a, i))
            else
              var j := if i == 0 then 0 else i - |a| + 1;
              && r[i] == b[j]
              && Succ(r, i) == (if b[j] == b[0] then Succ(a, 0) else Succ(b, j))
              && Pred(r, i) == (if b[j] == Succ(b, 0) then Pred(a, 0) else Pred(b, j))
  {
  }

  method Splice(list: Node, head: Node, ghost a: seq<Node>, ghost b: seq<Node>)
    requires Ring(a) && |a| > 1 && a[0] == list && Ring(b) && b[0] == head && Disjoint(a, b)
    modifies a, b
    ensures Ring(Spliced(a, b)) && list !in Spliced(a, b)
  {
    SplicedIsDistinct(a, b);
    Neighbours(a, 0);
    Neighbours(b, 0);
    var first := list.next;
    var last := list.prev;
    var at := head.next;
    first.prev := head;
    head.next := first;
    last.next := at;
    at.prev := last;
    ghost var r := Spliced(a, b);
    forall i | 0 <= i < |r| ensures r[i] != list && r[i].next == Succ(r, i) && r[i].prev == Pred(r, i) {
      hide Spliced, Succ, Pred;
      SplicedAt(a, b, i);
    }
  }

  /** Joins two lists; the emptied head is left as it was. */
  method ListSplice(list: Node, head: Node, ghost a: seq<Node>, ghost b: seq<Node>)
    requires Ring(a) && a[0] == list && Ring(b) && b[0] == head && Disjoint(a, b)
    modifies a, b
    ensures Ring(Spliced(a, b))
  {
    var empty := ListEmpty(list, a);
    if !empty {
      Splice(list, head, a, b);
    } else {
      assert Spliced(a, b) == b;
    }
  }

  /** Joins two lists and makes the emptied one a list again. */
  method ListSpliceInit(list: Node, head: Node, ghost a: seq<Node>, ghost b: seq<Node>)
    requires Ring(a) && a[0] == list && Ring(b) && b[0] == head && Disjoint(a, b)
    modifies a, b
    ensures Ring(Spliced(a, b)) && Ring([list])
  {
    var empty := ListEmpty(list, a);
    if !empty {
      Splice(list, head, a, b);
      list.next := list;
      list.prev := list;
    } else {
      assert Spliced(a, b) == b;
    }
  }

  /** The ring that is left when the entries before position k are gone. */
  function Left(ring: seq<Node>, k: nat): (l: seq<Node>)
    requires 0 < k <= |ring|
    ensures |l| == |ring| - k + 1
  {
    [ring[0]] + ring[k..]
  }

  lemma LeftFacts(ring: seq<Node>, k: nat)
    requires Distinct(ring) && 0 < k <= |ring|
    ensures var l := Left(ring, k);
            if k == |ring| then l == [ring[0]]
            else && |l| > 1 && l[0] == ring[0] && l[1] == ring[k] != ring[0]
                 && Succ(l, 1) == (if k + 1 < |ring| then ring[k + 1] else ring[0])
                 && Removed(l, 1) == Left(ring, k + 1)
                 && Pred(l, 1) == ring[0]
                 && (forall i | 0 < i < k :: ring[i] != ring[0] && ring[i] != ring[k] && ring[i] != Succ(l, 1))
  {
  }

  /** The state of a sweep whose next entry is at position k: it is in hand, and its successor too. */
  ghost predicate Sweeping(ring: seq<Node>, k: nat, pos: Node, next: Node)
    reads ring
  {
    && 0 < k <= |ring| && Distinct(ring) && Ring(Left(ring, k))
    && pos == (if k < |ring| then ring[k] else ring[0]) && next == pos.next
    && forall j | 0 < j < k :: ring[j].next == null && ring[j].prev == null
  }

  lemma SweepingStarts(ring: seq<Node>)
    requires Ring(ring)
    ensures var pos := ring[0].next; pos != null && pos.next != null && Sweeping(ring, 1, pos, pos.next)
  {
    assert Left(ring, 1) == ring;
    Neighbours(ring, 0);
    NextAndPrevAreInverse(ring, ring[0].next);
  }

  lemma NextInSweep(ring: seq<Node>, k: nat)
    requires 0 < k < |ring| && Distinct(ring) && Ring(Left(ring, k))
    ensures ring[k].next == if k + 1 < |ring| then ring[k + 1] else ring[0]
  {
    LeftFacts(ring, k);
    Neighbours(Left(ring, k), 1);
  }

  lemma NextIsThere(ring: seq<Node>, k: nat)
    requires 0 < k <= |ring| && Ring(Left(ring, k))
    ensures (if k < |ring| then ring[k] else ring[0]).next != null
  {
    var l := Left(ring, k);
    assert (if k < |ring| then ring[k] else ring[0]) == if k < |ring| then l[1] else l[0];
  }

  /** One round of the sweep, with the footprint as a set. */
  method SweepEntry(pos: Node, next: Node, ghost ring: seq<Node>, ghost nodes: set<Node>, ghost k: nat)
    returns (pos': Node, next': Node)
    requires Sweeping(ring, k, pos, next) && k < |ring| && forall i | 0 <= i < |ring| :: ring[i] in nodes
    modifies nodes
    ensures Sweeping(ring, k + 1, pos', next')
  {
    LeftFacts(ring, k);
    NextInSweep(ring, k);
    hide Linked, Removed, Succ, Left, Distinct;
    ListDel(pos, Left(ring, k), 1);
    pos' := next;
    NextIsThere(ring, k + 1);
    next' := pos'.next;
  }

  /** The sweep that is safe against unlinking: the next entry is fetched before the current one goes.
      It meets every entry once, in order, and leaves the list empty.  `nodes` is the footprint. */
  method Sweep(head: Node, ghost ring: seq<Node>, ghost nodes: set<Node>) returns (visited: seq<Node>)
    requires Ring(ring) && ring[0] == head && forall i | 0 <= i < |ring| :: ring[i] in nodes
    modifies nodes
    ensures visited == ring[1..] && Ring([head])
    ensures forall j | 0 <= j < |visited| :: visited[j].next == null && visited[j].prev == null
  {
    SweepingStarts(ring);
    hide *;
    visited := [];
    ghost var k := 1;
    var pos: Node := head.next;
    var next: Node := pos.next;
    SweepingAt(ring, k, pos, next);
    while pos != head
      invariant Sweeping(ring, k, pos, next) && 0 < k <= |ring| && visited == ring[1..k]
      invariant pos == if k < |ring| then ring[k] else ring[0]
      invariant pos == head ==> k == |ring|
      decreases |ring| - k
    {
      visited := visited + [pos];
      assert visited == ring[1..k + 1];
      pos, next := SweepEntry(pos, next, ring, nodes, k);
      k := k + 1;
      SweepingAt(ring, k, pos, next);
    }
    SweepEnds(ring, pos, next);
  }

  lemma SweepingAt(ring: seq<Node>, k: nat, pos: Node, next: Node)
    requires Sweeping(ring, k, pos, next)
    ensures 0 < k <= |ring| && pos == (if k < |ring| then ring[k] else ring[0])
    ensures pos == ring[0] ==> k == |ring|
  {
  }

  lemma SweepEnds(ring: seq<Node>, pos: Node, next: Node)
    requires Sweeping(ring, |ring|, pos, next)
    ensures Ring([ring[0]]) && forall j | 0 < j < |ring| :: ring[j].next == null && ring[j].prev == null
  {
    assert Left(ring, |ring|) == [ring[0]];
  }
}
