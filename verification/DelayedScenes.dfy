/**
 The queue of delayed scene requests.  A pass over the queue reads the clock and the run flag once
 for every item: due items are sent, the rest are queued again.
 */
module DelayedScenes {
  import opened Common
  import opened NodeList

  datatype Item<T> = Item(due: int, request: T)

  /** What one round of a pass reads. */
  datatype Sample = Sample(running: bool, now: int)

  datatype Outcome<T> = Outcome(sent: seq<Item<T>>, kept: seq<Item<T>>)

  /** A pass in order over the items; once the flag drops, what has not been examined is dropped too. */
  function Pass<T>(queue: seq<Item<T>>, samples: seq<Sample>): Outcome<T>
    requires |samples| == |queue|
  {
    if queue == [] || !samples[0].running then Outcome([], [])
    else
      var rest := Pass(queue[1..], samples[1..]);
      if queue[0].due <= samples[0].now then rest.(sent := [queue[0]] + rest.sent)
      else rest.(kept := [queue[0]] + rest.kept)
  }

  predicate AllRunning(samples: seq<Sample>) {
    forall s <- samples :: s.running
  }

  lemma {:induction false} PassCounts<T>(queue: seq<Item<T>>, samples: seq<Sample>)
    requires |samples| == |queue|
    ensures var o := Pass(queue, samples);
            |o.sent| + |o.kept| <= |queue| && (|o.sent| + |o.kept| == |queue| <==> AllRunning(samples))
  {
    if queue != [] {
      assert samples == [samples[0]] + samples[1..];
      PassCounts(queue[1..], samples[1..]);
    }
  }

  lemma {:induction false} RunningPassConserves<T>(queue: seq<Item<T>>, samples: seq<Sample>)
    requires |samples| == |queue| && AllRunning(samples)
    ensures var o := Pass(queue, samples); multiset(o.sent) + multiset(o.kept) == multiset(queue)
  {
    if queue != [] {
      RunningPassConserves(queue[1..], samples[1..]);
      var rest := Pass(queue[1..], samples[1..]);
      MultisetCons(queue[0], queue[1..]);
      assert queue == [queue[0]] + queue[1..];
      if queue[0].due <= samples[0].now {
        MultisetCons(queue[0], rest.sent);
      } else {
        MultisetCons(queue[0], rest.kept);
      }
    }
  }

  lemma MultisetCons<T>(x: T, s: seq<T>)
    ensures multiset([x] + s) == multiset{x} + multiset(s)
  {
  }

  /** A pass loses no item exactly while the service keeps running. */
  lemma PassConserves<T>(queue: seq<Item<T>>, samples: seq<Sample>)
    requires |samples| == |queue|
    ensures var o := Pass(queue, samples);
            multiset(o.sent) + multiset(o.kept) == multiset(queue) <==> AllRunning(samples)
  {
    var o := Pass(queue, samples);
    PassCounts(queue, samples);
    if AllRunning(samples) {
      RunningPassConserves(queue, samples);
    } else {
      assert |multiset(o.sent) + multiset(o.kept)| == |o.sent| + |o.kept| < |multiset(queue)|;
    }
  }

  /** What is known in the midst of a pass that still has `queue'` to examine. */
  ghost predicate Midway<T>(queue: seq<Item<T>>, samples: seq<Sample>, sent: seq<Item<T>>, kept: seq<Item<T>>,
                            queue': seq<Item<T>>, samples': seq<Sample>)
    requires |samples| == |queue|
  {
    && |samples'| == |queue'|
    && var rest := Pass(queue', samples');
       Pass(queue, samples) == Outcome(sent + rest.sent, kept + rest.kept)
  }

  lemma PassOfNothing<T>()
    ensures Pass<T>([], []) == Outcome([], [])
  {
  }

  lemma MidwayStart<T>(queue: seq<Item<T>>, samples: seq<Sample>)
    requires |samples| == |queue|
    ensures Midway(queue, samples, [], [], queue, samples)
  {
  }

  lemma MidwayStep<T>(queue: seq<Item<T>>, samples: seq<Sample>, sent: seq<Item<T>>, kept: seq<Item<T>>,
                      item: Item<T>, queue': seq<Item<T>>, samples': seq<Sample>)
    requires |samples| == |queue| && |samples'| > 0 && samples'[0].running
    requires Midway(queue, samples, sent, kept, [item] + queue', samples')
    ensures if item.due <= samples'[0].now then Midway(queue, samples, sent + [item], kept, queue', samples'[1..])
            else Midway(queue, samples, sent, kept + [item], queue', samples'[1..])
  {
    assert ([item] + queue')[1..] == queue';
    var rest := Pass(queue', samples'[1..]);
    if item.due <= samples'[0].now {
      assert sent + ([item] + rest.sent) == (sent + [item]) + rest.sent;
    } else {
      assert kept + ([item] + rest.kept) == (kept + [item]) + rest.kept;
    }
  }

  lemma MidwayEnd<T>(queue: seq<Item<T>>, samples: seq<Sample>, sent: seq<Item<T>>, kept: seq<Item<T>>,
                     queue': seq<Item<T>>, samples': seq<Sample>)
    requires |samples| == |queue| && Midway(queue, samples, sent, kept, queue', samples')
    requires queue' == [] || !samples'[0].running
    ensures Pass(queue, samples) == Outcome(sent, kept)
  {
  }

  class SceneKernel<T> {
    const delayReqList: List<Item<T>>

    ghost predicate Valid()
      reads this, delayReqList, delayReqList.nodes
    {
      delayReqList.Valid()
    }

    ghost function Queue(): seq<Item<T>>
      reads this, delayReqList, delayReqList.nodes
    {
      Values(delayReqList.nodes)
    }

    constructor ()
      ensures Valid() && fresh(delayReqList) && Queue() == []
    {
      delayReqList := new List<Item<T>>();
    }

    /** Queues a request to be sent `delay` seconds from now, unless the service has stopped. */
    method AddDelayItemRequestNode(running: bool, now: int, delay: int, request: T) returns (ok: bool)
      requires Valid()
      modifies delayReqList, delayReqList.nodes
      ensures Valid() && ok == running
      ensures Queue() == old(Queue()) + if running then [Item(now + delay, request)] else []
      ensures forall j | 0 <= j < |delayReqList.nodes| ::
                delayReqList.nodes[j] in old(delayReqList.nodes) || fresh(delayReqList.nodes[j])
    {
      if !running {
        return false;
      }
      var node := new Node(Item(now + delay, request));
      delayReqList.AddTail(node);
      return true;
    }

    /** The middle of a pass: one node is in hand and in neither list, and the lists share no node. */
    ghost predicate Apart(currList: List<Item<T>>, node: Node?<Item<T>>)
      reads this, delayReqList, delayReqList.nodes, currList, currList.nodes, if node == null then {} else {node}
    {
      && delayReqList.Valid() && currList.Valid() && currList != delayReqList
      && (node == null ==> delayReqList.nodes == [])
      && (node != null ==> node.next == null && node !in delayReqList.nodes && node !in currList.nodes)
      && (forall j, k | 0 <= j < |currList.nodes| && 0 <= k < |delayReqList.nodes| ::
            currList.nodes[j] != delayReqList.nodes[k])
    }

    lemma ListsAreValid(currList: List<Item<T>>, node: Node?<Item<T>>)
      requires Apart(currList, node)
      ensures delayReqList.Valid() && currList.Valid()
    {
    }

    ghost function Remaining(node: Node?<Item<T>>): seq<Item<T>>
      reads this, delayReqList, delayReqList.nodes
    {
      if node == null then [] else [node.value] + Values(delayReqList.nodes)
    }

    /** Takes the first node off the queue, with `currList` still empty. */
    method TakeFirst(currList: List<Item<T>>) returns (node: Node?<Item<T>>)
      requires delayReqList.Valid() && currList.Valid() && currList.nodes == [] && currList != delayReqList
      modifies delayReqList, delayReqList.nodes
      ensures Apart(currList, node) && delayReqList.Valid() && Remaining(node) == old(Queue())
      ensures node == null ==> Queue() == old(Queue()) == []
      ensures node != null ==> node in old(delayReqList.nodes)
      ensures forall j | 0 <= j < |delayReqList.nodes| :: delayReqList.nodes[j] in old(delayReqList.nodes)
    {
      hide Values, Chained, Distinct;
      node := delayReqList.GetAndSeparateHeader();
    }

    /** Sends a due item, or queues it again, and takes the next one off the queue. */
    method Examine(node: Node<Item<T>>, sample: Sample, currList: List<Item<T>>)
      returns (sent: Option<Item<T>>, next: Node?<Item<T>>)
      requires Apart(currList, node)
      modifies delayReqList, delayReqList.nodes, currList, currList.nodes
      ensures Apart(currList, next) && Remaining(next) == old(Values(delayReqList.nodes))
      ensures if node.value.due <= sample.now then sent == Some(node.value) && currList.nodes == old(currList.nodes)
              else sent == None && currList.nodes == old(currList.nodes) + [node]
      ensures Values(currList.nodes) == old(Values(currList.nodes)) + if sent.None? then [node.value] else []
      ensures next != null ==> next in old(delayReqList.nodes)
      ensures forall j | 0 <= j < |delayReqList.nodes| :: delayReqList.nodes[j] in old(delayReqList.nodes)
    {
      hide Values, Chained, Distinct;
      sent := None;
      if node.value.due <= sample.now {
        sent := Some(node.value);
      } else {
        currList.AddTail(node);
      }
      next := delayReqList.GetAndSeparateHeader();
    }

    /** The loop of a pass, with `nodes` as the footprint: sends what is due and collects the rest. */
    method SendDue(currList: List<Item<T>>, first: Node?<Item<T>>, samples: seq<Sample>,
                   ghost nodes: set<Node<Item<T>>>)
      returns (sent: seq<Item<T>>)
      requires Apart(currList, first) && currList.nodes == [] && |samples| == |Remaining(first)|
      requires first != null ==> first in nodes
      requires forall j | 0 <= j < |delayReqList.nodes| :: delayReqList.nodes[j] in nodes
      modifies delayReqList, currList, nodes
      ensures delayReqList.Valid() && currList.Valid()
      ensures forall j | 0 <= j < |currList.nodes| :: currList.nodes[j] in nodes
      ensures Outcome(sent, Values(currList.nodes)) == Pass(old(Remaining(first)), samples)
    {
      ghost var queue := Remaining(first);
      MidwayStart(queue, samples);
      hide Pass, Midway, Values, Chained, Distinct, SceneKernel.Apart, List.Valid;
      sent := [];
      var node := first;
      var i := 0;
      while node != null && samples[i].running
        invariant Apart(currList, node)
        invariant i <= |samples| && |samples| - i == |Remaining(node)|
        invariant Midway(queue, samples, sent, Values(currList.nodes), Remaining(node), samples[i..])
        invariant node != null ==> node in nodes
        invariant forall j | 0 <= j < |delayReqList.nodes| :: delayReqList.nodes[j] in nodes
        invariant forall j | 0 <= j < |currList.nodes| :: currList.nodes[j] in nodes
        decreases |samples| - i
      {
        ghost var kept := Values(currList.nodes);
        MidwayStep(queue, samples, sent, kept, node.value, Values(delayReqList.nodes), samples[i..]);
        assert kept + [] == kept;
        var due, next := Examine(node, samples[i], currList);
        assert samples[i..][0] == samples[i] && samples[i..][1..] == samples[i + 1..];
        if due.Some? {
          sent := sent + [due.value];
        }
        node := next;
        i := i + 1;
      }
      MidwayEnd(queue, samples, sent, Values(currList.nodes), Remaining(node), samples[i..]);
      ListsAreValid(currList, node);
    }

    /** One pass: takes the items off the queue one by one, sends what is due, collects the rest in a
        list of its own and takes that list over as the queue. */
    method DoDelayItemRequest(samples: seq<Sample>) returns (sent: seq<Item<T>>)
      requires Valid() && |samples| == |Queue()|
      modifies delayReqList, delayReqList.nodes
      ensures Valid() && Outcome(sent, Queue()) == Pass(old(Queue()), samples)
      ensures forall j | 0 <= j < |delayReqList.nodes| :: delayReqList.nodes[j] in old(delayReqList.nodes)
    {
      PassOfNothing<T>();
      hide Pass, Values, Chained, Distinct, SceneKernel.Apart, List.Valid;
      ghost var nodes := set n | n in delayReqList.nodes;
      var currList := new List<Item<T>>();
      var node := TakeFirst(currList);
      if node == null {
        return [];
      }
      sent := SendDue(currList, node, samples, nodes);
      delayReqList.Assign(currList);
    }
  }
}
