/**
 Whole runs of the delayed scene queue.  Requests are numbered as they are added; the state records
 what has been added, what has been sent and every comparison of an item with a clock reading.
 */
module DelayedRuns {
  import opened DelayedScenes
  import opened NodeList

  datatype Numbered<T> = Numbered(id: nat, request: T)

  datatype Event<!T> =
    | Added(now: int, delay: int, request: T)
    | Passed(read: nat -> int)

  datatype Test<T> = Test(item: Item<Numbered<T>>, at: int)

  datatype State<T> = State(queue: seq<Item<Numbered<T>>>, added: seq<Item<Numbered<T>>>,
                            sent: seq<Item<Numbered<T>>>, log: seq<Test<T>>)

  function Start<T>(): State<T> {
    State([], [], [], [])
  }

  /** What a running service reads in a pass over n items. */
  function Samples(read: nat -> int, n: nat): (samples: seq<Sample>)
    ensures |samples| == n && (forall i | 0 <= i < n :: samples[i] == Sample(true, read(i)))
  {
    if n == 0 then [] else Samples(read, n - 1) + [Sample(true, read(n - 1))]
  }

  function Tests<T>(queue: seq<Item<Numbered<T>>>, read: nat -> int): (tests: seq<Test<T>>)
    ensures |tests| == |queue| && forall i | 0 <= i < |queue| :: tests[i] == Test(queue[i], read(i))
  {
    if queue == [] then [] else Tests(queue[..|queue| - 1], read) + [Test(queue[|queue| - 1], read(|queue| - 1))]
  }

  function Step<T>(s: State<T>, e: Event<T>): State<T> {
    match e
    case Added(now, delay, request) =>
      var item := Item(now + delay, Numbered(|s.added|, request));
      s.(queue := s.queue + [item], added := s.added + [item])
    case Passed(read) =>
      var o := Pass(s.queue, Samples(read, |s.queue|));
      s.(queue := o.kept, sent := s.sent + o.sent, log := s.log + Tests(s.queue, read))
  }

  function Run<T>(events: seq<Event<T>>): State<T> {
    if events == [] then Start() else Step(Run(events[..|events| - 1]), events[|events| - 1])
  }

  /** The clock readings that an item was compared with, in order. */
  function Readings<T>(log: seq<Test<T>>, id: nat): seq<int> {
    if log == [] then []
    else
      var last := log[|log| - 1];
      Readings(log[..|log| - 1], id) + if last.item.request.id == id then [last.at] else []
  }

  // ---------- one pass ----------

  ghost predicate InOrder<T>(items: seq<Item<Numbered<T>>>) {
    forall i, j | 0 <= i < j < |items| :: items[i].request.id < items[j].request.id
  }

  lemma {:induction false} PassTakesFromQueue<T>(queue: seq<Item<T>>, samples: seq<Sample>)
    requires |samples| == |queue|
    ensures forall x <- Pass(queue, samples).sent :: x in queue
    ensures forall x <- Pass(queue, samples).kept :: x in queue
  {
    if queue != [] { PassTakesFromQueue(queue[1..], samples[1..]); }
  }

  lemma FirstIsLeast<T>(queue: seq<Item<Numbered<T>>>)
    requires InOrder(queue) && queue != []
    ensures InOrder(queue[1..]) && forall x <- queue[1..] :: queue[0].request.id < x.request.id
  {
  }

  lemma InOrderCons<T>(x: Item<Numbered<T>>, rest: seq<Item<Numbered<T>>>)
    requires InOrder(rest) && forall y <- rest :: x.request.id < y.request.id
    ensures InOrder([x] + rest)
  {
  }

  /** A pass sends in queue order and keeps in queue order. */
  lemma {:induction false} PassKeepsOrder<T>(queue: seq<Item<Numbered<T>>>, samples: seq<Sample>)
    requires |samples| == |queue| && InOrder(queue)
    ensures InOrder(Pass(queue, samples).sent) && InOrder(Pass(queue, samples).kept)
  {
    hide InOrder;
    NothingInOrder<T>();
    if queue != [] {
      FirstIsLeast(queue);
      PassKeepsOrder(queue[1..], samples[1..]);
      PassTakesFromQueue(queue[1..], samples[1..]);
      var rest := Pass(queue[1..], samples[1..]);
      InOrderCons(queue[0], rest.sent);
      InOrderCons(queue[0], rest.kept);
    }
  }

  lemma NothingInOrder<T>()
    ensures InOrder<T>([])
  {
  }

  /** A running pass sends an item if it is due by the reading taken for it, and else keeps it. */
  lemma {:induction false} PassDecides<T>(queue: seq<Item<Numbered<T>>>, samples: seq<Sample>, k: nat)
    requires |samples| == |queue| && AllRunning(samples) && InOrder(queue) && k < |queue|
    ensures queue[k] in Pass(queue, samples).sent <==> queue[k].due <= samples[k].now
    ensures queue[k] in Pass(queue, samples).kept <==> queue[k].due > samples[k].now
  {
    hide InOrder;
    FirstIsLeast(queue);
    if k > 0 {
      PassDecides(queue[1..], samples[1..], k - 1);
      assert queue[1..][k - 1] == queue[k] && samples[1..][k - 1] == samples[k];
    } else {
      PassTakesFromQueue(queue[1..], samples[1..]);
    }
  }

  lemma {:induction false} ReadingsOfSum<T>(a: seq<Test<T>>, b: seq<Test<T>>, id: nat)
    ensures Readings(a + b, id) == Readings(a, id) + Readings(b, id)
  {
    if b == [] {
      assert a + b == a;
    } else {
      assert (a + b)[..|a + b| - 1] == a + b[..|b| - 1];
      ReadingsOfSum(a, b[..|b| - 1], id);
    }
  }

  lemma {:induction false} NoReadings<T>(log: seq<Test<T>>, id: nat)
    requires forall t <- log :: t.item.request.id != id
    ensures Readings(log, id) == []
  {
    if log != [] { NoReadings(log[..|log| - 1], id); }
  }

  /** A pass compares the item at position k with exactly one reading. */
  lemma {:induction false} OneReading<T>(queue: seq<Item<Numbered<T>>>, read: nat -> int, k: nat)
    requires InOrder(queue) && k < |queue|
    ensures Readings(Tests(queue, read), queue[k].request.id) == [read(k)]
  {
    var n := |queue| - 1;
    var tests := Tests(queue, read);
    assert tests[..n] == Tests(queue[..n], read);
    if k == n {
      NoReadings(tests[..n], queue[k].request.id);
    } else {
      OneReading(queue[..n], read, k);
    }
  }

  // ---------- runs ----------

  ghost predicate WellNumbered<T>(s: State<T>) {
    && (forall k | 0 <= k < |s.added| :: s.added[k].request.id == k)
    && InOrder(s.queue)
    && (forall x <- s.queue :: x.request.id < |s.added| && s.added[x.request.id] == x)
    && (forall t <- s.log :: t.item.request.id < |s.added|)
    && multiset(s.sent) + multiset(s.queue) == multiset(s.added)
  }

  predicate Early(ts: seq<int>, due: int) {
    forall i | 0 <= i < |ts| :: ts[i] < due
  }

  predicate LastIsDue(ts: seq<int>, due: int) {
    |ts| > 0 && Early(ts[..|ts| - 1], due) && ts[|ts| - 1] >= due
  }

  /** A waiting item has met early readings only; a sent one has met early ones and then one that is
      not before its due time, and none since. */
  ghost predicate Settled<T>(s: State<T>, id: nat)
    requires id < |s.added|
  {
    var item, ts := s.added[id], Readings(s.log, id);
    if item in s.queue then Early(ts, item.due) else LastIsDue(ts, item.due)
  }

  lemma OneMoreReading(ts: seq<int>, due: int, t: int)
    requires Early(ts, due)
    ensures if t < due then Early(ts + [t], due) else LastIsDue(ts + [t], due)
  {
    assert (ts + [t])[..|ts|] == ts;
  }

  lemma {:induction false} RunIsWellNumbered<T>(events: seq<Event<T>>)
    ensures WellNumbered(Run(events))
  {
    if events != [] {
      var n := |events| - 1;
      RunIsWellNumbered(events[..n]);
      StepIsWellNumbered(Run(events[..n]), events[n]);
    }
  }

  lemma AddIsWellNumbered<T>(s: State<T>, item: Item<Numbered<T>>)
    requires WellNumbered(s) && item.request.id == |s.added|
    ensures WellNumbered(s.(queue := s.queue + [item], added := s.added + [item]))
  {
    assert multiset(s.queue + [item]) == multiset(s.queue) + multiset{item};
  }

  lemma PassIsWellNumbered<T>(s: State<T>, read: nat -> int)
    requires WellNumbered(s)
    ensures WellNumbered(Step(s, Passed(read)))
  {
    hide Pass, InOrder, Tests;
    var samples := Samples(read, |s.queue|);
    var o := Pass(s.queue, samples);
    PassKeepsOrder(s.queue, samples);
    PassTakesFromQueue(s.queue, samples);
    RunningPassConserves(s.queue, samples);
    MovedItems(s.sent, s.queue, o.sent, o.kept);
  }

  lemma StepIsWellNumbered<T>(s: State<T>, e: Event<T>)
    requires WellNumbered(s)
    ensures WellNumbered(Step(s, e))
  {
    hide WellNumbered;
    match e
    case Added(now, delay, request) => AddIsWellNumbered(s, Item(now + delay, Numbered(|s.added|, request)));
    case Passed(read) => PassIsWellNumbered(s, read);
  }

  lemma MovedItems<T>(sent: seq<T>, queue: seq<T>, moved: seq<T>, kept: seq<T>)
    requires multiset(moved) + multiset(kept) == multiset(queue)
    ensures multiset(sent + moved) + multiset(kept) == multiset(sent) + multiset(queue)
  {
  }

  lemma {:induction false} RunIsSettled<T>(events: seq<Event<T>>, id: nat)
    requires id < |Run(events).added|
    ensures Settled(Run(events), id)
  {
    var n := |events| - 1;
    var s := Run(events[..n]);
    RunIsWellNumbered(events[..n]);
    if id < |s.added| {
      RunIsSettled(events[..n], id);
      StepKeepsSettled(s, events[n], id);
    } else {
      NoReadings(s.log, id);
    }
  }

  lemma StepKeepsSettled<T>(s: State<T>, e: Event<T>, id: nat)
    requires WellNumbered(s) && id < |s.added| && Settled(s, id)
    ensures Settled(Step(s, e), id)
  {
    match e
    case Added(now, delay, request) =>
    case Passed(read) =>
      PassKeepsSettled(s, read, id);
  }

  lemma WaitingIsNumbered<T>(s: State<T>, id: nat)
    requires WellNumbered(s) && id < |s.added|
    ensures InOrder(s.queue) && s.added[id].request.id == id
    ensures s.added[id] !in s.queue ==> forall k | 0 <= k < |s.queue| :: s.queue[k].request.id != id
  {
    forall k | 0 <= k < |s.queue| && s.queue[k].request.id == id ensures s.queue[k] == s.added[id] {
      assert s.queue[k] in s.queue;
    }
  }

  lemma PassKeepsSettled<T>(s: State<T>, read: nat -> int, id: nat)
    requires WellNumbered(s) && id < |s.added| && Settled(s, id)
    ensures Settled(Step(s, Passed(read)), id)
  {
    hide Pass, Readings, Tests, InOrder, Early, LastIsDue, WellNumbered;
    var item, tests := s.added[id], Tests(s.queue, read);
    var samples := Samples(read, |s.queue|);
    WaitingIsNumbered(s, id);
    ReadingsOfSum(s.log, tests, id);
    if item in s.queue {
      var k :| 0 <= k < |s.queue| && s.queue[k] == item;
      OneReading(s.queue, read, k);
      PassDecides(s.queue, samples, k);
      OneMoreReading(Readings(s.log, id), item.due, read(k));
    } else {
      PassTakesFromQueue(s.queue, samples);
      NoReadings(tests, id);
      assert Readings(s.log, id) + [] == Readings(s.log, id);
    }
  }

  lemma {:induction false} CountsOnce<T>(added: seq<Item<Numbered<T>>>, id: nat)
    requires id < |added| && forall k | 0 <= k < |added| :: added[k].request.id == k
    ensures multiset(added)[added[id]] == 1
  {
    var n := |added| - 1;
    assert added == added[..n] + [added[n]];
    if id < n {
      CountsOnce(added[..n], id);
    } else {
      assert added[id] !in added[..n];
    }
  }

  lemma {:induction false} InOrderCountsOnce<T>(queue: seq<Item<Numbered<T>>>, x: Item<Numbered<T>>)
    requires InOrder(queue)
    ensures multiset(queue)[x] == if x in queue then 1 else 0
  {
    if queue != [] {
      var n := |queue| - 1;
      assert queue == queue[..n] + [queue[n]];
      InOrderCountsOnce(queue[..n], x);
    }
  }

  /** Main result: in every run, each added item is sent at most once; it has been sent exactly when it
      no longer waits, and then at the first pass that read the clock at or after its due time. */
  lemma EachSentOnce<T>(events: seq<Event<T>>, id: nat)
    requires id < |Run(events).added|
    ensures var s := Run(events); var item := s.added[id];
            multiset(s.sent)[item] == (if item in s.queue then 0 else 1) && Settled(s, id)
  {
    var s := Run(events);
    RunIsWellNumbered(events);
    RunIsSettled(events, id);
    CountsOnce(s.added, id);
    InOrderCountsOnce(s.queue, s.added[id]);
    assert (multiset(s.sent) + multiset(s.queue))[s.added[id]] == 1;
  }

  /** The additions of a run, in order. */
  function Asked<T>(events: seq<Event<T>>): (asked: seq<Event<T>>)
    ensures forall e <- asked :: e.Added?
  {
    if events == [] then []
    else
      var last := events[|events| - 1];
      Asked(events[..|events| - 1]) + if last.Added? then [last] else []
  }

  /** The n-th item is the n-th request that was added, due its delay after the moment of its addition. */
  lemma {:induction false} DueAsAsked<T>(events: seq<Event<T>>)
    ensures |Run(events).added| == |Asked(events)|
    ensures forall id | 0 <= id < |Asked(events)| ::
              var e := Asked(events)[id];
              Run(events).added[id] == Item(e.now + e.delay, Numbered(id, e.request))
  {
    if events != [] {
      hide Pass, Tests, Samples;
      DueAsAsked(events[..|events| - 1]);
    }
  }

  // ---------- runs of the object ----------

  lemma RunSnoc<T>(events: seq<Event<T>>, i: nat)
    requires i < |events|
    ensures Run(events[..i + 1]) == Step(Run(events[..i]), events[i])
  {
    hide Step;
    assert events[..i + 1][..i] == events[..i];
  }

  /** One addition, or one pass by a running service. */
  method HandleEvent<T>(kernel: SceneKernel<Numbered<T>>, e: Event<T>, number: nat, ghost s: State<T>)
    returns (sent: seq<Item<Numbered<T>>>)
    requires kernel.Valid() && kernel.Queue() == s.queue && number == |s.added|
    modifies kernel.delayReqList, kernel.delayReqList.nodes
    ensures kernel.Valid() && kernel.Queue() == Step(s, e).queue && s.sent + sent == Step(s, e).sent
    ensures forall j | 0 <= j < |kernel.delayReqList.nodes| ::
              kernel.delayReqList.nodes[j] in old(kernel.delayReqList.nodes) || fresh(kernel.delayReqList.nodes[j])
  {
    hide List.Valid, Pass;
    sent := [];
    match e
    case Added(now, delay, request) =>
      var ok := kernel.AddDelayItemRequestNode(true, now, delay, Numbered(number, request));
    case Passed(read) =>
      var n := kernel.delayReqList.GetCount();
      sent := kernel.DoDelayItemRequest(Samples(read, n));
  }

  /** Any run of additions and passes on one object, from its creation on: its queue and what it has sent
      are the run's. */
  method HandleRun<T>(events: seq<Event<T>>)
    returns (kernel: SceneKernel<Numbered<T>>, sent: seq<Item<Numbered<T>>>)
    ensures fresh(kernel) && fresh(kernel.delayReqList) && kernel.Valid()
    ensures kernel.Queue() == Run(events).queue && sent == Run(events).sent
  {
    hide Values, List.Valid, Step;
    kernel := new SceneKernel<Numbered<T>>();
    sent := [];
    var i, number := 0, 0;
    while i < |events|
      invariant i <= |events| && kernel.Valid() && fresh(kernel.delayReqList)
      invariant forall j | 0 <= j < |kernel.delayReqList.nodes| :: fresh(kernel.delayReqList.nodes[j])
      invariant kernel.Queue() == Run(events[..i]).queue && sent == Run(events[..i]).sent
      invariant number == |Run(events[..i]).added|
    {
      RunSnoc(events, i);
      AddedCounts(Run(events[..i]), events[i]);
      var out := HandleEvent(kernel, events[i], number, Run(events[..i]));
      sent := sent + out;
      number := if events[i].Added? then number + 1 else number;
      i := i + 1;
    }
    assert events[..|events|] == events;
  }

  lemma AddedCounts<T>(s: State<T>, e: Event<T>)
    ensures |Step(s, e).added| == |s.added| + if e.Added? then 1 else 0
  {
  }
}
