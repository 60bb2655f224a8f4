/**
 The ring between the receiving thread and the handling thread, step by step.  The receiver's AddData
 takes no lock around the ring: it stores a message and advances the write index, and when that has
 come to 4 sets it back to 0 in a second assignment.  The handler wakes up and runs its two loops one
 iteration at a time.  The two threads interleave between these steps in any way.
 */
module AqmRing {
  import opened AqmScanner
  import opened AqmMonitor

  /** Where the handler is: asleep, in the loop up to the last slot, or in the loop up to the write index. */
  datatype Place = Asleep | Wrapping | Following

  datatype Ring = Ring(slots: seq<Message>, read: nat, write: nat, place: Place, log: seq<Message>)

  datatype Event = Store(message: Message) | Fold | Wake | Iterate

  const EMPTY := Message(0, [])

  function Initial(): Ring {
    Ring([EMPTY, EMPTY, EMPTY, EMPTY], 0, 0, Asleep, [])
  }

  ghost predicate InBounds(r: Ring) {
    |r.slots| == MAX_DATA_COUNT && r.read <= MAX_DATA_COUNT && r.write <= MAX_DATA_COUNT
  }

  function HandleOne(r: Ring): Ring
    requires InBounds(r) && r.read < MAX_DATA_COUNT
  {
    r.(log := r.log + [r.slots[r.read]], slots := r.slots[r.read := EMPTY], read := r.read + 1)
  }

  function WakeUp(r: Ring): Ring {
    if r.place != Asleep || r.read == r.write then r
    else r.(place := if r.read > r.write then Wrapping else Following)
  }

  function LoopStep(r: Ring): Ring
    requires InBounds(r)
  {
    match r.place
    case Asleep => r
    case Wrapping =>
      if r.read < MAX_DATA_COUNT then
        var h := HandleOne(r);
        if h.read >= MAX_DATA_COUNT then h.(read := 0, place := Following) else h
      else r.(place := Following)
    case Following => if r.read < r.write then HandleOne(r) else r.(place := Asleep)
  }

  /** A message is stored only when the receiver has folded its index. */
  predicate Accepts(r: Ring, e: Event) {
    e.Store? && r.write < MAX_DATA_COUNT
  }

  /** One step of either thread; a step that the thread is not about to make changes nothing. */
  function Step(r: Ring, e: Event): (r': Ring)
    requires InBounds(r)
    ensures InBounds(r')
  {
    match e
    case Store(m) =>
      if r.write < MAX_DATA_COUNT then r.(slots := r.slots[r.write := m], write := r.write + 1) else r
    case Fold => if r.write == MAX_DATA_COUNT then r.(write := 0) else r
    case Wake => WakeUp(r)
    case Iterate => LoopStep(r)
  }

  function WaitingCount(r: Ring): int {
    (if r.read <= r.write then 0 else MAX_DATA_COUNT) + r.write - r.read
  }

  /** The n slots from `start` on, around the end. */
  function Slots(slots: seq<Message>, start: nat, n: nat): (w: seq<Message>)
    requires |slots| == MAX_DATA_COUNT && start < MAX_DATA_COUNT
    ensures |w| == n
    decreases n
  {
    if n == 0 then [] else [slots[start]] + Slots(slots, NextSlot(start), n - 1)
  }

  function NextSlot(slot: nat): nat {
    if slot + 1 == MAX_DATA_COUNT then 0 else slot + 1
  }

  /** The read index is a slot, and the messages handled and then those waiting are the added ones. */
  ghost predicate Ordered(r: Ring, added: seq<Message>)
    requires InBounds(r)
  {
    r.read < MAX_DATA_COUNT && r.log + Slots(r.slots, r.read, WaitingCount(r)) == added
  }

  /** The three steps that spoil the order: storing onto the slot before the read index, so that the ring
      looks empty; folding the index of a full ring onto read index 0; and handling the last slot before
      the receiver has folded its index. */
  predicate Spoils(r: Ring, e: Event) {
    || (Accepts(r, e) && r.write + 1 == r.read)
    || (e.Fold? && r.write == MAX_DATA_COUNT && r.read == 0)
    || (e.Iterate? && r.place == Following && r.read == 3 && r.write == MAX_DATA_COUNT)
  }

  ghost predicate Ok(r: Ring) {
    InBounds(r) && r.read < MAX_DATA_COUNT && (r.place == Wrapping ==> r.read > r.write)
  }

  function Waiting(r: Ring): seq<Message>
    requires Ok(r)
  {
    Slots(r.slots, r.read, WaitingCount(r))
  }

  lemma {:induction false} SlotsUntouched(s: seq<Message>, t: seq<Message>, start: nat, n: nat, hole: nat)
    requires |s| == |t| == MAX_DATA_COUNT && start < MAX_DATA_COUNT && n < MAX_DATA_COUNT
    requires hole < MAX_DATA_COUNT && forall i | 0 <= i < MAX_DATA_COUNT && i != hole :: s[i] == t[i]
    requires forall k: nat | k < n :: Monitor.SlotOf(start, k) != hole
    ensures Slots(s, start, n) == Slots(t, start, n)
    decreases n
  {
    if n > 0 {
      var next := NextSlot(start);
      assert Monitor.SlotOf(start, 0) != hole;
      forall k: nat | k < n - 1 ensures Monitor.SlotOf(next, k) != hole {
        assert Monitor.SlotOf(start, k + 1) == Monitor.SlotOf(next, k);
      }
      SlotsUntouched(s, t, next, n - 1, hole);
    }
  }

  lemma {:induction false} SlotsSnoc(s: seq<Message>, start: nat, n: nat)
    requires |s| == MAX_DATA_COUNT && start < MAX_DATA_COUNT && n < MAX_DATA_COUNT
    ensures Slots(s, start, n + 1) == Slots(s, start, n) + [s[Monitor.SlotOf(start, n)]]
    decreases n
  {
    if n > 0 { SlotsSnoc(s, NextSlot(start), n - 1); }
  }

  lemma StoreWaits(r: Ring, m: Message)
    requires Ok(r) && r.write < MAX_DATA_COUNT && r.write + 1 != r.read
    ensures Ok(Step(r, Store(m))) && Waiting(Step(r, Store(m))) == Waiting(r) + [m]
  {
    var r' := Step(r, Store(m));
    var n := WaitingCount(r);
    SlotsUntouched(r.slots, r'.slots, r.read, n, r.write);
    SlotsSnoc(r'.slots, r.read, n);
  }

  lemma HandleTakesFirst(r: Ring)
    requires Ok(r) && WaitingCount(r) > 0
    ensures var h := HandleOne(r);
            var next := if h.read == MAX_DATA_COUNT then 0 else h.read;
            h.log + Slots(h.slots, next, WaitingCount(r) - 1) == r.log + Waiting(r)
  {
    var h := HandleOne(r);
    var next := if h.read == MAX_DATA_COUNT then 0 else h.read;
    SlotsUntouched(r.slots, h.slots, next, WaitingCount(r) - 1, r.read);
    assert Waiting(r) == [r.slots[r.read]] + Slots(r.slots, next, WaitingCount(r) - 1);
  }

  lemma StepKeepsOrder(r: Ring, e: Event)
    requires Ok(r) && !Spoils(r, e)
    ensures Ok(Step(r, e))
    ensures Step(r, e).log + Waiting(Step(r, e)) == r.log + Waiting(r) + (if Accepts(r, e) then [e.message] else [])
  {
    match e
    case Store(m) => if r.write < MAX_DATA_COUNT { StoreWaits(r, m); }
    case Fold =>
    case Wake =>
    case Iterate =>
      if r.place == Wrapping || (r.place == Following && r.read < r.write) { HandleTakesFirst(r); }
  }

  // ---------- whole runs ----------

  function After(run: seq<Event>, k: nat): (r: Ring)
    requires k <= |run|
    ensures InBounds(r)
  {
    if k == 0 then Initial() else Step(After(run, k - 1), run[k - 1])
  }

  /** The messages added by the first k steps. */
  function Added(run: seq<Event>, k: nat): seq<Message>
    requires k <= |run|
  {
    if k == 0 then []
    else Added(run, k - 1) + if Accepts(After(run, k - 1), run[k - 1]) then [run[k - 1].message] else []
  }

  ghost predicate NeverSpoilt(run: seq<Event>, k: nat)
    requires k <= |run|
  {
    forall j | 0 <= j < k :: !Spoils(After(run, j), run[j])
  }

  lemma {:induction false} NothingLost(run: seq<Event>, k: nat)
    requires k <= |run| && NeverSpoilt(run, k)
    ensures Ok(After(run, k)) && After(run, k).log + Waiting(After(run, k)) == Added(run, k)
  {
    hide Step, Waiting, Spoils, Accepts;
    if k == 0 {
      InitialWaiting();
    } else {
      NothingLost(run, k - 1);
      StepKeepsOrder(After(run, k - 1), run[k - 1]);
    }
  }

  lemma InitialWaiting()
    ensures Ok(Initial()) && Waiting(Initial()) == []
  {
  }

  /** Each of the three steps makes the ring look shorter than it is, or leaves the slots. */
  lemma SpoiltStep(r: Ring, e: Event, added: seq<Message>)
    requires InBounds(r) && Ordered(r, added) && Spoils(r, e)
    ensures !Ordered(Step(r, e), added + if Accepts(r, e) then [e.message] else [])
  {
    var r' := Step(r, e);
    if r'.read < MAX_DATA_COUNT {
      assert |added| == |r.log| + WaitingCount(r);
      assert r'.log == r.log && WaitingCount(r') == 0;
    }
  }

  lemma OrderIsLost(run: seq<Event>, j: nat)
    requires j < |run| && Spoils(After(run, j), run[j]) && Ordered(After(run, j), Added(run, j))
    ensures !Ordered(After(run, j + 1), Added(run, j + 1))
  {
    hide Step, Spoils, Ordered, Accepts;
    SpoiltStep(After(run, j), run[j], Added(run, j));
  }

  /** Main result: in every interleaving, the handled messages followed by the waiting ones are the
      added ones, in order, at every moment, exactly when none of the three steps is ever made. */
  lemma HandledInArrivalOrder(run: seq<Event>)
    ensures (forall k | 0 <= k <= |run| :: Ordered(After(run, k), Added(run, k))) <==> NeverSpoilt(run, |run|)
  {
    hide Step, Spoils, After, Added;
    if NeverSpoilt(run, |run|) {
      forall k | 0 <= k <= |run| ensures Ordered(After(run, k), Added(run, k)) { NothingLost(run, k); }
    } else {
      hide Ordered;
      var j :| 0 <= j < |run| && Spoils(After(run, j), run[j]);
      if Ordered(After(run, j), Added(run, j)) {
        OrderIsLost(run, j);
        assert !Ordered(After(run, j + 1), Added(run, j + 1));
      }
    }
  }

  /** Composed with the scanner: the handler has reported one scan of the octets of a prefix of the
      added messages. */
  lemma ReportsOfRun(run: seq<Event>)
    requires NeverSpoilt(run, |run|)
    ensures var log := After(run, |run|).log;
            && log <= Added(run, |run|)
            && States(Handle([], log).0) == Scan(Stream(log), 0).0
  {
    hide Handle, Stream, Scan, Waiting, Step, Spoils;
    NothingLost(run, |run|);
    var log := After(run, |run|).log;
    HandlingIsOneScan([], log);
    assert [] + Stream(log) == Stream(log);
  }

  // ---------- the handler alone ----------

  /** The handler makes n iterations while nothing is added. */
  function Iterated(r: Ring, n: nat): (r': Ring)
    requires InBounds(r)
    ensures InBounds(r')
    decreases n
  {
    if n == 0 then r else Iterated(Step(r, Iterate), n - 1)
  }

  /** An iteration of an awake handler takes one message, if any is waiting. */
  lemma IterationTakesOne(r: Ring)
    requires Ok(r) && r.write < MAX_DATA_COUNT && (r.place == Wrapping || (r.place == Following && r.read <= r.write))
    ensures var r' := Step(r, Iterate);
            && Ok(r') && r'.write == r.write && r'.log + Waiting(r') == r.log + Waiting(r)
            && if WaitingCount(r) > 0
               then WaitingCount(r') == WaitingCount(r) - 1
                    && (r'.place == Wrapping || (r'.place == Following && r'.read <= r'.write))
               else r' == r.(place := Asleep)
  {
    StepKeepsOrder(r, Iterate);
  }

  lemma {:induction false} AwakeHandlerDrains(r: Ring)
    requires Ok(r) && r.write < MAX_DATA_COUNT && (r.place == Wrapping || (r.place == Following && r.read <= r.write))
    ensures var r' := Iterated(r, WaitingCount(r) + 1);
            r'.log == r.log + Waiting(r) && r'.read == r'.write == r.write && r'.place == Asleep
    decreases WaitingCount(r)
  {
    hide Step, Waiting;
    IterationTakesOne(r);
    if WaitingCount(r) > 0 {
      AwakeHandlerDrains(Step(r, Iterate));
    } else {
      assert Iterated(r, 1) == Iterated(Step(r, Iterate), 0);
      NothingWaits(r);
      assert r.log + [] == r.log;
    }
  }

  lemma NothingWaits(r: Ring)
    requires Ok(r) && WaitingCount(r) == 0
    ensures Waiting(r) == [] && r.read == r.write
  {
  }

  /** Woken while the receiver rests, the handler takes every waiting message, in order, around the end of
      the slots, and falls asleep with the ring empty. */
  lemma WokenHandlerDrains(r: Ring)
    requires Ok(r) && r.write < MAX_DATA_COUNT && r.place == Asleep && r.read != r.write
    ensures var r' := Iterated(Step(r, Wake), WaitingCount(r) + 1);
            r'.log == r.log + Waiting(r) && r'.read == r'.write == r.write && r'.place == Asleep
  {
    AwakeHandlerDrains(Step(r, Wake));
  }

  // ---------- the handler overtakes the fold ----------

  /** Three messages, all handled; a fourth, handled before the receiver folds its index. */
  function TornRun(m: Message): seq<Event> {
    [Store(m), Store(m), Store(m), Wake, Iterate, Iterate, Iterate, Iterate, Store(m), Wake, Iterate, Fold]
  }

  /** Where the two threads are after k steps. */
  ghost predicate At(run: seq<Event>, k: nat, read: nat, write: nat, place: Place)
    requires k <= |run|
  {
    After(run, k).read == read && After(run, k).write == write && After(run, k).place == place
  }

  lemma TornEvents(m: Message, run: seq<Event>)
    requires |run| >= 12 && run[..12] == TornRun(m)
    ensures run[0] == run[1] == run[2] == run[8] == Store(m) && run[3] == run[9] == Wake && run[11] == Fold
    ensures run[4] == run[5] == run[6] == run[7] == run[10] == Iterate
  {
    var t := run[..12];
    assert run[0] == t[0] && run[1] == t[1] && run[2] == t[2] && run[3] == t[3] && run[4] == t[4] && run[5] == t[5];
    assert run[6] == t[6] && run[7] == t[7] && run[8] == t[8] && run[9] == t[9] && run[10] == t[10] && run[11] == t[11];
  }

  /** Three messages are added, and the handler takes them one by one. */
  lemma TornRunHandlesThree(m: Message, run: seq<Event>)
    requires |run| >= 12 && run[..12] == TornRun(m)
    ensures At(run, 7, 3, 3, Following) && forall k: nat | k <= 7 :: WaitingCount(After(run, k)) <= 3
  {
    TornEvents(m, run);
    hide TornRun;
    assert At(run, 0, 0, 0, Asleep);
    assert At(run, 1, 0, 1, Asleep);
    assert At(run, 2, 0, 2, Asleep);
    assert At(run, 3, 0, 3, Asleep);
    assert At(run, 4, 0, 3, Following);
    assert At(run, 5, 1, 3, Following);
    assert At(run, 6, 2, 3, Following);
    assert At(run, 7, 3, 3, Following);
    hide After, Step;
    forall k: nat | k <= 7 ensures WaitingCount(After(run, k)) <= 3 {
      assert k == 0 || k == 1 || k == 2 || k == 3 || k == 4 || k == 5 || k == 6 || k == 7;
    }
  }

  /** It falls asleep, a fourth is added, and it wakes up and takes that one before the fold. */
  lemma TornRunOvertakes(m: Message, run: seq<Event>)
    requires |run| >= 12 && run[..12] == TornRun(m) && At(run, 7, 3, 3, Following)
    ensures At(run, 10, 3, 4, Following) && At(run, 12, 4, 0, Following)
    ensures forall k: nat | 7 <= k <= 10 :: WaitingCount(After(run, k)) <= 1
  {
    TornEvents(m, run);
    hide TornRun;
    assert At(run, 8, 3, 3, Asleep);
    assert At(run, 9, 3, 4, Asleep);
    assert At(run, 10, 3, 4, Following);
    assert At(run, 11, 4, 4, Following);
    assert At(run, 12, 4, 0, Following);
    hide After, Step;
    forall k: nat | 7 <= k <= 10 ensures WaitingCount(After(run, k)) <= 1 {
      assert k == 7 || k == 8 || k == 9 || k == 10;
    }
  }

  /** From the start, with never more than three messages waiting, the read index comes to stand at 4
      and the write index at 0. */
  lemma TornAddSticks(m: Message, run: seq<Event>)
    requires |run| >= 12 && run[..12] == TornRun(m)
    ensures At(run, 12, MAX_DATA_COUNT, 0, Following)
    ensures forall k: nat | k <= 10 :: WaitingCount(After(run, k)) <= 3
    ensures Spoils(After(run, 10), run[10])
  {
    TornRunHandlesThree(m, run);
    TornRunOvertakes(m, run);
    TornEvents(m, run);
    hide After, TornRun;
  }

  /** From read index 4 on no step of any run handles a message, whatever is added. */
  lemma {:induction false} StuckForever(run: seq<Event>, j: nat, k: nat)
    requires j <= k <= |run| && After(run, j).read == MAX_DATA_COUNT
    ensures After(run, k).read == MAX_DATA_COUNT && After(run, k).log == After(run, j).log
  {
    if j < k { StuckForever(run, j, k - 1); }
  }
}
