/**
 The list of database connections, one per thread.  A call scans the list under the lock, and if it
 finds nothing opens a connection, allocates an entry and appends it under the lock again.  Threads
 interleave between these steps in any way; a thread makes one call at a time.
 */
module ConnectionRegistry {
  import opened Common

  type Thread = nat

  /** Connections are addresses; zero is the null pointer. */
  datatype Entry = Entry(thread: Thread, conn: nat)

  /** How far a thread has got in its current call. */
  datatype Phase = Idle | Opening | Allocating(conn: nat)

  /** What a call has returned. */
  datatype Answer = Answer(thread: Thread, conn: nat)

  datatype State = State(list: seq<Entry>, phases: map<Thread, Phase>, answers: seq<Answer>)

  datatype Event =
    | Scan(thread: Thread)
    | Open(thread: Thread, ok: bool, conn: nat)
    | Register(thread: Thread, entryOk: bool)

  const START := State([], map[], [])

  function PhaseOf(s: State, t: Thread): Phase {
    if t in s.phases then s.phases[t] else Idle
  }

  /** The connection of the thread's first entry that has one. */
  function Find(list: seq<Entry>, t: Thread): nat {
    if list == [] then 0
    else if list[0].thread == t && list[0].conn != 0 then list[0].conn
    else Find(list[1..], t)
  }

  /** The scan, which the caller does with the list locked. */
  method ScanList(list: seq<Entry>, current: Thread) returns (conn: nat, found: bool)
    ensures conn == Find(list, current) && (found <==> conn != 0)
  {
    conn, found := 0, false;
    var i := 0;
    while i < |list|
      invariant i <= |list| && conn == 0 && !found
      invariant Find(list[i..], current) == Find(list, current)
    {
      if list[i].thread == current {
        conn := list[i].conn;
        if conn != 0 {
          return conn, true;
        }
      }
      i := i + 1;
    }
  }

  function Finish(s: State, t: Thread, conn: nat): State {
    s.(phases := s.phases[t := Idle], answers := s.answers + [Answer(t, conn)])
  }

  /** One step of one thread; a step that the thread is not about to make changes nothing. */
  function Step(s: State, e: Event): State {
    match e
    case Scan(t) =>
      if PhaseOf(s, t) != Idle then s
      else
        var conn := Find(s.list, t);
        if conn != 0 then Finish(s, t, conn) else s.(phases := s.phases[t := Opening])
    case Open(t, ok, conn) =>
      if PhaseOf(s, t) != Opening then s
      else if !ok then Finish(s, t, 0)
      else s.(phases := s.phases[t := Allocating(conn)])
    case Register(t, entryOk) =>
      match PhaseOf(s, t)
      case Allocating(conn) =>
        if !entryOk || conn == 0 then Finish(s, t, 0)
        else Finish(s.(list := s.list + [Entry(t, conn)]), t, conn)
      case _ => s
  }

  function Run(s: State, events: seq<Event>): State {
    if events == [] then s else Step(Run(s, events[..|events| - 1]), events[|events| - 1])
  }

  /** No two entries of one thread, none without a connection, none of a thread that is about to add
      one; and what calls have returned is what is registered. */
  ghost predicate Consistent(s: State) {
    && (forall i, j | 0 <= i < j < |s.list| :: s.list[i].thread != s.list[j].thread)
    && (forall i | 0 <= i < |s.list| :: s.list[i].conn != 0 && PhaseOf(s, s.list[i].thread) == Idle)
    && (forall k | 0 <= k < |s.answers| && s.answers[k].conn != 0 ::
          Find(s.list, s.answers[k].thread) == s.answers[k].conn)
  }

  lemma {:induction false} FindOfEntry(list: seq<Entry>, i: nat)
    requires i < |list| && list[i].conn != 0
    requires forall i, j | 0 <= i < j < |list| :: list[i].thread != list[j].thread
    ensures Find(list, list[i].thread) == list[i].conn
  {
    if i > 0 { FindOfEntry(list[1..], i - 1); }
  }

  lemma {:induction false} FindFindsEntry(list: seq<Entry>, t: Thread)
    requires Find(list, t) != 0
    ensures Entry(t, Find(list, t)) in list
  {
    if !(list[0].thread == t && list[0].conn != 0) { FindFindsEntry(list[1..], t); }
  }

  /** Appending leaves what is found; a thread without entries finds the new one. */
  lemma {:induction false} FindAppended(list: seq<Entry>, e: Entry, t: Thread)
    ensures Find(list + [e], t) == if Find(list, t) != 0 then Find(list, t) else if e.thread == t then e.conn else 0
  {
    if list != [] {
      assert (list + [e])[1..] == list[1..] + [e];
      FindAppended(list[1..], e, t);
    }
  }

  lemma StepIsConsistent(s: State, e: Event)
    requires Consistent(s)
    ensures Consistent(Step(s, e))
  {
    var t := e.thread;
    var s' := Step(s, e);
    if s'.list != s.list {
      var entry := s'.list[|s.list|];
      assert s'.list == s.list + [entry];
      forall k | 0 <= k < |s.answers| && s.answers[k].conn != 0
        ensures Find(s'.list, s.answers[k].thread) == s.answers[k].conn
      {
        FindAppended(s.list, entry, s.answers[k].thread);
      }
      FindAppended(s.list, entry, t);
      if Find(s.list, t) != 0 { FindFindsEntry(s.list, t); }
    }
    forall i | 0 <= i < |s.list| ensures Find(s.list, s.list[i].thread) == s.list[i].conn { FindOfEntry(s.list, i); }
  }

  lemma {:induction false} RunIsConsistent(events: seq<Event>)
    ensures Consistent(Run(START, events))
  {
    if events != [] {
      RunIsConsistent(events[..|events| - 1]);
      StepIsConsistent(Run(START, events[..|events| - 1]), events[|events| - 1]);
    }
  }

  /** Main result: in every interleaving the list has at most one entry per thread, and all successful
      calls of a thread return the same connection, the registered one. */
  lemma OneConnectionPerThread(events: seq<Event>)
    ensures var s := Run(START, events);
            && (forall i, j | 0 <= i < j < |s.list| :: s.list[i].thread != s.list[j].thread)
            && (forall i, j | 0 <= i < j < |s.answers| && s.answers[i].thread == s.answers[j].thread
                  && s.answers[i].conn != 0 && s.answers[j].conn != 0 :: s.answers[i].conn == s.answers[j].conn)
  {
    RunIsConsistent(events);
  }

  lemma RegisteredStep(s: State, e: Event, t: Thread, conn: nat)
    requires Consistent(s) && conn != 0 && Find(s.list, t) == conn
    ensures Find(Step(s, e).list, t) == conn
    ensures var before, after := s.answers, Step(s, e).answers;
            && before <= after
            && forall k | |before| <= k < |after| && after[k].thread == t :: after[k].conn == conn
  {
    FindFindsEntry(s.list, t);
    var s' := Step(s, e);
    if s'.list != s.list {
      FindAppended(s.list, s'.list[|s.list|], t);
    }
  }

  /** Once a connection is registered, every later call of the thread returns it: none fails and none
      opens another. */
  lemma {:induction false} RegisteredForGood(s: State, events: seq<Event>, t: Thread, conn: nat)
    requires Consistent(s) && conn != 0 && Find(s.list, t) == conn
    ensures var s' := Run(s, events);
            && Consistent(s') && Find(s'.list, t) == conn && s.answers <= s'.answers
            && forall k | |s.answers| <= k < |s'.answers| && s'.answers[k].thread == t :: s'.answers[k].conn == conn
  {
    if events != [] {
      var n := |events| - 1;
      RegisteredForGood(s, events[..n], t, conn);
      StepIsConsistent(Run(s, events[..n]), events[n]);
      RegisteredStep(Run(s, events[..n]), events[n], t, conn);
    }
  }

  // ---------- each thread on its own ----------

  /** What the steps of thread t go by, and what its calls have returned. */
  datatype Own = Own(phase: Phase, registered: nat, answers: seq<nat>)

  function AnswersOf(answers: seq<Answer>, t: Thread): seq<nat> {
    if answers == [] then []
    else
      var last := answers[|answers| - 1];
      AnswersOf(answers[..|answers| - 1], t) + if last.thread == t then [last.conn] else []
  }

  function OwnOf(s: State, t: Thread): Own {
    Own(PhaseOf(s, t), Find(s.list, t), AnswersOf(s.answers, t))
  }

  /** The calls of one thread as it sees them: a registered connection is returned at once; otherwise one
      is opened, registered and returned, unless the opening or the entry fails or there is none. */
  function OwnStep(o: Own, e: Event): Own {
    match (o.phase, e)
    case (Idle, Scan(_)) =>
      if o.registered != 0 then o.(answers := o.answers + [o.registered]) else o.(phase := Opening)
    case (Opening, Open(_, ok, conn)) =>
      if ok then o.(phase := Allocating(conn)) else Own(Idle, o.registered, o.answers + [0])
    case (Allocating(conn), Register(_, entryOk)) =>
      var made := if entryOk then conn else 0;
      Own(Idle, if o.registered != 0 then o.registered else made, o.answers + [made])
    case _ => o
  }

  /** The steps of thread t. */
  function StepsOf(events: seq<Event>, t: Thread): seq<Event> {
    if events == [] then []
    else
      var last := events[|events| - 1];
      StepsOf(events[..|events| - 1], t) + if last.thread == t then [last] else []
  }

  function OwnRun(o: Own, events: seq<Event>): Own {
    if events == [] then o else OwnStep(OwnRun(o, events[..|events| - 1]), events[|events| - 1])
  }

  lemma OneMoreAnswer(answers: seq<Answer>, a: Answer, t: Thread)
    ensures AnswersOf(answers + [a], t) == AnswersOf(answers, t) + if a.thread == t then [a.conn] else []
  {
    assert (answers + [a])[..|answers|] == answers;
  }

  lemma StepIsOwn(s: State, e: Event, t: Thread)
    ensures OwnOf(Step(s, e), t) == if e.thread == t then OwnStep(OwnOf(s, t), e) else OwnOf(s, t)
  {
    hide Find, AnswersOf;
    forall a: Answer { OneMoreAnswer(s.answers, a, t); }
    forall x: Entry { FindAppended(s.list, x, t); }
    assert AnswersOf(s.answers, t) + [] == AnswersOf(s.answers, t);
  }

  /** No thread notices another: in every interleaving a thread's connection and the answers of its calls
      are those that its own steps give when they are taken alone. */
  lemma {:induction false} ThreadsAreIndependent(s: State, events: seq<Event>, t: Thread)
    ensures OwnOf(Run(s, events), t) == OwnRun(OwnOf(s, t), StepsOf(events, t))
  {
    hide Step, OwnStep, OwnOf;
    if events != [] {
      var n := |events| - 1;
      ThreadsAreIndependent(s, events[..n], t);
      StepIsOwn(Run(s, events[..n]), events[n], t);
      var own := StepsOf(events[..n], t);
      assert (own + [events[n]])[..|own|] == own && own + [] == own;
    }
  }

  /** The steps of one call. */
  function Call(t: Thread, ok: bool, conn: nat, entryOk: bool): seq<Event> {
    [Scan(t), Open(t, ok, conn), Register(t, entryOk)]
  }

  /** What a call returns and leaves registered. */
  function CallResult(registered: nat, ok: bool, conn: nat, entryOk: bool): nat {
    if registered != 0 then registered else if ok && entryOk then conn else 0
  }

  lemma OwnCall(o: Own, t: Thread, ok: bool, conn: nat, entryOk: bool)
    requires o.phase == Idle
    ensures var r := CallResult(o.registered, ok, conn, entryOk);
            OwnRun(o, Call(t, ok, conn, entryOk)) == Own(Idle, r, o.answers + [r])
  {
    var e := Call(t, ok, conn, entryOk);
    assert e[..2] == [Scan(t), Open(t, ok, conn)] && e[..2][..1] == [Scan(t)] && e[..1] == [Scan(t)];
    assert OwnRun(o, []) == o && e[..1][..0] == [];
    assert OwnRun(o, e[..1]) == OwnStep(o, Scan(t));
    assert OwnRun(o, e[..2]) == OwnStep(OwnStep(o, Scan(t)), Open(t, ok, conn));
  }

  /** Main result on success: a call of a thread, its steps interleaved with any steps of others, returns the
      registered connection if there is one, else the one it opens, which is then registered; it fails only
      if the opening or the entry fails or the connection is null. */
  lemma CallRegisters(s: State, events: seq<Event>, t: Thread, ok: bool, conn: nat, entryOk: bool)
    requires PhaseOf(s, t) == Idle && StepsOf(events, t) == Call(t, ok, conn, entryOk)
    ensures var s' := Run(s, events);
            var r := CallResult(Find(s.list, t), ok, conn, entryOk);
            && Find(s'.list, t) == r && PhaseOf(s', t) == Idle
            && AnswersOf(s'.answers, t) == AnswersOf(s.answers, t) + [r]
  {
    hide Find, AnswersOf, StepsOf, Run;
    ThreadsAreIndependent(s, events, t);
    OwnCall(OwnOf(s, t), t, ok, conn, entryOk);
  }

  /** The registry object, called by one thread at a time. */
  class Registry {
    var list: seq<Entry>

    constructor ()
      ensures list == []
    {
      list := [];
    }

    /** A whole call: `db` is what opening a connection gives, if it succeeds. */
    method GetDbConn(current: Thread, db: Option<nat>, entryOk: bool) returns (conn: nat)
      modifies this
      ensures conn == CallResult(old(Find(list, current)), db.Some?, if db.Some? then db.value else 0, entryOk)
      ensures Find(list, current) == conn
      ensures forall t: Thread | t != current :: Find(list, t) == old(Find(list, t))
      ensures list == old(list) || list == old(list) + [Entry(current, conn)]
    {
      var found;
      conn, found := ScanList(list, current);
      if found {
        return;
      }
      if db.None? {
        return 0;
      }
      if !entryOk {
        return 0;
      }
      conn := db.value;
      if conn != 0 {
        forall t: Thread { FindAppended(list, Entry(current, conn), t); }
        list := list + [Entry(current, conn)];
      }
    }
  }
}
