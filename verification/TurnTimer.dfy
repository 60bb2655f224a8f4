/**
 The life of an allocation's relay: its timer, the lifetime that replies announce, shutdown and
 destruction, over whole runs.
 */
module TurnTimer {
  import opened Common
  import opened TurnModel
  import opened TurnTables
  import opened TurnView
  import opened TurnRuns

  /** The heap holds the allocation's entry exactly while its timer is set; a shut-down allocation
      has no lifetime, socket or key; a destroyed one has no entry left.  The second that replies
      announce is that of the deadline. */
  ghost predicate RelayOk(s: Alloc) {
    && (s.relay.entry.Some? <==> s.relay.timer != NoTimer)
    && (s.alive <==> s.relay.timer != NoTimer)
    && (s.relay.timer == Timeout ==> s.relay.sock && s.relay.key && s.relay.expiry == s.relay.entry.value / 1000)
    && (s.relay.timer != Timeout ==> s.relay.lifetime == 0 && !s.relay.sock && !s.relay.key)
  }

  lemma StepRelayOk(s: Alloc, now: int, e: Event)
    requires WellFormed(s.tables) && RelayOk(s)
    ensures RelayOk(Step(s, now, e).0)
  {
  }

  lemma {:induction false} RunRelayOk(s: Alloc, run: Run, k: nat)
    requires WellFormed(s.tables) && RelayOk(s) && k <= |run|
    ensures RelayOk(After(s, run, k))
  {
    hide Step, RelayOk;
    if k > 0 {
      RunRelayOk(s, run, k - 1);
      StepRelayOk(After(s, run, k - 1), run[k - 1].now, run[k - 1].event);
    }
  }

  /** Events that may move the deadline of a relay that is in use. */
  predicate TouchesTimer(e: Event) {
    || (e.ClientRequest? && e.req.RefreshReq?) || e.RefreshResponse? || e.Shutdown? || e.DestroyNow?
  }

  lemma RefreshSetsDeadline(s: Alloc, now: int, asked: Option<nat>)
    requires WellFormed(s.tables) && s.alive && s.relay.lifetime != 0 && asked != Some(0)
    ensures var (s', outs) := Step(s, now, ClientRequest(RefreshReq(asked)));
            && s'.alive && s'.relay.timer == Timeout
            && s'.relay.lifetime == (if asked.Some? then asked.value else s.relay.lifetime)
            && s'.relay.entry == Some(now + 1000 * s'.relay.lifetime)
            && outs == [Reply(OK, Some(s'.relay.lifetime % 0x1_0000_0000))]
  {
  }

  /** A relay on which shutdown has begun: closed, with its destruction half a second away. */
  function Closing(r: Relay, now: int): Relay {
    Relay(0, Destroy, Some(now + DESTROY_DELAY), false, false, r.expiry)
  }

  /** From event j up to event k nothing moves the deadline, and no poll finds it reached. */
  ghost predicate Quiet(run: Run, j: nat, k: nat, deadline: int)
    requires j <= k <= |run|
  {
    forall i | j <= i < k :: !TouchesTimer(run[i].event) && (run[i].event.TimerPoll? ==> run[i].now < deadline)
  }

  /** The deadline is exact: until a poll finds it reached, the relay stays as it is; that poll closes
      it and schedules the destruction half a second later. */
  lemma {:induction false} RelayLivesToItsDeadline(s: Alloc, run: Run, j: nat, k: nat, deadline: int)
    requires WellFormed(s.tables) && RelayOk(s) && j <= k <= |run|
    requires After(s, run, j).relay.timer == Timeout && After(s, run, j).relay.entry == Some(deadline)
    requires Quiet(run, j, k, deadline)
    ensures After(s, run, k).alive && After(s, run, k).relay == After(s, run, j).relay
    ensures k < |run| && run[k].event.TimerPoll? && run[k].now >= deadline ==>
              After(s, run, k + 1).relay == Closing(After(s, run, j).relay, run[k].now)
  {
    hide Step;
    RunRelayOk(s, run, j);
    if j < k {
      RelayLivesToItsDeadline(s, run, j, k - 1, deadline);
      TimerStep(After(s, run, k - 1), run[k - 1].now, run[k - 1].event, deadline);
    }
    if k < |run| && run[k].event.TimerPoll? {
      TimerStep(After(s, run, k), run[k].now, run[k].event, deadline);
    }
  }

  lemma TimerStep(s: Alloc, now: int, e: Event, deadline: int)
    requires WellFormed(s.tables) && s.alive && s.relay.timer == Timeout && s.relay.entry == Some(deadline)
    requires !TouchesTimer(e)
    ensures var s' := Step(s, now, e).0;
            && s'.alive
            && s'.relay == if e.TimerPoll? && now >= deadline then Closing(s.relay, now) else s.relay
  {
  }

  lemma InUse(s: Alloc)
    requires RelayOk(s) && s.relay.timer == Timeout
    ensures s.relay.sock && s.relay.key
  {
  }

  /** A granted refresh announces the asked lifetime, or the one there was, unclamped, and the relay
      stays open for exactly that long: no poll before then touches it and the first one after closes
      it, unless another refresh or a shutdown comes in between. */
  lemma RefreshedRelayLivesItsLifetime(s: Alloc, now: int, asked: Option<nat>, lifetime: nat, run: Run, k: nat)
    requires WellFormed(s.tables) && RelayOk(s) && s.alive && s.relay.lifetime != 0 && asked != Some(0)
    requires lifetime == if asked.Some? then asked.value else s.relay.lifetime
    requires k <= |run| && Quiet(run, 0, k, now + 1000 * lifetime)
    ensures var (s', outs) := Step(s, now, ClientRequest(RefreshReq(asked)));
            && outs == [Reply(OK, Some(lifetime % 0x1_0000_0000))]
            && var after := After(s', run, k);
               && after.alive && after.relay.lifetime == lifetime && after.relay.sock && after.relay.key
               && (k < |run| && run[k].event.TimerPoll? && run[k].now >= now + 1000 * lifetime ==>
                     After(s', run, k + 1).relay == Closing(after.relay, run[k].now))
  {
    var e := ClientRequest(RefreshReq(asked));
    RefreshSetsDeadline(s, now, asked);
    StepRelayOk(s, now, e);
    var s' := Step(s, now, e).0;
    InUse(s');
    assert After(s', run, 0) == s';
    hide Step, After, RelayOk, Quiet;
    RelayLivesToItsDeadline(s', run, 0, k, now + 1000 * lifetime);
  }

  /** A shutdown, and a refresh that asks for no time at all, close the relay and schedule the destruction
      half a second ahead; an explicit destroy ends the allocation at once. */
  lemma ShutdownCloses(s: Alloc, now: int, e: Event)
    requires WellFormed(s.tables) && s.alive && s.relay.timer == Timeout && s.relay.lifetime != 0
    requires e == Shutdown || e == ClientRequest(RefreshReq(Some(0))) || e == DestroyNow
    ensures var (s', outs) := Step(s, now, e);
            && outs == (if e.ClientRequest? then [Reply(OK, Some(0))] else [])
            && if e == DestroyNow then !s'.alive && s'.relay == Relay(0, NoTimer, None, false, false, s.relay.expiry)
               else s'.alive && s'.relay == Relay(0, Destroy, Some(now + 500), false, false, s.relay.expiry)
  {
  }

  /** The application's answer to a refresh takes over the lifetime it names, and with its result data the
      deadline is set anew. */
  lemma ResponseSetsDeadline(s: Alloc, now: int, asked: Option<nat>, hasData: bool)
    requires WellFormed(s.tables) && RelayOk(s) && s.alive && s.relay.lifetime != 0
    ensures var (s', outs) := Step(s, now, RefreshResponse(asked, hasData));
            && outs == [] && s'.alive && s'.relay.timer == Timeout && s'.relay.sock && s'.relay.key
            && s'.relay.lifetime == (if asked.Some? then asked.value else s.relay.lifetime)
            && s'.relay.entry == if hasData then Some(now + 1000 * s'.relay.lifetime) else s.relay.entry
  {
  }

  /** A new allocation is open, with the lifetime it was granted, for exactly that long: no poll before then
      touches it, and the first one after closes it, unless a refresh or a shutdown comes in between. */
  lemma NewRelayLivesItsLifetime(start: int, lifetime: nat, run: Run, k: nat)
    requires k <= |run| && Quiet(run, 0, k, start + 1000 * lifetime)
    ensures var s, s' := Created(start, lifetime), After(Created(start, lifetime), run, k);
            && s'.alive && s'.relay.lifetime == lifetime && s'.relay.sock && s'.relay.key
            && (k < |run| && run[k].event.TimerPoll? && run[k].now >= start + 1000 * lifetime ==>
                  After(s, run, k + 1).relay == Closing(s'.relay, run[k].now))
  {
    var s := Created(start, lifetime);
    assert RelayOk(s) && After(s, run, 0) == s;
    hide Step, After, Quiet;
    RelayLivesToItsDeadline(s, run, 0, k, start + 1000 * lifetime);
  }

  /** Whole seconds of the clock from now to a deadline. */
  function SecondsLeft(deadline: int, now: int): int {
    deadline / 1000 - now / 1000
  }

  /** The LIFETIME in the answer to a CreatePermission is the time to the deadline, as a 32-bit number. */
  lemma AnnouncesTimeLeft(s: Alloc, now: int, peers: seq<Addr>)
    requires WellFormed(s.tables) && RelayOk(s) && s.relay.lifetime != 0 && peers != []
    ensures s.alive && s.relay.entry.Some?
    ensures Step(s, now, ClientRequest(CreatePermReq(peers))).1
         == [Reply(OK, Some(SecondsLeft(s.relay.entry.value, now) % 0x1_0000_0000))]
  {
    hide PermitAll;
  }

  lemma TimeLeftFits(now: int, deadline: int, lifetime: nat)
    requires now <= deadline <= now + 1000 * lifetime && lifetime < 0x1_0000_0000
    ensures SecondsLeft(deadline, now) % 0x1_0000_0000 == SecondsLeft(deadline, now) >= 0
  {
    assert 0 <= SecondsLeft(deadline, now) <= lifetime;
  }

  /** Until a new allocation's deadline each CreatePermission announces how long it still has. */
  lemma NewRelayAnnouncesTimeLeft(start: int, lifetime: nat, run: Run, k: nat, peers: seq<Addr>)
    requires 0 < lifetime < 0x1_0000_0000 && k < |run| && Quiet(run, 0, k, start + 1000 * lifetime)
    requires run[k].event == ClientRequest(CreatePermReq(peers)) && peers != []
    requires start <= run[k].now <= start + 1000 * lifetime
    ensures Sent(Created(start, lifetime), run, k)
         == [Reply(OK, Some(SecondsLeft(start + 1000 * lifetime, run[k].now)))]
  {
    var s := Created(start, lifetime);
    assert RelayOk(s) && After(s, run, 0) == s;
    TimeLeftFits(run[k].now, start + 1000 * lifetime, lifetime);
    hide Step, After, Quiet, SecondsLeft;
    RunRelayOk(s, run, k);
    RelayLivesToItsDeadline(s, run, 0, k, start + 1000 * lifetime);
    assert After(s, run, k).relay == s.relay;
    AnnouncesTimeLeft(After(s, run, k), run[k].now, peers);
  }

  /** A request that is malformed, unknown, or a bind that conflicts with another one. */
  ghost predicate IsBadRequest(t: Tables, now: int, req: Request)
    requires WellFormed(t)
  {
    match req
    case ChannelBindReq(Some(c), Some(peer)) =>
      if c == INVALID_CHANNEL then HasChannel(t, now, peer.ip) else BindRefused(View(t, now), c, peer)
    case ChannelBindReq(_, _) => true
    case CreatePermReq(peers) => peers == []
    case OtherReq => true
    case _ => false
  }

  /** Every request to an allocation gets one reply: 437 to anything after shutdown and to another ALLOCATE,
      400 to a bad request, and success to all others. */
  lemma RequestIsAnswered(s: Alloc, now: int, req: Request)
    requires Sound(s.tables) && s.alive
    ensures var outs := Step(s, now, ClientRequest(req)).1;
            && |outs| == 1 && outs[0].Reply?
            && outs[0].code == if s.relay.lifetime == 0 || req.AllocateReq? then 437
                               else if IsBadRequest(s.tables, now, req) then 400 else OK
  {
    hide Bind, BindRefused, PermitAll, HasChannel;
    match req
    case ChannelBindReq(Some(c), Some(peer)) =>
      BindView(s.tables, now, c, peer);
      if c == INVALID_CHANNEL { ReservedBindCode(s.tables, now, peer); }
    case _ =>
  }

  lemma ReservedBindCode(t: Tables, now: int, peer: Addr)
    requires Sound(t)
    ensures Bind(t, now, INVALID_CHANNEL, peer).1 == if HasChannel(t, now, peer.ip) then BAD_REQUEST else OK
  {
    if HasChannel(t, now, peer.ip) {
      LookupByAddrView(t, now, peer.ip);
    } else {
      BindReservedView(t, now, peer);
    }
  }

  /** Once shutdown has begun, a step leaves the relay alone, deadline included, or destroys the
      allocation: at or after the deadline, or on an explicit destroy. */
  lemma ShutdownStep(s: Alloc, now: int, e: Event)
    requires WellFormed(s.tables) && RelayOk(s) && s.relay.timer == Destroy
    ensures var s' := Step(s, now, e).0;
            if e == DestroyNow || (e == TimerPoll && s.relay.entry.value <= now)
            then !s'.alive && s'.relay.entry == None
            else s'.alive && s'.relay == s.relay
  {
  }

  lemma NothingRelayedAfterShutdown(s: Alloc, now: int, e: Event)
    requires WellFormed(s.tables) && RelayOk(s) && s.relay.timer != Timeout
    ensures Step(s, now, e).1 == if s.alive && e.ClientRequest? then [Reply(ALLOCATION_MISMATCH, None)] else []
  {
  }

  /** Shutdown is absorbing over whole runs: from the moment it begins the deadline stands until the
      allocation is destroyed, and a destroyed one stays so with no callback pending. */
  lemma {:induction false} ShutdownIsAbsorbing(s: Alloc, run: Run, j: nat, k: nat)
    requires WellFormed(s.tables) && RelayOk(s) && j <= k <= |run|
    requires After(s, run, j).relay.timer != Timeout
    ensures var s', s'' := After(s, run, j), After(s, run, k);
            if s''.alive then s'.alive && s''.relay == s'.relay
            else s''.relay.entry == None && s''.relay.timer == NoTimer
    ensures RelayOk(After(s, run, k))
  {
    hide Step;
    RunRelayOk(s, run, k);
    if j < k {
      ShutdownIsAbsorbing(s, run, j, k - 1);
      var s1 := After(s, run, k - 1);
      if s1.alive {
        ShutdownStep(s1, run[k - 1].now, run[k - 1].event);
      } else {
        DeadStaysDead(s1, run[k - 1].now, run[k - 1].event);
      }
    }
  }

  /** From then on nothing is relayed and every request is refused with 437. */
  lemma ShutdownRefusesEverything(s: Alloc, run: Run, j: nat, k: nat)
    requires WellFormed(s.tables) && RelayOk(s) && j <= k < |run|
    requires After(s, run, j).relay.timer != Timeout
    ensures Sent(s, run, k) == if After(s, run, k).alive && run[k].event.ClientRequest?
                               then [Reply(ALLOCATION_MISMATCH, None)] else []
  {
    hide Step;
    RunRelayOk(s, run, j);
    ShutdownIsAbsorbing(s, run, j, k);
    NothingRelayedAfterShutdown(After(s, run, k), run[k].now, run[k].event);
  }

  /** Destruction happens at most once. */
  lemma {:induction false} DestroyedAtMostOnce(s: Alloc, run: Run, j: nat, k: nat)
    requires WellFormed(s.tables) && j < k <= |run|
    requires After(s, run, j).alive && !After(s, run, j + 1).alive
    ensures !After(s, run, k).alive
  {
    hide Step;
    if j + 1 < k {
      DestroyedAtMostOnce(s, run, j, k - 1);
      DeadStaysDead(After(s, run, k - 1), run[k - 1].now, run[k - 1].event);
    }
  }
}
