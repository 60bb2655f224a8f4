/**
 Properties of whole runs of an allocation: any sequence of events at nondecreasing times.
 */
module TurnRuns {
  import opened Common
  import opened TurnModel
  import opened TurnTables
  import opened TurnView

  datatype Stamped = At(now: int, event: Event)

  type Run = seq<Stamped>

  ghost predicate Chronological(run: Run, start: int) {
    && (forall k | 0 <= k < |run| :: start <= run[k].now)
    && (forall j, k | 0 <= j <= k < |run| :: run[j].now <= run[k].now)
  }

  /** The state after the first k events of the run. */
  function After(s: Alloc, run: Run, k: nat): (r: Alloc)
    requires WellFormed(s.tables) && k <= |run|
    ensures WellFormed(r.tables)
  {
    if k == 0 then s else Step(After(s, run, k - 1), run[k - 1].now, run[k - 1].event).0
  }

  /** What the allocation sends on the k-th event of the run. */
  function Sent(s: Alloc, run: Run, k: nat): seq<Output>
    requires WellFormed(s.tables) && k < |run|
  {
    Step(After(s, run, k), run[k].now, run[k].event).1
  }

  /** Event j of the run is a ChannelBind for the reserved number that the server grants. */
  ghost predicate GrantsAt(s: Alloc, run: Run, j: nat)
    requires WellFormed(s.tables) && j < |run|
  {
    GrantsReserved(After(s, run, j), run[j].now, run[j].event)
  }

  /** None of the first k events is. */
  ghost predicate Clean(s: Alloc, run: Run, k: nat)
    requires WellFormed(s.tables) && k <= |run|
  {
    forall j | 0 <= j < k :: !GrantsAt(s, run, j)
  }

  /** If the run is not clean, the first such event follows a clean run. */
  lemma {:induction false} FirstGrant(s: Alloc, run: Run, k: nat) returns (j: nat)
    requires WellFormed(s.tables) && k <= |run| && !Clean(s, run, k)
    ensures j < k && Clean(s, run, j) && GrantsAt(s, run, j)
  {
    hide GrantsAt;
    if Clean(s, run, k - 1) {
      j := k - 1;
    } else {
      j := FirstGrant(s, run, k - 1);
    }
  }

  function Clock(run: Run, start: int, k: nat): int
    requires k <= |run|
  {
    if k == 0 then start else run[k - 1].now
  }

  ghost function SimpleAfter(a: Simple, run: Run, k: nat): Simple
    requires k <= |run|
  {
    if k == 0 then a else SimpleStep(SimpleAfter(a, run, k - 1), run[k - 1].now, run[k - 1].event).0
  }

  // ---------- agreement and refinement along runs ----------

  lemma {:induction false} RunStaysSound(s: Alloc, run: Run, k: nat)
    requires Sound(s.tables) && k <= |run| && Clean(s, run, k)
    ensures Sound(After(s, run, k).tables)
  {
    assert WellFormed(s.tables);
    hide Step, GrantsReserved, Agree;
    if k > 0 {
      RunStaysSound(s, run, k - 1);
      assert !GrantsAt(s, run, k - 1);
      StepAgrees(After(s, run, k - 1), run[k - 1].now, run[k - 1].event);
    }
  }

  /** At every moment of the run the tables agree, and would agree after any one event that came next. */
  ghost predicate AlwaysInAgreement(s: Alloc, start: int, run: Run)
    requires WellFormed(s.tables)
  {
    forall k | 0 <= k <= |run| :: StayInAgreement(After(s, run, k), Clock(run, start, k))
  }

  /** The tables stay in agreement throughout a run exactly when no event of it is a ChannelBind that the
      server grants for the reserved number. */
  lemma RunAgreesExactly(s: Alloc, start: int, run: Run)
    requires Sound(s.tables)
    ensures AlwaysInAgreement(s, start, run) <==> Clean(s, run, |run|)
  {
    assert WellFormed(s.tables);
    hide Step, GrantsReserved, StayInAgreement, Agree;
    if Clean(s, run, |run|) {
      forall k | 0 <= k <= |run| ensures StayInAgreement(After(s, run, k), Clock(run, start, k)) {
        RunStaysSound(s, run, k);
        SoundTablesStayInAgreement(After(s, run, k), Clock(run, start, k));
      }
    } else {
      var j := FirstGrant(s, run, |run|);
      RunStaysSound(s, run, j);
      ReservedGrantBreaksLater(After(s, run, j), run[j].now, run[j].event);
      assert !StayInAgreement(After(s, run, j + 1), Clock(run, start, j + 1));
    }
  }

  lemma EventRefines(s: Alloc, start: int, run: Run, k: nat, a: Simple)
    requires WellFormed(s.tables) && k < |run| && Sound(After(s, run, k).tables)
    requires Clock(run, start, k) <= run[k].now && a == Abstract(After(s, run, k), Clock(run, start, k))
    ensures (Abstract(After(s, run, k + 1), run[k].now), Sent(s, run, k)) == SimpleStep(a, run[k].now, run[k].event)
            <==> !GrantsAt(s, run, k)
  {
    hide Step, SimpleStep, Abstract, GrantsReserved;
    StepRefines(After(s, run, k), Clock(run, start, k), run[k].now, run[k].event);
  }

  /** After the first k events of a run without such a grant the state is the simple machine's. */
  lemma {:induction false} RunRefines(s: Alloc, start: int, run: Run, k: nat)
    requires Sound(s.tables) && k <= |run| && Clean(s, run, k) && Chronological(run, start)
    ensures Abstract(After(s, run, k), Clock(run, start, k)) == SimpleAfter(Abstract(s, start), run, k)
  {
    assert WellFormed(s.tables);
    hide Step, SimpleStep, Abstract, GrantsAt, Agree;
    if k > 0 {
      RunStaysSound(s, run, k - 1);
      RunRefines(s, start, run, k - 1);
      assert !GrantsAt(s, run, k - 1) && Clock(run, start, k - 1) <= run[k - 1].now;
      hide After, Clean, Chronological;
      EventRefines(s, start, run, k - 1, SimpleAfter(Abstract(s, start), run, k - 1));
    }
  }

  /** What the simple machine sends on the k-th event of the run. */
  ghost function SimpleSent(a: Simple, run: Run, k: nat): seq<Output>
    requires k < |run|
  {
    SimpleStep(SimpleAfter(a, run, k), run[k].now, run[k].event).1
  }

  /** The allocation and the simple machine are indistinguishable throughout the run. */
  ghost predicate SameRun(s: Alloc, start: int, run: Run)
    requires WellFormed(s.tables)
  {
    && (forall k | 0 <= k <= |run| ::
          Abstract(After(s, run, k), Clock(run, start, k)) == SimpleAfter(Abstract(s, start), run, k))
    && (forall k | 0 <= k < |run| :: Sent(s, run, k) == SimpleSent(Abstract(s, start), run, k))
  }

  /** Over whole runs: every state and everything sent is the simple machine's, exactly when no event is
      such a grant. */
  lemma RunRefinesExactly(s: Alloc, start: int, run: Run)
    requires Sound(s.tables) && Chronological(run, start)
    ensures SameRun(s, start, run) <==> Clean(s, run, |run|)
  {
    assert WellFormed(s.tables);
    hide Step, SimpleStep, Abstract, GrantsAt, Agree;
    var a := Abstract(s, start);
    if Clean(s, run, |run|) {
      forall k | 0 <= k <= |run|
        ensures Abstract(After(s, run, k), Clock(run, start, k)) == SimpleAfter(a, run, k)
      {
        RunRefines(s, start, run, k);
      }
      hide After, SimpleAfter;
      forall k | 0 <= k < |run| ensures Sent(s, run, k) == SimpleSent(a, run, k) {
        RunStaysSound(s, run, k);
        EventRefines(s, start, run, k, SimpleAfter(a, run, k));
      }
    } else {
      var j := FirstGrant(s, run, |run|);
      RunStaysSound(s, run, j);
      RunRefines(s, start, run, j);
      EventRefines(s, start, run, j, SimpleAfter(a, run, j));
      assert SimpleAfter(a, run, j + 1) == SimpleStep(SimpleAfter(a, run, j), run[j].now, run[j].event).0;
      hide After, SimpleAfter;
    }
  }

  // ---------- history: what a relayed datagram owes to an earlier client step ----------

  /** The client event e names the peer IP: by its address, or by a channel number that leads to it. */
  ghost predicate Names(t: Tables, e: Event, ip: nat)
    requires WellFormed(t)
  {
    match e
    case ClientRequest(ChannelBindReq(_, Some(peer))) => peer.ip == ip
    case ClientRequest(CreatePermReq(peers)) => exists p <- peers :: p.ip == ip
    case SendIndication(Some(peer), _) => peer.ip == ip
    case ChannelData(c, _, _) => c in t.channels && t.pool[t.channels[c]].addr.ip == ip
    case _ => false
  }

  /** ... and leaves permission i, which is that IP's, its full time from now. */
  ghost predicate Refreshes(s: Alloc, now: int, e: Event, i: nat)
    requires WellFormed(s.tables)
  {
    var pool := Step(s, now, e).0.tables.pool;
    i < |pool| && Names(s.tables, e, pool[i].addr.ip) && FullTime(pool[i], now)
  }

  predicate FullTime(p: Permission, now: int) {
    p.expiry == now + Duration(p.channel)
  }

  /** Permission p is as the pool had it, or is that of one of the peers and has just got its full time. */
  ghost predicate OldOrPermitted(pool: seq<Permission>, now: int, peers: seq<Addr>, i: nat, p: Permission) {
    (i < |pool| && p == pool[i]) || ((exists q <- peers :: q.ip == p.addr.ip) && FullTime(p, now))
  }

  /** From t to t' only permissions of these peers are touched, and the peer table gains only new ones. */
  ghost predicate Permits(t: Tables, now: int, peers: seq<Addr>, t': Tables) {
    && |t.pool| <= |t'.pool|
    && (forall i | 0 <= i < |t'.pool| :: OldOrPermitted(t.pool, now, peers, i, t'.pool[i]))
    && OldOrNewEntries(t, t')
  }

  ghost predicate OldOrNewEntries(t: Tables, t': Tables) {
    forall ip <- t'.peers :: (ip in t.peers && t'.peers[ip] == t.peers[ip]) || t'.peers[ip] >= |t.pool|
  }

  lemma PermitGrants(t: Tables, now: int, peer: Addr)
    requires Keyed(t)
    ensures Keyed(Permit(t, now, peer)) && Permits(t, now, [peer], Permit(t, now, peer))
  {
    assert peer in [peer];
  }

  lemma PermitsCompose(t: Tables, t1: Tables, t2: Tables, now: int, some: seq<Addr>, more: seq<Addr>, peers: seq<Addr>)
    requires Permits(t, now, some, t1) && Permits(t1, now, more, t2)
    requires (forall q <- some :: q in peers) && (forall q <- more :: q in peers)
    ensures Permits(t, now, peers, t2)
  {
    forall i | 0 <= i < |t2.pool| ensures OldOrPermitted(t.pool, now, peers, i, t2.pool[i]) {
      assert OldOrPermitted(t1.pool, now, more, i, t2.pool[i]);
      if i < |t1.pool| { assert OldOrPermitted(t.pool, now, some, i, t1.pool[i]); }
    }
  }

  lemma {:induction false} PermitAllGrants(t: Tables, now: int, peers: seq<Addr>)
    requires Keyed(t)
    ensures Keyed(PermitAll(t, now, peers)) && Permits(t, now, peers, PermitAll(t, now, peers))
    decreases |peers|
  {
    if peers != [] {
      PermitGrants(t, now, peers[0]);
      hide Permit, Permits;
      PermitAllGrants(Permit(t, now, peers[0]), now, peers[1..]);
      PermitsCompose(t, Permit(t, now, peers[0]), PermitAll(t, now, peers), now, [peers[0]], peers[1..], peers);
    }
  }

  lemma AssignGrants(t: Tables, now: int, c: Channel, peer: Addr)
    requires Keyed(t) && peer.ip in t.peers
    ensures var t' := Refresh(AssignChannel(t, t.peers[peer.ip], c), now, t.peers[peer.ip]);
            Keyed(t') && Permits(t, now, [peer], t')
  {
    assert peer in [peer];
  }

  /** Looking the peer up, and creating its permission if there is none. */
  lemma FindOrCreateGrants(t: Tables, now: int, peer: Addr)
    requires Keyed(t)
    ensures var (t1, found) := LookupByAddr(t, now, peer.ip);
            var t2 := if found.None? then Create(t1, now, peer) else t1;
            Keyed(t2) && Permits(t, now, [peer], t2)
  {
    assert peer in [peer];
  }

  lemma BindFreeGrants(t: Tables, now: int, c: Channel, peer: Addr)
    requires Keyed(t)
    ensures Keyed(BindFree(t, now, c, peer).0) && Permits(t, now, [peer], BindFree(t, now, c, peer).0)
  {
    hide Refresh, Permits;
    FindOrCreateGrants(t, now, peer);
    var (t1, byAddr) := LookupByAddr(t, now, peer.ip);
    var t2 := if byAddr.None? then Create(t1, now, peer) else t1;
    AssignGrants(t2, now, c, peer);
    PermitsCompose(t, t2, Refresh(AssignChannel(t2, t2.peers[peer.ip], c), now, t2.peers[peer.ip]),
                   now, [peer], [peer], [peer]);
  }

  lemma BindGrants(t: Tables, now: int, c: Channel, peer: Addr)
    requires Keyed(t)
    ensures Keyed(Bind(t, now, c, peer).0) && Permits(t, now, [peer], Bind(t, now, c, peer).0)
  {
    hide BindFree;
    assert peer in [peer];
    BindFreeGrants(LookupByChannel(t, now, c).0, now, c, peer);
  }

  /** Every permission is untouched by the step, or a client event has just refreshed it; and the peer
      table gains only new permissions. */
  ghost predicate StepGrantsAt(s: Alloc, now: int, e: Event) {
    && Keyed(s.tables)
    && var t, t' := s.tables, Step(s, now, e).0.tables;
       && Keyed(t') && |t.pool| <= |t'.pool| && OldOrNewEntries(t, t')
       && forall i | 0 <= i < |t'.pool| :: Refreshes(s, now, e, i) || (i < |t.pool| && t'.pool[i] == t.pool[i])
  }

  lemma PermitsGrants(s: Alloc, now: int, e: Event, peers: seq<Addr>)
    requires Keyed(s.tables) && Keyed(Step(s, now, e).0.tables)
    requires Permits(s.tables, now, peers, Step(s, now, e).0.tables)
    requires forall q <- peers :: Names(s.tables, e, q.ip)
    ensures StepGrantsAt(s, now, e)
  {
    hide Step;
    var t, t' := s.tables, Step(s, now, e).0.tables;
    forall i | 0 <= i < |t'.pool| ensures Refreshes(s, now, e, i) || (i < |t.pool| && t'.pool[i] == t.pool[i]) {
      assert OldOrPermitted(t.pool, now, peers, i, t'.pool[i]);
    }
  }

  lemma PacketGrants(s: Alloc, now: int, e: Event)
    requires Keyed(s.tables) && (e.ChannelData? || e.PeerPacket?)
    ensures StepGrantsAt(s, now, e)
  {
    hide OnRequest;
  }

  /** This holds of every event, whatever has become of the channel table. */
  lemma StepGrants(s: Alloc, now: int, e: Event)
    requires Keyed(s.tables)
    ensures StepGrantsAt(s, now, e)
  {
    hide Bind, Permit, PermitAll, OnChannelData, OnPeerPacket;
    match e
    case ClientRequest(ChannelBindReq(Some(c), Some(peer))) =>
      BindGrants(s.tables, now, c, peer);
      if s.alive && s.relay.lifetime != 0 { PermitsGrants(s, now, e, [peer]); }
    case ClientRequest(CreatePermReq(peers)) =>
      PermitAllGrants(s.tables, now, peers);
      if s.alive && s.relay.lifetime != 0 { PermitsGrants(s, now, e, peers); }
    case SendIndication(Some(p), _) =>
      PermitGrants(s.tables, now, p);
      if s.alive { PermitsGrants(s, now, e, [p]); }
    case ChannelData(_, _, _) | PeerPacket(_, _) => PacketGrants(s, now, e);
    case _ =>
  }

  // ---------- the same over whole runs ----------

  /** Permission i, as it is after k events, was left so by event j, which refreshed it. */
  ghost predicate LeftBy(s: Alloc, run: Run, k: nat, i: nat, j: nat)
    requires WellFormed(s.tables) && k <= |run|
  {
    && j < k && i < |After(s, run, k).tables.pool|
    && Refreshes(After(s, run, j), run[j].now, run[j].event, i)
    && After(s, run, j + 1).tables.pool[i] == After(s, run, k).tables.pool[i]
  }

  lemma EventGrants(s: Alloc, run: Run, k: nat)
    requires WellFormed(s.tables) && k < |run| && Keyed(After(s, run, k).tables)
    ensures StepGrantsAt(After(s, run, k), run[k].now, run[k].event)
    ensures After(s, run, k + 1) == Step(After(s, run, k), run[k].now, run[k].event).0
  {
    hide Step, StepGrantsAt;
    StepGrants(After(s, run, k), run[k].now, run[k].event);
  }

  lemma {:induction false} PoolGrows(s: Alloc, run: Run, j: nat, k: nat)
    requires Keyed(s.tables) && j <= k <= |run|
    ensures Keyed(After(s, run, k).tables)
    ensures |After(s, run, j).tables.pool| <= |After(s, run, k).tables.pool|
  {
    hide Step, Refreshes;
    if k > 0 {
      PoolGrows(s, run, if j < k then j else k - 1, k - 1);
      EventGrants(s, run, k - 1);
    }
  }

  /** In every run, bound reserved numbers included, every permission is as an earlier client event that
      named its IP has left it, with its full time from that event. */
  lemma {:induction false} PermissionHistory(s: Alloc, run: Run, k: nat, i: nat)
    requires Keyed(s.tables) && s.tables.pool == [] && k <= |run| && i < |After(s, run, k).tables.pool|
    ensures exists j: nat :: LeftBy(s, run, k, i, j)
  {
    assert WellFormed(s.tables);
    hide Step, Refreshes, Keyed;
    if k > 0 {
      PoolGrows(s, run, k - 1, k - 1);
      EventGrants(s, run, k - 1);
      var s1 := After(s, run, k - 1);
      if Refreshes(s1, run[k - 1].now, run[k - 1].event, i) {
        assert LeftBy(s, run, k, i, k - 1);
      } else {
        PermissionHistory(s, run, k - 1, i);
        var j: nat :| LeftBy(s, run, k - 1, i, j);
        assert LeftBy(s, run, k, i, j);
      }
    }
  }

  lemma LeftByIsOld(s: Alloc, run: Run, k: nat, i: nat, j: nat)
    requires WellFormed(s.tables) && k <= |run| && LeftBy(s, run, k, i, j)
    ensures j < k && i < |After(s, run, j + 1).tables.pool|
    ensures FullTime(After(s, run, k).tables.pool[i], run[j].now)
  {
    hide Step, Names, Duration;
  }

  lemma DeadStaysDead(s: Alloc, now: int, e: Event)
    requires WellFormed(s.tables) && !s.alive
    ensures !Step(s, now, e).0.alive
  {
  }

  lemma {:induction false} AliveBefore(s: Alloc, run: Run, j: nat, k: nat)
    requires WellFormed(s.tables) && j <= k <= |run| && After(s, run, k).alive
    ensures After(s, run, j).alive
  {
    hide Step;
    if j < k {
      if !After(s, run, k - 1).alive { DeadStaysDead(After(s, run, k - 1), run[k - 1].now, run[k - 1].event); }
      AliveBefore(s, run, j, k - 1);
    }
  }

  lemma RestoreForgetsPeers(s: Alloc, now: int)
    requires Keyed(s.tables) && s.alive
    ensures Step(s, now, Restore).0.tables.peers == map[]
  {
  }

  /** After a restore the peer table holds only permissions created since. */
  lemma {:induction false} RestoredPeersAreNew(s: Alloc, run: Run, r: nat, k: nat)
    requires Keyed(s.tables) && r < k <= |run| && run[r].event.Restore? && After(s, run, r).alive
    ensures var t := After(s, run, k).tables;
            forall ip <- t.peers :: t.peers[ip] >= |After(s, run, r).tables.pool|
  {
    hide Step, Refreshes;
    PoolGrows(s, run, r, k - 1);
    if r + 1 < k {
      RestoredPeersAreNew(s, run, r, k - 1);
      EventGrants(s, run, k - 1);
    } else {
      RestoreForgetsPeers(After(s, run, r), run[r].now);
    }
  }

  predicate NoRestore(run: Run, j: nat, k: nat)
    requires k <= |run|
  {
    forall r | j < r < k :: !run[r].event.Restore?
  }

  /** What the peer table holds was refreshed since the last restore. */
  lemma PeerEntryIsSinceRestore(s: Alloc, run: Run, k: nat, ip: nat)
    requires Keyed(s.tables) && k <= |run| && After(s, run, k).alive && ip in After(s, run, k).tables.peers
    ensures forall j: nat | LeftBy(s, run, k, After(s, run, k).tables.peers[ip], j) :: NoRestore(run, j, k)
  {
    hide Step, Refreshes;
    forall j: nat | LeftBy(s, run, k, After(s, run, k).tables.peers[ip], j) ensures NoRestore(run, j, k) {
      LeftByIsOld(s, run, k, After(s, run, k).tables.peers[ip], j);
      forall r | j < r < k ensures !run[r].event.Restore? { NoRestoreBetween(s, run, k, ip, j, r); }
    }
  }

  lemma NoRestoreBetween(s: Alloc, run: Run, k: nat, ip: nat, j: nat, r: nat)
    requires Keyed(s.tables) && j < r < k <= |run| && After(s, run, k).alive && ip in After(s, run, k).tables.peers
    requires After(s, run, k).tables.peers[ip] < |After(s, run, j + 1).tables.pool|
    ensures !run[r].event.Restore?
  {
    hide Step, After;
    if run[r].event.Restore? {
      AliveBefore(s, run, r, k);
      RestoredPeersAreNew(s, run, r, k);
      PoolGrows(s, run, j + 1, r);
      assert false;
    }
  }

  /** A client event refreshed a permission of the IP less than `age` before `now`, and it is as that
      event left it; the tables were not restored since, if that is asked for. */
  ghost predicate Justified(s: Alloc, run: Run, k: nat, now: int, ip: nat, age: int, sinceRestore: bool)
    requires WellFormed(s.tables) && k <= |run|
  {
    exists i: nat, j: nat :: LeftBy(s, run, k, i, j) && JustifiedBy(s, run, k, now, ip, age, sinceRestore, i, j)
  }

  ghost predicate JustifiedBy(s: Alloc, run: Run, k: nat, now: int, ip: nat, age: int, sinceRestore: bool,
                              i: nat, j: nat)
    requires WellFormed(s.tables) && k <= |run| && LeftBy(s, run, k, i, j)
  {
    && After(s, run, k).tables.pool[i].addr.ip == ip
    && now - run[j].now < age
    && (sinceRestore ==> NoRestore(run, j, k))
  }

  /** A live permission has such a history. */
  lemma LiveIsJustified(s: Alloc, run: Run, k: nat, now: int, i: nat, sinceRestore: bool)
    requires Keyed(s.tables) && s.tables.pool == [] && k <= |run| && i < |After(s, run, k).tables.pool|
    requires After(s, run, k).alive && After(s, run, k).tables.pool[i].expiry > now
    requires var t := After(s, run, k).tables;
             sinceRestore ==> t.pool[i].addr.ip in t.peers && t.peers[t.pool[i].addr.ip] == i
    ensures var p := After(s, run, k).tables.pool[i];
            Justified(s, run, k, now, p.addr.ip, Duration(p.channel), sinceRestore)
  {
    assert WellFormed(s.tables);
    hide After, Step, Names, Keyed, NoRestore, Duration;
    PermissionHistory(s, run, k, i);
    var j: nat :| LeftBy(s, run, k, i, j);
    if sinceRestore { PeerEntryIsSinceRestore(s, run, k, After(s, run, k).tables.pool[i].addr.ip); }
    LeftByIsOld(s, run, k, i, j);
    assert JustifiedBy(s, run, k, now, After(s, run, k).tables.pool[i].addr.ip,
                       Duration(After(s, run, k).tables.pool[i].channel), sinceRestore, i, j);
  }

  lemma RequestsOnlyReply(s: Alloc, now: int, req: Request)
    requires WellFormed(s.tables)
    ensures forall o <- Step(s, now, ClientRequest(req)).1 :: o.Reply?
  {
  }

  /** Table entry i is a permission that has not expired. */
  ghost predicate LiveAt(t: Tables, now: int, i: nat, channel: Channel) {
    i < |t.pool| && t.pool[i].expiry > now && t.pool[i].channel == channel
  }

  /** The entry of a table, if any, under which output o of event e is sent, and what o carries. */
  ghost predicate SentUnder(s: Alloc, now: int, e: Event, o: Output)
    requires WellFormed(s.tables)
  {
    var t := s.tables;
    match o
    case ToClientIndication(src, sent) =>
      e == PeerPacket(src, sent) && src.ip in t.peers && LiveAt(t, now, t.peers[src.ip], INVALID_CHANNEL)
    case ToClientChannel(c, sent) =>
      && e.PeerPacket? && e.payload == sent && c != INVALID_CHANNEL
      && e.src.ip in t.peers && LiveAt(t, now, t.peers[e.src.ip], c)
    case ToPeer(dst, sent) =>
      if e.ChannelData? then
        && e.length <= |e.body| && sent == e.body[..e.length] && e.channel in t.channels
        && t.pool[t.channels[e.channel]].expiry > now && t.pool[t.channels[e.channel]].addr == dst
      else
        && e == SendIndication(Some(dst), Some(sent))
        && var peers := Step(s, now, e).0.tables.peers;
           dst.ip in peers && Refreshes(s, now, e, peers[dst.ip])
    case Reply(_, _) => false
  }

  lemma StepSends(s: Alloc, now: int, e: Event, o: Output)
    requires Keyed(s.tables) && o in Step(s, now, e).1 && !o.Reply?
    ensures s.alive && SentUnder(s, now, e, o)
  {
    if e.ClientRequest? { RequestsOnlyReply(s, now, e.req); }
  }

  /** The client step that output o of the k-th event owes to, and what it carries. */
  ghost predicate RelayJustified(s: Alloc, run: Run, k: nat, o: Output)
    requires WellFormed(s.tables) && k < |run|
  {
    var now, e := run[k].now, run[k].event;
    match o
    case ToClientIndication(src, sent) =>
      e == PeerPacket(src, sent) && Justified(s, run, k, now, src.ip, PERM_TIMEOUT, true)
    case ToClientChannel(_, sent) =>
      e.PeerPacket? && e.payload == sent && Justified(s, run, k, now, e.src.ip, CHANNEL_TIMEOUT, true)
    case ToPeer(dst, sent) =>
      if e.ChannelData? then
        && e.length <= |e.body| && sent == e.body[..e.length]
        && Justified(s, run, k, now, dst.ip, CHANNEL_TIMEOUT, Clean(s, run, k))
      else SentUnder(After(s, run, k), now, e, o)
    case Reply(_, _) => false
  }

  lemma JustifiedLonger(s: Alloc, run: Run, k: nat, now: int, ip: nat, channel: Channel, sinceRestore: bool)
    requires WellFormed(s.tables) && k <= |run|
    requires Justified(s, run, k, now, ip, Duration(channel), sinceRestore)
    ensures Justified(s, run, k, now, ip, CHANNEL_TIMEOUT, sinceRestore)
  {
    hide LeftBy, NoRestore, After;
    var i: nat, j: nat :| LeftBy(s, run, k, i, j)
                          && JustifiedBy(s, run, k, now, ip, Duration(channel), sinceRestore, i, j);
    assert JustifiedBy(s, run, k, now, ip, CHANNEL_TIMEOUT, sinceRestore, i, j);
  }

  /** History safety, in every run.  A peer's packet reaches the client, unaltered, only if an earlier
      client event refreshed that IP's permission less than its duration ago and the tables have not been
      restored since.  ChannelData reaches a peer only after such an event too, and if no bind of the
      reserved number was granted, only without a restore since.  A Send indication relays only to the
      peer that it permits itself. */
  lemma RelayNeedsRefresh(start: int, lifetime: nat, run: Run, k: nat, o: Output)
    requires k < |run| && o in Sent(Created(start, lifetime), run, k) && !o.Reply?
    ensures RelayJustified(Created(start, lifetime), run, k, o)
  {
    var s0 := Created(start, lifetime);
    var s, now, e := After(s0, run, k), run[k].now, run[k].event;
    PoolGrows(s0, run, k, k);
    StepSends(s, now, e, o);
    if e.PeerPacket? {
      hide After, Step, Justified;
      assert s.tables.pool[s.tables.peers[e.src.ip]].addr.ip == e.src.ip;
      LiveIsJustified(s0, run, k, now, s.tables.peers[e.src.ip], true);
    } else if e.ChannelData? {
      hide After, Step, Justified, Sent;
      var p := s.tables.pool[s.tables.channels[e.channel]];
      if Clean(s0, run, k) {
        RunStaysSound(s0, run, k);
        assert ChannelEntryAgrees(s.tables, e.channel);
      }
      LiveIsJustified(s0, run, k, now, s.tables.channels[e.channel], Clean(s0, run, k));
      JustifiedLonger(s0, run, k, now, o.dst.ip, p.channel, Clean(s0, run, k));
    }
  }

  /** The converse: a packet reaches the client exactly when the relay is registered, the packet is not
      empty, its IP has a live permission, and it is not too long for that permission's channel. */
  lemma PermittedPacketIsRelayed(s: Alloc, now: int, src: Addr, payload: Data)
    requires WellFormed(s.tables)
    ensures Step(s, now, PeerPacket(src, payload)).1 != [] <==>
            && s.alive && s.relay.key && payload != [] && src.ip in View(s.tables, now)
            && (View(s.tables, now)[src.ip].channel != INVALID_CHANNEL ==> |payload| <= MAX_PKT_LEN)
  {
  }

  // ---------- what a permission is good for ----------

  /** The IP has a permission that lasts until `until`, under that address, bound to channel c if that is
      a channel. */
  ghost predicate Holds(g: Grants, ip: nat, until: int, addr: Addr, c: Channel) {
    && ip in g && g[ip].expiry >= until && g[ip].addr == addr
    && (c != INVALID_CHANNEL ==> g[ip].channel == c)
  }

  lemma AllowHolds(g: Grants, now: int, peer: Addr, ip: nat, until: int, addr: Addr, c: Channel)
    requires Holds(g, ip, until, addr, c) && until <= now + Duration(c)
    ensures Holds(Allow(g, now, peer), ip, until, addr, c)
  {
  }

  lemma {:induction false} AllowAllHolds(g: Grants, now: int, peers: seq<Addr>,
                                         ip: nat, until: int, addr: Addr, c: Channel)
    requires Holds(g, ip, until, addr, c) && until <= now + Duration(c)
    ensures Holds(AllowAll(g, now, peers), ip, until, addr, c)
    decreases |peers|
  {
    hide Allow, Holds;
    if peers != [] {
      AllowHolds(g, now, peers[0], ip, until, addr, c);
      AllowAllHolds(Allow(g, now, peers[0]), now, peers[1..], ip, until, addr, c);
    }
  }

  lemma SimpleStepHolds(a: Simple, now: int, e: Event, ip: nat, until: int, addr: Addr, c: Channel)
    requires Live(a.grants, now) == a.grants && !e.Restore?
    requires Holds(a.grants, ip, until, addr, c) && until <= now + Duration(c)
    ensures Holds(SimpleStep(a, now, e).0.grants, ip, until, addr, c)
  {
    match e
    case ClientRequest(CreatePermReq(peers)) => AllowAllHolds(a.grants, now, peers, ip, until, addr, c);
    case _ =>
  }

  lemma StepHolds(s: Alloc, now: int, e: Event, ip: nat, until: int, addr: Addr, c: Channel)
    requires Sound(s.tables) && !GrantsReserved(s, now, e) && !e.Restore?
    requires Holds(View(s.tables, now), ip, until, addr, c) && until <= now + Duration(c)
    ensures Holds(View(Step(s, now, e).0.tables, now), ip, until, addr, c)
  {
    assert WellFormed(s.tables) && Live(View(s.tables, now), now) == View(s.tables, now);
    hide Step, SimpleStep, GrantsReserved, Agree, Holds;
    StepRefines(s, now, now, e);
    SimpleStepHolds(Abstract(s, now), now, e, ip, until, addr, c);
  }

  lemma HoldsLater(t: Tables, before: int, now: int, ip: nat, until: int, addr: Addr, c: Channel)
    requires WellFormed(t) && before <= now < until && Holds(View(t, before), ip, until, addr, c)
    ensures Holds(View(t, now), ip, until, addr, c)
  {
  }

  lemma EventHolds(s: Alloc, run: Run, k: nat, now: int, ip: nat, until: int, addr: Addr, c: Channel)
    requires WellFormed(s.tables) && 0 < k <= |run| && Sound(After(s, run, k - 1).tables)
    requires !GrantsAt(s, run, k - 1) && !run[k - 1].event.Restore?
    requires Holds(View(After(s, run, k - 1).tables, run[k - 1].now), ip, until, addr, c)
    requires until <= run[k - 1].now + Duration(c) && run[k - 1].now <= now < until
    ensures Holds(View(After(s, run, k).tables, now), ip, until, addr, c)
  {
    hide Step, GrantsReserved, Agree, Holds, Duration, View;
    StepHolds(After(s, run, k - 1), run[k - 1].now, run[k - 1].event, ip, until, addr, c);
    HoldsLater(After(s, run, k).tables, run[k - 1].now, now, ip, until, addr, c);
  }

  /** From event j up to event k the tables are not restored, in a run of the kind in which they stay in
      agreement. */
  ghost predicate Undisturbed(s: Alloc, start: int, run: Run, j: nat, k: nat) {
    && Sound(s.tables) && Chronological(run, start)
    && j < k <= |run| && Clean(s, run, k) && NoRestore(run, j, k)
  }

  lemma UndisturbedBefore(s: Alloc, start: int, run: Run, j: nat, k: nat)
    requires Undisturbed(s, start, run, j, k)
    ensures WellFormed(s.tables) && j < k <= |run|
    ensures j + 1 < k ==> Undisturbed(s, start, run, j, k - 1)
    ensures j + 1 < k ==> run[j].now <= run[k - 2].now <= run[k - 1].now
    ensures j + 1 < k ==> Sound(After(s, run, k - 1).tables) && !GrantsAt(s, run, k - 1) && !run[k - 1].event.Restore?
  {
    hide GrantsAt, After, ChannelEntryAgrees, PeerEntryAgrees;
    if j + 1 < k { RunStaysSound(s, run, k - 1); }
  }

  /** A permission with its full time after event j is still there, with its address and its channel, at
      every moment of that time, unless the tables are restored. */
  lemma {:induction false} PermissionLasts(s: Alloc, start: int, run: Run, j: nat, k: nat, now: int,
                                           ip: nat, addr: Addr, c: Channel)
    requires WellFormed(s.tables) && j < k <= |run| && Undisturbed(s, start, run, j, k)
    requires Holds(View(After(s, run, j + 1).tables, run[j].now), ip, run[j].now + Duration(c), addr, c)
    requires run[k - 1].now <= now < run[j].now + Duration(c)
    ensures Holds(View(After(s, run, k).tables, now), ip, run[j].now + Duration(c), addr, c)
    decreases k
  {
    hide *;
    UndisturbedBefore(s, start, run, j, k);
    if j + 1 < k {
      PermissionLasts(s, start, run, j, k - 1, run[k - 1].now, ip, addr, c);
      EventHolds(s, run, k, now, ip, run[j].now + Duration(c), addr, c);
    } else {
      HoldsLater(After(s, run, k).tables, run[j].now, now, ip, run[j].now + Duration(c), addr, c);
    }
  }

  lemma {:induction false} AllowAllAllows(g: Grants, now: int, peers: seq<Addr>, peer: Addr)
    requires peer in peers
    ensures peer.ip in AllowAll(g, now, peers)
    ensures var g' := AllowAll(g, now, peers);
            Holds(g', peer.ip, now + PERM_TIMEOUT, g'[peer.ip].addr, INVALID_CHANNEL)
    decreases |peers|
  {
    var g1 := Allow(g, now, peers[0]);
    if peer == peers[0] {
      AllowAllHolds(g1, now, peers[1..], peer.ip, now + PERM_TIMEOUT, g1[peer.ip].addr, INVALID_CHANNEL);
    } else {
      AllowAllAllows(g1, now, peers[1..], peer);
    }
  }

  /** The client asks for a permission for this peer. */
  ghost predicate AsksFor(e: Event, peer: Addr) {
    || (e.ClientRequest? && e.req.CreatePermReq? && peer in e.req.peers)
    || (e.SendIndication? && e.peer == Some(peer))
  }

  /** A CreatePermission before shutdown, and a Send indication, leave each peer that they name a permission
      of five minutes at least. */
  lemma AskingPermits(s: Alloc, now: int, e: Event, peer: Addr)
    requires Sound(s.tables) && s.alive && AsksFor(e, peer) && (e.ClientRequest? ==> s.relay.lifetime != 0)
    ensures var g := View(Step(s, now, e).0.tables, now);
            peer.ip in g && Holds(g, peer.ip, now + PERM_TIMEOUT, g[peer.ip].addr, INVALID_CHANNEL)
  {
    StepRefines(s, now, now, e);
    assert Live(View(s.tables, now), now) == View(s.tables, now);
    hide Step;
    if e.ClientRequest? { AllowAllAllows(View(s.tables, now), now, e.req.peers, peer); }
  }

  /** Main result, the converse of RelayNeedsRefresh: for five minutes after the client has asked for a
      permission, packets from that IP reach it, whatever else happens, as long as the relay is open, the
      tables are not restored and no bind of the reserved number is granted. */
  lemma PermittedPeerReachesClient(s: Alloc, start: int, run: Run, j: nat, k: nat, peer: Addr)
    requires WellFormed(s.tables) && k < |run| && Undisturbed(s, start, run, j, k)
    requires AsksFor(run[j].event, peer) && (run[j].event.ClientRequest? ==> After(s, run, j).relay.lifetime != 0)
    requires After(s, run, k).alive && After(s, run, k).relay.key && run[k].now < run[j].now + PERM_TIMEOUT
    requires run[k].event.PeerPacket? && run[k].event.src.ip == peer.ip && 0 < |run[k].event.payload| <= MAX_PKT_LEN
    ensures Sent(s, run, k) != []
  {
    assert WellFormed(s.tables);
    AliveBefore(s, run, j, k);
    RunStaysSound(s, run, j);
    hide Step, Agree, GrantsReserved, AsksFor;
    AskingPermits(After(s, run, j), run[j].now, run[j].event, peer);
    var addr := View(After(s, run, j + 1).tables, run[j].now)[peer.ip].addr;
    PermissionLasts(s, start, run, j, k, run[k].now, peer.ip, addr, INVALID_CHANNEL);
    PermittedPacketIsRelayed(After(s, run, k), run[k].now, run[k].event.src, run[k].event.payload);
  }

  /** The two ways out to a peer, exactly.  A Send indication with data goes to the peer it names while the
      relay socket is open; */
  lemma IndicationIsRelayed(s: Alloc, now: int, peer: Option<Addr>, data: Option<Data>)
    requires WellFormed(s.tables)
    ensures Step(s, now, SendIndication(peer, data)).1
         == if s.alive && s.relay.sock && peer.Some? && data.Some? then [ToPeer(peer.value, data.value)] else []
  {
  }

  /** ... and ChannelData goes, cut to its length, to the address of the permission that holds the channel. */
  lemma ChannelDataIsRelayed(s: Alloc, now: int, c: Channel, length: nat, body: Data, ip: nat)
    requires Sound(s.tables) && s.alive && s.relay.sock && length <= |body| && c != INVALID_CHANNEL
    requires ip in View(s.tables, now) && View(s.tables, now)[ip].channel == c
    ensures Step(s, now, ChannelData(c, length, body)).1 == [ToPeer(View(s.tables, now)[ip].addr, body[..length])]
  {
    LookupByChannelView(s.tables, now, c);
    ViewChannelsDistinct(s.tables, now, ip, Holder(View(s.tables, now), c).value);
  }

  /** The address that a granted bind for this peer stands for: that of the permission that the peer's IP
      already has, whatever its port. */
  ghost function BoundAddress(g: Grants, peer: Addr): Addr {
    if peer.ip in g then g[peer.ip].addr else peer
  }

  lemma BindHolds(s: Alloc, now: int, c: Channel, peer: Addr)
    requires Sound(s.tables) && s.alive && c != INVALID_CHANNEL
    requires Step(s, now, ClientRequest(ChannelBindReq(Some(c), Some(peer)))).1 == [Reply(OK, None)]
    ensures var g := View(Step(s, now, ClientRequest(ChannelBindReq(Some(c), Some(peer)))).0.tables, now);
            Holds(g, peer.ip, now + CHANNEL_TIMEOUT, BoundAddress(View(s.tables, now), peer), c)
  {
    var e := ClientRequest(ChannelBindReq(Some(c), Some(peer)));
    StepRefines(s, now, now, e);
    assert Live(View(s.tables, now), now) == View(s.tables, now);
    hide Step;
  }

  /** For ten minutes after a granted ChannelBind the number stays the peer's, under the same conditions:
      ChannelData on it goes to the address that the bind stands for. */
  lemma BoundChannelReachesPeer(s: Alloc, start: int, run: Run, j: nat, k: nat, c: Channel, peer: Addr)
    requires WellFormed(s.tables) && k < |run| && Undisturbed(s, start, run, j, k)
    requires run[j].event == ClientRequest(ChannelBindReq(Some(c), Some(peer))) && c != INVALID_CHANNEL
    requires Sent(s, run, j) == [Reply(OK, None)]
    requires After(s, run, k).alive && After(s, run, k).relay.sock && run[k].now < run[j].now + CHANNEL_TIMEOUT
    requires run[k].event.ChannelData? && run[k].event.channel == c && run[k].event.length <= |run[k].event.body|
    ensures Sent(s, run, k) == [ToPeer(BoundAddress(View(After(s, run, j).tables, run[j].now), peer),
                                       run[k].event.body[..run[k].event.length])]
  {
    AliveBefore(s, run, j, k);
    RunStaysSound(s, run, j);
    RunStaysSound(s, run, k);
    hide Step, Agree, GrantsReserved;
    BindHolds(After(s, run, j), run[j].now, c, peer);
    var addr := BoundAddress(View(After(s, run, j).tables, run[j].now), peer);
    PermissionLasts(s, start, run, j, k, run[k].now, peer.ip, addr, c);
    ChannelDataIsRelayed(After(s, run, k), run[k].now, c, run[k].event.length, run[k].event.body, peer.ip);
  }

  /** So ChannelData goes to the port that was bound exactly if the peer's IP had no permission under another
      port.  A concrete case: a permission for one port, and a channel bound to another port of that IP. */
  lemma BindKeepsOldPort(now: int, lifetime: nat, ip: nat, port: nat, port': nat, c: Channel, length: nat, body: Data)
    requires lifetime > 0 && c != INVALID_CHANNEL && length <= |body|
    ensures var s1 := Step(Created(now, lifetime), now, ClientRequest(CreatePermReq([Addr(ip, port)]))).0;
            var (s2, outs) := Step(s1, now, ClientRequest(ChannelBindReq(Some(c), Some(Addr(ip, port')))));
            && outs == [Reply(OK, None)]
            && Step(s2, now, ChannelData(c, length, body)).1 == [ToPeer(Addr(ip, port), body[..length])]
  {
    var t: Tables := Tables([], map[], map[]);
    assert PermitAll(t, now, [Addr(ip, port)]) == Permit(t, now, Addr(ip, port));
  }

  // ---------- expiry never moves back ----------

  ghost predicate ExpiryBounded(t: Tables, now: int) {
    forall i | 0 <= i < |t.pool| :: t.pool[i].expiry <= now + Duration(t.pool[i].channel)
  }

  /** Every permission that was in the pool is still there, with the same address and an expiry
      that is not earlier. */
  ghost predicate Extends(t: Tables, t': Tables) {
    && |t.pool| <= |t'.pool|
    && forall i | 0 <= i < |t.pool| :: t'.pool[i].addr == t.pool[i].addr && t.pool[i].expiry <= t'.pool[i].expiry
  }

  lemma PermitExtends(t: Tables, now: int, peer: Addr)
    requires WellFormed(t) && ExpiryBounded(t, now)
    ensures Extends(t, Permit(t, now, peer)) && ExpiryBounded(Permit(t, now, peer), now)
  {
  }

  lemma {:induction false} PermitAllExtends(t: Tables, now: int, peers: seq<Addr>)
    requires WellFormed(t) && ExpiryBounded(t, now)
    ensures Extends(t, PermitAll(t, now, peers)) && ExpiryBounded(PermitAll(t, now, peers), now)
    decreases |peers|
  {
    if peers != [] {
      PermitExtends(t, now, peers[0]);
      PermitAllExtends(Permit(t, now, peers[0]), now, peers[1..]);
    }
  }

  lemma AssignExtends(t: Tables, now: int, i: nat, c: Channel)
    requires WellFormed(t) && ExpiryBounded(t, now) && i < |t.pool| && t.pool[i].channel == INVALID_CHANNEL
    ensures var t' := Refresh(AssignChannel(t, i, c), now, i);
            Extends(t, t') && ExpiryBounded(t', now)
  {
  }

  lemma BindExtends(t: Tables, now: int, c: Channel, peer: Addr)
    requires WellFormed(t) && ExpiryBounded(t, now)
    ensures Extends(t, Bind(t, now, c, peer).0) && ExpiryBounded(Bind(t, now, c, peer).0, now)
  {
    var (t1, byChannel) := LookupByChannel(t, now, c);
    var (t2, byAddr) := LookupByAddr(t1, now, peer.ip);
    if byChannel.None? && byAddr.None? {
      AssignExtends(Create(t2, now, peer), now, |t2.pool|, c);
    } else if byChannel.None? && t2.pool[byAddr.value].channel == INVALID_CHANNEL {
      AssignExtends(t2, now, byAddr.value, c);
    }
  }

  lemma StepExtends(s: Alloc, before: int, now: int, e: Event)
    requires WellFormed(s.tables) && before <= now && ExpiryBounded(s.tables, before)
    ensures var s' := Step(s, now, e).0;
            && Extends(s.tables, s'.tables) && ExpiryBounded(s'.tables, now)
            && (e.PeerPacket? ==> s'.tables.pool == s.tables.pool)
  {
    assert ExpiryBounded(s.tables, now);
    match e
    case ClientRequest(ChannelBindReq(Some(c), Some(peer))) => BindExtends(s.tables, now, c, peer);
    case ClientRequest(CreatePermReq(peers)) => PermitAllExtends(s.tables, now, peers);
    case SendIndication(Some(p), _) => PermitExtends(s.tables, now, p);
    case _ =>
  }

  /** Along any run, reserved channel numbers included, no permission's expiry ever moves back. */
  lemma {:induction false} ExpiryNeverMovesBack(start: int, lifetime: nat, run: Run, j: nat, k: nat)
    requires Chronological(run, start) && j <= k <= |run|
    ensures var s := Created(start, lifetime);
            && Extends(After(s, run, j).tables, After(s, run, k).tables)
            && ExpiryBounded(After(s, run, k).tables, Clock(run, start, k))
  {
    hide Step;
    var s := Created(start, lifetime);
    if k > 0 {
      ExpiryNeverMovesBack(start, lifetime, run, if j == k then j - 1 else j, k - 1);
      StepExtends(After(s, run, k - 1), Clock(run, start, k - 1), run[k - 1].now, run[k - 1].event);
    }
  }
}
