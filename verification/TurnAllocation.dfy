/**
 The allocation object itself: permissions are shared mutable objects, both hash tables point at
 them, and the timer heap is shared by all allocations of the server.  Every handler is proved
 against the transition functions of TurnModel.
 */
module TurnAllocation {
  import opened Common
  import opened TurnModel
  import opened TurnRuns
  import opened TurnTimer

  /** The server's timer heap: at most one deadline per allocation. */
  class TimerHeap {
    var deadlines: map<Allocation, int>

    constructor ()
      ensures deadlines == map[]
    {
      deadlines := map[];
    }

    method Schedule(a: Allocation, deadline: int)
      modifies this
      ensures deadlines == old(deadlines)[a := deadline]
    {
      deadlines := deadlines[a := deadline];
    }

    method Cancel(a: Allocation)
      modifies this
      ensures deadlines == old(deadlines) - {a}
    {
      deadlines := deadlines - {a};
    }
  }

  class PermissionEntry {
    const addr: Addr
    var channel: Channel
    var expiry: int

    constructor (addr: Addr, expiry: int)
      ensures this.addr == addr && channel == INVALID_CHANNEL && this.expiry == expiry
    {
      this.addr := addr;
      this.channel := INVALID_CHANNEL;
      this.expiry := expiry;
    }

    function Value(): Permission
      reads this
    {
      Permission(addr, channel, expiry)
    }
  }

  class Allocation {
    const heap: TimerHeap
    var peerTable: map<nat, PermissionEntry>
    var channelTable: map<Channel, PermissionEntry>
    var lifetime: nat
    var timerId: TimerId
    var sock: bool
    var key: bool
    var expiry: int
    var alive: bool
    ghost var pool: seq<PermissionEntry>
    ghost var tables: Tables

    ghost function RelayValue(): Relay
      reads this, heap
    {
      Relay(lifetime, timerId, if this in heap.deadlines then Some(heap.deadlines[this]) else None, sock, key, expiry)
    }

    ghost function Value(): Alloc
      reads this, heap
    {
      Alloc(tables, RelayValue(), alive)
    }

    /** The objects represent `tables`: a pointer of a table is an index into the pool. */
    ghost predicate Valid()
      reads this, pool
    {
      && WellFormed(tables)
      && |pool| == |tables.pool|
      && (forall i | 0 <= i < |pool| :: pool[i].Value() == tables.pool[i])
      && (forall i, j | 0 <= i < j < |pool| :: pool[i] != pool[j])
      && peerTable.Keys == tables.peers.Keys
      && (forall ip <- peerTable :: peerTable[ip] == pool[tables.peers[ip]])
      && channelTable.Keys == tables.channels.Keys
      && (forall c <- channelTable :: channelTable[c] == pool[tables.channels[c]])
    }

    /** The pool only grows, by new objects. */
    twostate predicate Grown(before: seq<PermissionEntry>)
      reads this
    {
      before <= pool && forall i | |before| <= i < |pool| :: fresh(pool[i])
    }

    /** The allocation as create_relay leaves it. */
    constructor (heap: TimerHeap, now: int, lifetime: nat)
      requires forall a: Allocation :: a in heap.deadlines ==> allocated(a)
      modifies heap
      ensures Valid() && pool == [] && this.heap == heap
      ensures Value() == Created(now, lifetime)
      ensures heap.deadlines - {this} == old(heap.deadlines)
    {
      this.heap := heap;
      peerTable, channelTable := map[], map[];
      this.lifetime, timerId, sock, key, alive, expiry := lifetime, NoTimer, true, true, true, 0;
      pool, tables := [], Tables([], map[], map[]);
      new;
      ReschedTimeout(now);
    }

    // ---------- permissions ----------

    method CreatePermission(now: int, peer: Addr) returns (perm: PermissionEntry)
      requires Valid()
      modifies this`peerTable, this`pool, this`tables
      ensures Valid() && fresh(perm) && pool == old(pool) + [perm] && |old(pool)| == |old(tables.pool)|
      ensures tables == Create(old(tables), now, peer)
    {
      perm := new PermissionEntry(peer, now + PERM_TIMEOUT);
      peerTable := peerTable[peer.ip := perm];
      pool := pool + [perm];
      tables := Create(tables, now, peer);
    }

    method CheckPermissionExpiry(now: int, perm: PermissionEntry, ghost i: nat) returns (r: PermissionEntry?)
      requires Valid() && i < |pool| && perm == pool[i]
      modifies this`peerTable, this`channelTable, this`tables
      ensures Valid()
      ensures (tables, if r == null then None else Some(i)) == CheckExpiry(old(tables), now, i)
      ensures r != null ==> r == perm
    {
      if perm.expiry > now {
        return perm;
      }
      peerTable := peerTable - {perm.addr.ip};
      if perm.channel != INVALID_CHANNEL {
        channelTable := channelTable - {perm.channel};
      }
      tables := CheckExpiry(tables, now, i).0;
      return null;
    }

    method LookupPermissionByAddr(now: int, ip: nat) returns (r: PermissionEntry?, ghost found: Option<nat>)
      requires Valid()
      modifies this`peerTable, this`channelTable, this`tables
      ensures Valid() && (tables, found) == LookupByAddr(old(tables), now, ip)
      ensures r == null <==> found.None?
      ensures found.Some? ==> found.value < |pool| && r == pool[found.value]
    {
      if ip !in peerTable {
        return null, None;
      }
      ghost var i := tables.peers[ip];
      r := CheckPermissionExpiry(now, peerTable[ip], i);
      found := if r == null then None else Some(i);
    }

    method LookupPermissionByChannel(now: int, c: Channel) returns (r: PermissionEntry?, ghost found: Option<nat>)
      requires Valid()
      modifies this`peerTable, this`channelTable, this`tables
      ensures Valid() && (tables, found) == LookupByChannel(old(tables), now, c)
      ensures r == null <==> found.None?
      ensures found.Some? ==> found.value < |pool| && r == pool[found.value]
    {
      if c !in channelTable {
        return null, None;
      }
      ghost var i := tables.channels[c];
      r := CheckPermissionExpiry(now, channelTable[c], i);
      found := if r == null then None else Some(i);
    }

    method RefreshPermission(now: int, perm: PermissionEntry, ghost i: nat)
      requires Valid() && i < |pool| && perm == pool[i]
      modifies perm`expiry, this`tables
      ensures Valid() && tables == Refresh(old(tables), now, i)
    {
      perm.expiry := now;
      if perm.channel == INVALID_CHANNEL {
        perm.expiry := perm.expiry + PERM_TIMEOUT;
      } else {
        perm.expiry := perm.expiry + CHANNEL_TIMEOUT;
      }
      tables := Refresh(tables, now, i);
    }

    /** Deletes the peer entries one by one, each under the address its permission records. */
    method RestorePeers()
      modifies this`peerTable
      ensures peerTable == old(peerTable) - (set ip | ip in old(peerTable) :: old(peerTable)[ip].addr.ip)
    {
      var all := peerTable;
      var todo := all.Keys;
      ghost var gone: set<nat> := {};
      while todo != {}
        invariant todo <= all.Keys
        invariant gone == set ip | ip in all.Keys - todo :: all[ip].addr.ip
        invariant peerTable == all - gone
      {
        var ip :| ip in todo;
        var perm := all[ip];
        peerTable := peerTable - {perm.addr.ip};
        todo := todo - {ip};
        gone := gone + {perm.addr.ip};
      }
      assert all.Keys - todo == all.Keys;
    }

    /** Deletes the channel entries one by one, each under the number its permission records. */
    method RestoreChannels()
      modifies this`channelTable
      ensures channelTable == old(channelTable) - (set c | c in old(channelTable) :: old(channelTable)[c].channel)
    {
      var all := channelTable;
      var todo := all.Keys;
      ghost var gone: set<Channel> := {};
      while todo != {}
        invariant todo <= all.Keys
        invariant gone == set c | c in all.Keys - todo :: all[c].channel
        invariant channelTable == all - gone
      {
        var c :| c in todo;
        var perm := all[c];
        channelTable := channelTable - {perm.channel};
        todo := todo - {c};
        gone := gone + {perm.channel};
      }
      assert all.Keys - todo == all.Keys;
    }

    method RestoreAllocation()
      requires Valid()
      modifies this`peerTable, this`channelTable, this`tables
      ensures Valid() && tables == RestoreTables(old(tables))
    {
      RestorePeers();
      RestoreChannels();
      assert forall ip <- tables.peers :: old(peerTable)[ip].addr.ip == tables.pool[tables.peers[ip]].addr.ip;
      assert forall c <- tables.channels :: old(channelTable)[c].channel == tables.pool[tables.channels[c]].channel;
      tables := RestoreTables(tables);
    }

    method PermitPeer(now: int, peer: Addr)
      requires Valid()
      modifies this`peerTable, this`channelTable, this`pool, this`tables, pool
      ensures Valid() && Grown(old(pool)) && tables == Permit(old(tables), now, peer)
    {
      hide Create, Refresh, LookupByAddr, Allocation.Valid;
      var perm, i := LookupPermissionByAddr(now, peer.ip);
      if perm == null {
        i := Some(|pool|);
        perm := CreatePermission(now, peer);
      }
      RefreshPermission(now, perm, i.value);
    }

    // ---------- relay and timer ----------

    method ReschedTimeout(now: int)
      requires timerId != Destroy
      modifies this`timerId, this`expiry, heap
      ensures RelayValue() == Reschedule(old(RelayValue()), now)
      ensures heap.deadlines - {this} == old(heap.deadlines) - {this}
    {
      expiry := now / 1000 + lifetime;
      if timerId != NoTimer {
        heap.Cancel(this);
        timerId := NoTimer;
      }
      timerId := Timeout;
      heap.Schedule(this, now + lifetime * 1000);
    }

    method CloseRelay()
      modifies this`lifetime, this`timerId, this`sock, this`key, heap
      ensures RelayValue() == DestroyRelay(old(RelayValue()))
      ensures heap.deadlines - {this} == old(heap.deadlines) - {this}
    {
      if timerId != NoTimer {
        heap.Cancel(this);
        timerId := NoTimer;
      }
      if key {
        key := false;
        sock := false;
      } else if sock {
        sock := false;
      }
      lifetime := 0;
    }

    method AllocShutdown(now: int)
      modifies this`lifetime, this`timerId, this`sock, this`key, heap
      ensures RelayValue() == ShutdownRelay(old(RelayValue()), now)
      ensures heap.deadlines - {this} == old(heap.deadlines) - {this}
    {
      if timerId == Timeout {
        heap.Cancel(this);
        timerId := NoTimer;
      } else if timerId == Destroy {
        return;
      }
      assert timerId == NoTimer;
      CloseRelay();
      timerId := Destroy;
      label scheduling:
      heap.Schedule(this, now + DESTROY_DELAY);
      assert heap.deadlines - {this} == old@scheduling(heap.deadlines) - {this};
    }

    method DestroyAllocation()
      modifies this`lifetime, this`timerId, this`sock, this`key, this`alive, heap
      ensures Value() == DestroyAlloc(old(Value()))
      ensures heap.deadlines - {this} == old(heap.deadlines) - {this}
    {
      CloseRelay();
      alive := false;
    }

    // ---------- messages ----------

    method AssignToPermission(now: int, perm: PermissionEntry, ghost i: nat, c: Channel)
      requires Valid() && i < |pool| && perm == pool[i]
      modifies perm, this`channelTable, this`tables
      ensures Valid() && tables == Refresh(AssignChannel(old(tables), i, c), now, i)
    {
      perm.channel := c;
      channelTable := channelTable[perm.channel := perm];
      tables := AssignChannel(tables, i, c);
      RefreshPermission(now, perm, i);
    }

    method BindFreeChannel(now: int, c: Channel, peer: Addr) returns (code: nat)
      requires Valid()
      modifies this`peerTable, this`channelTable, this`pool, this`tables, pool
      ensures Valid() && Grown(old(pool)) && (tables, code) == BindFree(old(tables), now, c, peer)
    {
      hide Create, Refresh, AssignChannel, LookupByAddr;
      var perm, i := LookupPermissionByAddr(now, peer.ip);
      if perm != null && perm.channel != INVALID_CHANNEL {
        return BAD_REQUEST;
      }
      if perm == null {
        i := Some(|pool|);
        perm := CreatePermission(now, peer);
      }
      AssignToPermission(now, perm, i.value, c);
      return OK;
    }

    method OnChannelBind(now: int, c: Channel, peer: Addr) returns (code: nat)
      requires Valid()
      modifies this`peerTable, this`channelTable, this`pool, this`tables, pool
      ensures Valid() && Grown(old(pool)) && (tables, code) == Bind(old(tables), now, c, peer)
    {
      hide Refresh, LookupByChannel, BindFree;
      var p1, i1 := LookupPermissionByChannel(now, c);
      if p1 != null {
        if p1.addr != peer {
          return BAD_REQUEST;
        }
        RefreshPermission(now, p1, i1.value);
        return OK;
      }
      code := BindFreeChannel(now, c, peer);
    }

    method OnCreatePermission(now: int, peers: seq<Addr>) returns (code: nat)
      requires Valid()
      modifies this`peerTable, this`channelTable, this`pool, this`tables, pool
      ensures Valid() && Grown(old(pool))
      ensures code == if peers == [] then BAD_REQUEST else OK
      ensures tables == if peers == [] then old(tables) else PermitAll(old(tables), now, peers)
    {
      hide Permit;
      var index := 0;
      while index < |peers|
        invariant index <= |peers| && Valid() && Grown(old(pool))
        invariant PermitAll(tables, now, peers[index..]) == PermitAll(old(tables), now, peers)
      {
        assert forall p <- pool :: p in old(pool) || fresh(p);
        PermitPeer(now, peers[index]);
        assert peers[index..][1..] == peers[index + 1..];
        index := index + 1;
      }
      return if peers == [] then BAD_REQUEST else OK;
    }

    /** The success reply to anything but a ChannelBind: it announces the time to expiration. */
    method SendReplyOk(now: int) returns (out: seq<Output>)
      ensures out == [Reply(OK, Some(LifetimeLeft(RelayValue(), now)))]
    {
      var interval := 0;
      if lifetime != 0 {
        interval := (expiry - now / 1000) % 0x1_0000_0000;
      }
      out := [Reply(OK, Some(interval))];
    }

    method OnRefresh(now: int, asked: Option<nat>) returns (out: seq<Output>)
      requires Valid() && lifetime != 0 && timerId != Destroy
      modifies this`lifetime, this`timerId, this`sock, this`key, this`expiry, heap
      ensures (Value(), out) == OnRequest(old(Value()), now, RefreshReq(asked))
      ensures heap.deadlines - {this} == old(heap.deadlines) - {this}
    {
      hide ShutdownRelay, Reschedule, WellFormed;
      if asked == Some(0) {
        lifetime := 0;
        out := SendReplyOk(now);
        AllocShutdown(now);
      } else {
        if asked.Some? {
          lifetime := asked.value;
        }
        ReschedTimeout(now);
        out := SendReplyOk(now);
      }
    }

    method OnRxRequest(now: int, req: Request) returns (out: seq<Output>)
      requires Valid() && (timerId == Destroy ==> lifetime == 0)
      modifies this, heap, pool
      ensures Valid() && Grown(old(pool)) && (Value(), out) == OnRequest(old(Value()), now, req)
      ensures heap.deadlines - {this} == old(heap.deadlines) - {this}
    {
      hide Bind, PermitAll, ShutdownRelay, Reschedule;
      if lifetime == 0 {
        return [Reply(ALLOCATION_MISMATCH, None)];
      }
      match req
      case RefreshReq(asked) =>
        out := OnRefresh(now, asked);
      case ChannelBindReq(channel, peer) =>
        if channel.None? || peer.None? {
          out := [Reply(BAD_REQUEST, None)];
        } else {
          var code := OnChannelBind(now, channel.value, peer.value);
          out := [Reply(code, None)];
        }
      case CreatePermReq(peers) =>
        var code := OnCreatePermission(now, peers);
        if code == OK {
          out := SendReplyOk(now);
        } else {
          out := [Reply(code, None)];
        }
      case AllocateReq => out := [Reply(ALLOCATION_MISMATCH, None)];
      case OtherReq => out := [Reply(BAD_REQUEST, None)];
    }

    method OnRxResponse(now: int, asked: Option<nat>, hasData: bool)
      requires timerId == Destroy ==> lifetime == 0
      modifies this`lifetime, this`timerId, this`expiry, heap
      ensures Value() == OnResponse(old(Value()), now, asked, hasData)
      ensures heap.deadlines - {this} == old(heap.deadlines) - {this}
    {
      if lifetime == 0 {
        return;
      }
      if asked.Some? {
        lifetime := asked.value;
      }
      if hasData {
        ReschedTimeout(now);
      }
    }

    method OnRxIndication(now: int, peer: Option<Addr>, data: Option<Data>) returns (out: seq<Output>)
      requires Valid()
      modifies this`peerTable, this`channelTable, this`pool, this`tables, pool
      ensures Valid() && Grown(old(pool)) && (Value(), out) == OnIndication(old(Value()), now, peer, data)
    {
      if peer.None? {
        return [];
      }
      PermitPeer(now, peer.value);
      if data.None? || !sock {
        return [];
      }
      return [ToPeer(peer.value, data.value)];
    }

    method OnRxChannelData(now: int, c: Channel, length: nat, body: Data) returns (out: seq<Output>)
      requires Valid()
      modifies this`peerTable, this`channelTable, this`tables, pool
      ensures Valid() && (Value(), out) == OnChannelData(old(Value()), now, c, length, body)
    {
      hide Refresh, LookupByChannel;
      if |body| < length {
        return [];
      }
      var perm, i := LookupPermissionByChannel(now, c);
      if perm == null {
        return [];
      }
      out := if sock then [ToPeer(perm.addr, body[..length])] else [];
      RefreshPermission(now, perm, i.value);
    }

    method HandlePeerPkt(now: int, src: Addr, payload: Data) returns (out: seq<Output>)
      requires Valid()
      modifies this`peerTable, this`channelTable, this`tables
      ensures Valid() && (Value(), out) == OnPeerPacket(old(Value()), now, src, payload)
    {
      hide LookupByAddr;
      var perm, i := LookupPermissionByAddr(now, src.ip);
      if perm == null {
        return [];
      }
      if perm.channel != INVALID_CHANNEL {
        if |payload| > MAX_PKT_LEN {
          return [];
        }
        return [ToClientChannel(perm.channel, payload)];
      }
      return [ToClientIndication(src, payload)];
    }

    /** The relay socket's callback: reached only while the socket is registered, and a datagram is
        handed on only when octets were read. */
    method OnRxFromPeer(now: int, src: Addr, payload: Data) returns (out: seq<Output>)
      requires Valid() && alive
      modifies this`peerTable, this`channelTable, this`tables
      ensures Valid() && (Value(), out) == Step(old(Value()), now, PeerPacket(src, payload))
    {
      hide OnPeerPacket;
      if !key || |payload| == 0 {
        return [];
      }
      out := HandlePeerPkt(now, src, payload);
    }

    /** A poll of the timer heap: a due entry is taken out before its callback runs. */
    method PollTimer(now: int)
      modifies this`lifetime, this`timerId, this`sock, this`key, this`alive, heap
      ensures Value() == OnTimerPoll(old(Value()), now)
      ensures heap.deadlines - {this} == old(heap.deadlines) - {this}
    {
      if this !in heap.deadlines || heap.deadlines[this] > now {
        return;
      }
      heap.Cancel(this);
      if timerId == Timeout {
        timerId := NoTimer;
        AllocShutdown(now);
      } else if timerId == Destroy {
        timerId := NoTimer;
        DestroyAllocation();
      }
    }

    /** One event, as the server delivers it. */
    method HandleEvent(now: int, e: Event) returns (out: seq<Output>)
      requires Valid() && (timerId == Destroy ==> lifetime == 0)
      modifies this, heap, pool
      ensures Valid() && Grown(old(pool)) && (Value(), out) == Step(old(Value()), now, e)
      ensures heap.deadlines - {this} == old(heap.deadlines) - {this}
    {
      hide OnRequest, OnResponse, OnIndication, OnChannelData, OnPeerPacket, OnTimerPoll;
      hide RestoreTables, ShutdownRelay, DestroyAlloc, WellFormed;
      out := [];
      if !alive {
        return;
      }
      match e
      case ClientRequest(req) => out := OnRxRequest(now, req);
      case RefreshResponse(asked, hasData) => OnRxResponse(now, asked, hasData);
      case SendIndication(peer, data) => out := OnRxIndication(now, peer, data);
      case ChannelData(c, length, body) => out := OnRxChannelData(now, c, length, body);
      case PeerPacket(src, payload) => out := OnRxFromPeer(now, src, payload);
      case TimerPoll => PollTimer(now);
      case Restore => RestoreAllocation();
      case Shutdown => AllocShutdown(now);
      case DestroyNow => DestroyAllocation();
      case OtherResponse =>
      case OtherIndication =>
    }
  }

  /** A whole run on one object, from its creation on: it ends in the run's state and sends what the run
      sends.  Every handler is reached with what its assertions need. */
  method HandleRun(heap: TimerHeap, start: int, lifetime: nat, run: Run) returns (a: Allocation, sent: seq<seq<Output>>)
    requires forall b: Allocation :: b in heap.deadlines ==> allocated(b)
    modifies heap
    ensures fresh(a) && a.Valid() && a.heap == heap
    ensures a.Value() == After(Created(start, lifetime), run, |run|)
    ensures |sent| == |run| && forall k | 0 <= k < |run| :: sent[k] == Sent(Created(start, lifetime), run, k)
    ensures heap.deadlines - {a} == old(heap.deadlines)
  {
    hide Step;
    a := new Allocation(heap, start, lifetime);
    sent := [];
    ghost var s := Created(start, lifetime);
    var k := 0;
    while k < |run|
      invariant k == |sent| <= |run| && a.Valid() && a.heap == heap
      invariant forall i | 0 <= i < |a.pool| :: fresh(a.pool[i])
      invariant a.Value() == After(s, run, k)
      invariant forall i | 0 <= i < k :: sent[i] == Sent(s, run, i)
      invariant heap.deadlines - {a} == old(heap.deadlines)
    {
      RunRelayOk(s, run, k);
      var out := a.HandleEvent(run[k].now, run[k].event);
      sent := sent + [out];
      k := k + 1;
    }
  }
}
