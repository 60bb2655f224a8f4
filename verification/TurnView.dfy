/**
 The simple machine that the allocation implements.

 One map from IP to its live permission, from which expired permissions vanish by themselves,
 replaces the two tables of shared pointers with their lazy expiry.  A step of the allocation is a
 step of this machine with the same outputs exactly when it grants no bind of the reserved number.
 */
module TurnView {
  import opened Common
  import opened TurnModel
  import opened TurnTables

  type Grants = map<nat, Permission>

  datatype Simple = Simple(grants: Grants, relay: Relay, alive: bool)

  function Live(g: Grants, now: int): Grants {
    map ip | ip in g && g[ip].expiry > now :: g[ip]
  }

  function Allow(g: Grants, now: int, peer: Addr): Grants {
    var p := if peer.ip in g then g[peer.ip] else Permission(peer, INVALID_CHANNEL, now);
    g[peer.ip := p.(expiry := now + Duration(p.channel))]
  }

  function AllowAll(g: Grants, now: int, peers: seq<Addr>): Grants
    decreases |peers|
  {
    if peers == [] then g else AllowAll(Allow(g, now, peers[0]), now, peers[1..])
  }

  /** Section 11.2 of RFC 5766: the number is bound to another address, or the peer to another number. */
  ghost predicate BindRefused(g: Grants, c: Channel, peer: Addr) {
    || (exists ip <- g :: g[ip].channel == c && g[ip].addr != peer)
    || (peer.ip in g && g[peer.ip].channel != INVALID_CHANNEL && g[peer.ip].channel != c)
  }

  ghost function SimpleBind(g: Grants, now: int, c: Channel, peer: Addr): (Grants, nat) {
    if BindRefused(g, c, peer) then (g, BAD_REQUEST)
    else
      var addr := if peer.ip in g then g[peer.ip].addr else peer;
      (g[peer.ip := Permission(addr, c, now + CHANNEL_TIMEOUT)], OK)
  }

  /** The IP that holds a channel number. */
  ghost function Holder(g: Grants, c: Channel): (r: Option<nat>)
    ensures r.Some? ==> r.value in g && g[r.value].channel == c
    ensures r.None? ==> forall ip <- g :: g[ip].channel != c
  {
    if ip :| ip in g && g[ip].channel == c then Some(ip) else None
  }

  ghost function SimpleRequest(a: Simple, now: int, req: Request): (Simple, seq<Output>) {
    if a.relay.lifetime == 0 then (a, [Reply(ALLOCATION_MISMATCH, None)])
    else
      match req
      case RefreshReq(Some(0)) => (a.(relay := ShutdownRelay(a.relay.(lifetime := 0), now)), [Reply(OK, Some(0))])
      case RefreshReq(lifetime) =>
        var r := Reschedule(SetLifetime(a.relay, lifetime), now);
        (a.(relay := r), [Reply(OK, Some(LifetimeLeft(r, now)))])
      case ChannelBindReq(Some(c), Some(peer)) =>
        var (g, code) := SimpleBind(a.grants, now, c, peer);
        (a.(grants := g), [Reply(code, None)])
      case CreatePermReq(peers) =>
        if peers == [] then (a, [Reply(BAD_REQUEST, None)])
        else (a.(grants := AllowAll(a.grants, now, peers)), [Reply(OK, Some(LifetimeLeft(a.relay, now)))])
      case AllocateReq => (a, [Reply(ALLOCATION_MISMATCH, None)])
      case _ => (a, [Reply(BAD_REQUEST, None)])
  }

  ghost function SimpleChannelData(a: Simple, now: int, c: Channel, length: nat, body: Data): (Simple, seq<Output>) {
    if |body| < length || c == INVALID_CHANNEL then (a, [])
    else
      match Holder(a.grants, c)
      case None => (a, [])
      case Some(ip) =>
        var p := a.grants[ip];
        (a.(grants := a.grants[ip := p.(expiry := now + CHANNEL_TIMEOUT)]),
         if a.relay.sock then [ToPeer(p.addr, body[..length])] else [])
  }

  function SimplePeerPacket(a: Simple, src: Addr, payload: Data): seq<Output> {
    if !a.relay.key || payload == [] || src.ip !in a.grants then []
    else
      var c := a.grants[src.ip].channel;
      if c == INVALID_CHANNEL then [ToClientIndication(src, payload)]
      else if |payload| > MAX_PKT_LEN then []
      else [ToClientChannel(c, payload)]
  }

  function SimpleTimer(a: Simple, now: int): Simple {
    if a.relay.entry.None? || a.relay.entry.value > now then a
    else
      var r := a.relay.(timer := NoTimer, entry := None);
      match a.relay.timer
      case NoTimer => a.(relay := r)
      case Timeout => a.(relay := ShutdownRelay(r, now))
      case Destroy => a.(relay := DestroyRelay(r), alive := false)
  }

  ghost function SimpleStep(a0: Simple, now: int, e: Event): (Simple, seq<Output>) {
    var a := a0.(grants := Live(a0.grants, now));
    if !a.alive then (a, [])
    else
      match e
      case ClientRequest(req) => SimpleRequest(a, now, req)
      case RefreshResponse(lifetime, hasData) =>
        if a.relay.lifetime == 0 then (a, [])
        else
          var r := SetLifetime(a.relay, lifetime);
          (a.(relay := if hasData then Reschedule(r, now) else r), [])
      case SendIndication(Some(p), data) =>
        (a.(grants := Allow(a.grants, now, p)),
         if data.Some? && a.relay.sock then [ToPeer(p, data.value)] else [])
      case ChannelData(c, length, body) => SimpleChannelData(a, now, c, length, body)
      case PeerPacket(src, payload) => (a, SimplePeerPacket(a, src, payload))
      case TimerPoll => (SimpleTimer(a, now), [])
      case Restore => (a.(grants := map[]), [])
      case Shutdown => (a.(relay := ShutdownRelay(a.relay, now)), [])
      case DestroyNow => (a.(relay := DestroyRelay(a.relay), alive := false), [])
      case _ => (a, [])
  }

  // ---------- the abstraction ----------

  ghost function View(t: Tables, now: int): Grants
    requires WellFormed(t)
  {
    map ip | ip in t.peers && t.pool[t.peers[ip]].expiry > now :: t.pool[t.peers[ip]]
  }

  ghost function Abstract(s: Alloc, now: int): Simple
    requires WellFormed(s.tables)
  {
    Simple(View(s.tables, now), s.relay, s.alive)
  }

  lemma ViewLater(t: Tables, now: int, later: int)
    requires WellFormed(t) && now <= later
    ensures Live(View(t, now), later) == View(t, later)
  {
  }

  /** In the map, no two IPs carry the same channel number. */
  lemma ViewChannelsDistinct(t: Tables, now: int, ip: nat, ip': nat)
    requires Sound(t) && ip in View(t, now) && ip' in View(t, now)
    requires View(t, now)[ip].channel == View(t, now)[ip'].channel != INVALID_CHANNEL
    ensures ip == ip'
  {
    assert PeerEntryAgrees(t, ip) && PeerEntryAgrees(t, ip');
  }

  lemma LookupByAddrView(t: Tables, now: int, ip: nat)
    requires Sound(t)
    ensures var (t', found) := LookupByAddr(t, now, ip);
            && Sound(t') && View(t', now) == View(t, now)
            && (found.Some? <==> ip in View(t, now))
            && (found.Some? ==> t'.peers[ip] == found.value && t'.pool[found.value] == View(t, now)[ip])
  {
    LookupByAddrStaysSound(t, now, ip);
  }

  lemma LookupByChannelView(t: Tables, now: int, c: Channel)
    requires Sound(t)
    ensures var (t', found) := LookupByChannel(t, now, c);
            && Sound(t') && View(t', now) == View(t, now)
            && (found.Some? <==> c != INVALID_CHANNEL && Holder(View(t, now), c).Some?)
            && (found.Some? ==>
                  var ip := Holder(View(t, now), c).value;
                  ip in t'.peers && t'.peers[ip] == found.value && t'.pool[found.value] == View(t, now)[ip])
  {
    LookupByChannelStaysSound(t, now, c);
    var (t', found) := LookupByChannel(t, now, c);
    if c in t.channels {
      assert ChannelEntryAgrees(t, c);
    }
    if found.Some? {
      var ip := t.pool[found.value].addr.ip;
      assert ip in View(t, now);
      ViewChannelsDistinct(t, now, ip, Holder(View(t, now), c).value);
    }
    assert forall ip <- View(t', now) :: PeerEntryAgrees(t', ip);
  }

  lemma RefreshView(t: Tables, now: int, ip: nat)
    requires Sound(t) && ip in t.peers
    ensures var p := t.pool[t.peers[ip]];
            View(Refresh(t, now, t.peers[ip]), now) == View(t, now)[ip := p.(expiry := now + Duration(p.channel))]
  {
    assert forall k <- t.peers :: t.peers[k] == t.peers[ip] ==> k == ip;
  }

  lemma CreateView(t: Tables, now: int, peer: Addr)
    requires Sound(t) && peer.ip !in t.peers
    ensures var t' := Create(t, now, peer);
            && Sound(t') && peer.ip in t'.peers && t'.peers[peer.ip] == |t.pool|
            && View(t', now) == View(t, now)[peer.ip := Permission(peer, INVALID_CHANNEL, now + PERM_TIMEOUT)]
  {
    CreateStaysSound(t, now, peer);
  }

  lemma PermitView(t: Tables, now: int, peer: Addr)
    requires Sound(t)
    ensures View(Permit(t, now, peer), now) == Allow(View(t, now), now, peer)
  {
    hide Refresh, Create;
    LookupByAddrView(t, now, peer.ip);
    var (t1, found) := LookupByAddr(t, now, peer.ip);
    if found.Some? {
      RefreshView(t1, now, peer.ip);
    } else {
      LookupByAddrStaysSound(t, now, peer.ip);
      CreateView(t1, now, peer);
      RefreshView(Create(t1, now, peer), now, peer.ip);
    }
  }

  lemma {:induction false} PermitAllView(t: Tables, now: int, peers: seq<Addr>)
    requires Sound(t)
    ensures View(PermitAll(t, now, peers), now) == AllowAll(View(t, now), now, peers)
    decreases |peers|
  {
    if peers != [] {
      PermitView(t, now, peers[0]);
      PermitStaysSound(t, now, peers[0]);
      PermitAllView(Permit(t, now, peers[0]), now, peers[1..]);
    }
  }

  lemma AssignView(t: Tables, now: int, ip: nat, c: Channel)
    requires Sound(t) && ip in t.peers && c !in t.channels && c != INVALID_CHANNEL
    requires t.pool[t.peers[ip]].channel == INVALID_CHANNEL
    ensures View(Refresh(AssignChannel(t, t.peers[ip], c), now, t.peers[ip]), now)
         == View(t, now)[ip := Permission(t.pool[t.peers[ip]].addr, c, now + CHANNEL_TIMEOUT)]
  {
    hide ChannelEntryAgrees, PeerEntryAgrees, Refresh;
    AssignChannelAgrees(t, ip, c);
    RefreshView(AssignChannel(t, t.peers[ip], c), now, ip);
    assert forall k <- t.peers :: t.peers[k] == t.peers[ip] ==> k == ip;
  }

  /** Binding a number that is in use: a refresh by its owner, refused for anyone else. */
  lemma BindUsedView(t: Tables, now: int, c: Channel, peer: Addr)
    requires Sound(t) && LookupByChannel(t, now, c).1.Some?
    ensures var (t', code) := Bind(t, now, c, peer);
            (View(t', now), code) == SimpleBind(View(t, now), now, c, peer)
  {
    var g := View(t, now);
    LookupByChannelView(t, now, c);
    LookupByChannelStaysSound(t, now, c);
    assert ChannelEntryAgrees(t, c);
    var ip := Holder(g, c).value;
    assert g[ip].addr.ip == ip && g[ip].channel == c;
    forall k | k in g && g[k].channel == c ensures k == ip { ViewChannelsDistinct(t, now, ip, k); }
    assert BindRefused(g, c, peer) <==> g[ip].addr != peer;
    RefreshView(t, now, ip);
  }

  lemma AssignCreatedView(t: Tables, now: int, peer: Addr, c: Channel)
    requires Sound(t) && peer.ip !in t.peers && c !in t.channels && c != INVALID_CHANNEL
    ensures View(Refresh(AssignChannel(Create(t, now, peer), |t.pool|, c), now, |t.pool|), now)
         == View(t, now)[peer.ip := Permission(peer, c, now + CHANNEL_TIMEOUT)]
  {
    hide Refresh, AssignChannel, ChannelEntryAgrees, PeerEntryAgrees;
    CreateView(t, now, peer);
    AssignView(Create(t, now, peer), now, peer.ip, c);
    var p := Permission(peer, c, now + CHANNEL_TIMEOUT);
    assert View(Create(t, now, peer), now)[peer.ip := p] == View(t, now)[peer.ip := p];
  }

  /** A number that nobody uses goes to a peer that has none. */
  lemma BindFreeView(t: Tables, now: int, c: Channel, peer: Addr)
    requires Sound(t) && c != INVALID_CHANNEL && c !in t.channels
    ensures var (t', code) := BindFree(t, now, c, peer);
            (View(t', now), code) == SimpleBind(View(t, now), now, c, peer)
  {
    hide Refresh, AssignChannel, Create;
    var g := View(t, now);
    LookupByAddrView(t, now, peer.ip);
    LookupByAddrStaysSound(t, now, peer.ip);
    var (t', found) := LookupByAddr(t, now, peer.ip);
    forall ip | ip in g ensures g[ip].channel != c { assert PeerEntryAgrees(t, ip); }
    if found.None? {
      AssignCreatedView(t', now, peer, c);
    } else if t'.pool[found.value].channel == INVALID_CHANNEL {
      AssignView(t', now, peer.ip, c);
    }
  }

  lemma BindOrdinaryView(t: Tables, now: int, c: Channel, peer: Addr)
    requires Sound(t) && c != INVALID_CHANNEL
    ensures var (t', code) := Bind(t, now, c, peer);
            (View(t', now), code) == SimpleBind(View(t, now), now, c, peer)
  {
    hide BindFree, SimpleBind;
    var (t1, byChannel) := LookupByChannel(t, now, c);
    if byChannel.Some? {
      BindUsedView(t, now, c, peer);
    } else {
      LookupByChannelView(t, now, c);
      LookupByChannelStaysSound(t, now, c);
      BindFreeView(t1, now, c, peer);
    }
  }

  /** A granted bind of the reserved number leaves a permission of five minutes, not ten, or answers
      success where the map finds a peer that carries the same mark. */
  lemma BindReservedView(t: Tables, now: int, peer: Addr)
    requires Sound(t) && !HasChannel(t, now, peer.ip)
    ensures var (t', code) := Bind(t, now, INVALID_CHANNEL, peer);
            && code == OK && peer.ip in View(t', now) && View(t', now)[peer.ip].expiry == now + PERM_TIMEOUT
  {
    LookupByAddrStaysSound(t, now, peer.ip);
  }

  /** A ChannelBind has on the map the effect and the answer that it should have, exactly when it is no
      granted bind of the reserved number. */
  lemma BindView(t: Tables, now: int, c: Channel, peer: Addr)
    requires Sound(t)
    ensures var (t', code) := Bind(t, now, c, peer);
            (View(t', now), code) == SimpleBind(View(t, now), now, c, peer)
            <==> c != INVALID_CHANNEL || HasChannel(t, now, peer.ip)
  {
    if c != INVALID_CHANNEL {
      BindOrdinaryView(t, now, c, peer);
    } else if HasChannel(t, now, peer.ip) {
      LookupByAddrView(t, now, peer.ip);
    } else {
      BindReservedView(t, now, peer);
      hide Bind, BindRefused;
    }
  }

  lemma RequestRefines(s: Alloc, now: int, req: Request)
    requires Sound(s.tables) && s.alive
    ensures var (s', outs) := OnRequest(s, now, req);
            (Abstract(s', now), outs) == SimpleRequest(Abstract(s, now), now, req)
            <==> !GrantsReserved(s, now, ClientRequest(req))
  {
    hide Bind, SimpleBind, HasChannel;
    match req
    case ChannelBindReq(Some(c), Some(peer)) =>
      if s.relay.lifetime != 0 { BindView(s.tables, now, c, peer); }
    case CreatePermReq(peers) => PermitAllView(s.tables, now, peers);
    case _ =>
  }

  lemma ChannelDataRefines(s: Alloc, now: int, c: Channel, length: nat, body: Data)
    requires Sound(s.tables)
    ensures var (s', outs) := OnChannelData(s, now, c, length, body);
            (Abstract(s', now), outs) == SimpleChannelData(Abstract(s, now), now, c, length, body)
  {
    LookupByChannelView(s.tables, now, c);
    var (t, found) := LookupByChannel(s.tables, now, c);
    if found.Some? { RefreshView(t, now, Holder(View(s.tables, now), c).value); }
  }

  lemma PeerPacketRefines(s: Alloc, now: int, src: Addr, payload: Data)
    requires Sound(s.tables) && s.relay.key && payload != []
    ensures var (s', outs) := OnPeerPacket(s, now, src, payload);
            Abstract(s', now) == Abstract(s, now) && outs == SimplePeerPacket(Abstract(s, now), src, payload)
  {
    LookupByAddrView(s.tables, now, src.ip);
  }

  /** The events that leave the tables alone. */
  lemma RelayEventRefines(s: Alloc, now: int, e: Event)
    requires WellFormed(s.tables) && s.alive
    requires e.RefreshResponse? || e.TimerPoll? || e.Shutdown? || e.DestroyNow?
             || e.OtherResponse? || e.OtherIndication?
    ensures var (s', outs) := Step(s, now, e);
            (Abstract(s', now), outs) == SimpleStep(Abstract(s, now), now, e)
  {
    hide OnRequest, SimpleRequest;
    assert Live(View(s.tables, now), now) == View(s.tables, now);
  }

  lemma MessageRefines(s: Alloc, now: int, e: Event)
    requires Sound(s.tables) && s.alive
    requires e.ClientRequest? || e.SendIndication? || e.ChannelData? || e.PeerPacket? || e.Restore?
    ensures var (s', outs) := Step(s, now, e);
            (Abstract(s', now), outs) == SimpleStep(Abstract(s, now), now, e) <==> !GrantsReserved(s, now, e)
  {
    hide OnRequest, SimpleRequest, OnChannelData, SimpleChannelData, OnPeerPacket, Permit, Allow, HasChannel;
    assert Live(View(s.tables, now), now) == View(s.tables, now);
    match e
    case ClientRequest(req) => RequestRefines(s, now, req);
    case SendIndication(Some(p), _) => PermitView(s.tables, now, p);
    case ChannelData(c, length, body) => ChannelDataRefines(s, now, c, length, body);
    case PeerPacket(src, payload) => if s.relay.key && payload != [] { PeerPacketRefines(s, now, src, payload); }
    case Restore => RestoreEmptiesTables(s.tables);
    case _ =>
  }

  lemma SimpleStepLater(a: Simple, before: int, now: int, e: Event)
    requires before <= now
    ensures SimpleStep(a, now, e) == SimpleStep(a.(grants := Live(a.grants, now)), now, e)
  {
    assert Live(Live(a.grants, now), now) == Live(a.grants, now);
  }

  /** Main refinement: the allocation's step is the simple machine's step, outputs included, exactly when
      it is no granted bind of the reserved number. */
  lemma StepRefines(s: Alloc, before: int, now: int, e: Event)
    requires Sound(s.tables) && before <= now
    ensures var (s', outs) := Step(s, now, e);
            (Abstract(s', now), outs) == SimpleStep(Abstract(s, before), now, e) <==> !GrantsReserved(s, now, e)
  {
    ViewLater(s.tables, before, now);
    SimpleStepLater(Abstract(s, before), before, now, e);
    assert Abstract(s, before).(grants := View(s.tables, now)) == Abstract(s, now);
    if !s.alive {
      assert Live(View(s.tables, now), now) == View(s.tables, now);
    } else {
      hide Step, SimpleStep;
      match e
      case RefreshResponse(_, _) | TimerPoll | Shutdown | DestroyNow | OtherResponse | OtherIndication =>
        RelayEventRefines(s, now, e);
      case _ => MessageRefines(s, now, e);
    }
  }
}
