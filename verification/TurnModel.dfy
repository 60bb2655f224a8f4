/**
 The TURN allocation engine as a transition function on values.

 A permission lives in the allocation's memory pool for as long as the allocation does, and the
 two hash tables hold pointers to it.  Here the pool is a sequence and a pointer is an index into
 it, so the two tables can share a permission exactly as they do in the server.  Times are in
 milliseconds.
 */
module TurnModel {
  import opened Common

  type Data = seq<Byte>
  type Channel = c: int | 0 <= c < 0x1_0000

  /** A transport address; only its `ip` part is a key of the peer table. */
  datatype Addr = Addr(ip: nat, port: nat)

  const INVALID_CHANNEL: Channel := 0xFFFF
  const PERM_TIMEOUT := 300_000
  const CHANNEL_TIMEOUT := 600_000
  const DESTROY_DELAY := 500
  const MAX_PKT_LEN := 3000
  const MIN_LIFETIME := 30
  const MAX_LIFETIME := 600
  const DEF_LIFETIME := 300

  const OK := 0
  const BAD_REQUEST := 400
  const ALLOCATION_MISMATCH := 437

  datatype Permission = Permission(addr: Addr, channel: Channel, expiry: int)

  /** The permission pool and the two tables of pointers into it. */
  datatype Tables = Tables(pool: seq<Permission>, peers: map<nat, nat>, channels: map<Channel, nat>)

  datatype TimerId = NoTimer | Timeout | Destroy

  /** `entry` is the deadline of this allocation's entry in the timer heap, if it is in the heap;
      `expiry` is the second at which the lifetime ends, as replies announce it. */
  datatype Relay = Relay(lifetime: nat, timer: TimerId, entry: Option<int>, sock: bool, key: bool, expiry: int)

  datatype Alloc = Alloc(tables: Tables, relay: Relay, alive: bool)

  datatype Request =
    | RefreshReq(lifetime: Option<nat>)
    | ChannelBindReq(channel: Option<Channel>, peer: Option<Addr>)
    | CreatePermReq(peers: seq<Addr>)
    | AllocateReq
    | OtherReq

  datatype Event =
    | ClientRequest(req: Request)
    | RefreshResponse(lifetime: Option<nat>, hasData: bool)
    | OtherResponse
    | SendIndication(peer: Option<Addr>, data: Option<Data>)
    | OtherIndication
    | ChannelData(channel: Channel, length: nat, body: Data)
    | PeerPacket(src: Addr, payload: Data)
    | TimerPoll
    | Restore
    | Shutdown
    | DestroyNow

  /** A reply carries a LIFETIME unless it is an error or answers a ChannelBind. */
  datatype Output =
    | Reply(code: nat, announced: Option<nat>)
    | ToPeer(dst: Addr, sent: Data)
    | ToClientChannel(channel: Channel, sent: Data)
    | ToClientIndication(src: Addr, sent: Data)

  // ---------- permissions and tables ----------

  function Duration(channel: Channel): int {
    if channel == INVALID_CHANNEL then PERM_TIMEOUT else CHANNEL_TIMEOUT
  }

  /** Every pointer in the tables points into the pool. */
  ghost predicate WellFormed(t: Tables) {
    && (forall ip <- t.peers :: t.peers[ip] < |t.pool|)
    && (forall c <- t.channels :: t.channels[c] < |t.pool|)
  }

  function Create(t: Tables, now: int, addr: Addr): (r: Tables)
    ensures WellFormed(t) ==> WellFormed(r)
  {
    t.(pool := t.pool + [Permission(addr, INVALID_CHANNEL, now + PERM_TIMEOUT)],
       peers := t.peers[addr.ip := |t.pool|])
  }

  /** Removes a permission that has expired from both tables. */
  function CheckExpiry(t: Tables, now: int, i: nat): (r: (Tables, Option<nat>))
    requires i < |t.pool|
    ensures WellFormed(t) ==> WellFormed(r.0)
    ensures r.0.pool == t.pool
    ensures r.1.Some? ==> r == (t, Some(i))
  {
    var p := t.pool[i];
    if p.expiry > now then (t, Some(i))
    else
      (t.(peers := t.peers - {p.addr.ip},
          channels := if p.channel != INVALID_CHANNEL then t.channels - {p.channel} else t.channels),
       None)
  }

  function LookupByAddr(t: Tables, now: int, ip: nat): (r: (Tables, Option<nat>))
    requires WellFormed(t)
    ensures WellFormed(r.0) && r.0.pool == t.pool
    ensures r.1.Some? ==> r.0 == t && r.1.value < |t.pool|
  {
    if ip in t.peers then CheckExpiry(t, now, t.peers[ip]) else (t, None)
  }

  function LookupByChannel(t: Tables, now: int, c: Channel): (r: (Tables, Option<nat>))
    requires WellFormed(t)
    ensures WellFormed(r.0) && r.0.pool == t.pool
    ensures r.1.Some? ==> r.0 == t && r.1.value < |t.pool|
  {
    if c in t.channels then CheckExpiry(t, now, t.channels[c]) else (t, None)
  }

  function Refresh(t: Tables, now: int, i: nat): (r: Tables)
    requires i < |t.pool|
    ensures WellFormed(t) ==> WellFormed(r)
  {
    var p := t.pool[i];
    t.(pool := t.pool[i := p.(expiry := now + Duration(p.channel))])
  }

  function AssignChannel(t: Tables, i: nat, c: Channel): (r: Tables)
    requires i < |t.pool|
    ensures WellFormed(t) ==> WellFormed(r)
  {
    t.(pool := t.pool[i := t.pool[i].(channel := c)], channels := t.channels[c := i])
  }

  /** The IPs and the channel numbers recorded in the permissions that a table holds. */
  function PeerKeys(t: Tables): set<nat>
    requires WellFormed(t)
  {
    set ip | ip in t.peers :: t.pool[t.peers[ip]].addr.ip
  }

  function ChannelKeys(t: Tables): set<Channel>
    requires WellFormed(t)
  {
    set c | c in t.channels :: t.pool[t.channels[c]].channel
  }

  /** Deletes the keys recorded in the permissions that the tables hold. */
  function RestoreTables(t: Tables): (r: Tables)
    requires WellFormed(t)
    ensures WellFormed(r)
  {
    t.(peers := t.peers - PeerKeys(t), channels := t.channels - ChannelKeys(t))
  }

  /** Finds the peer's permission, or creates it, and refreshes it. */
  function Permit(t: Tables, now: int, peer: Addr): (r: Tables)
    requires WellFormed(t)
    ensures WellFormed(r)
  {
    var (t1, found) := LookupByAddr(t, now, peer.ip);
    match found
    case Some(i) => Refresh(t1, now, i)
    case None => Refresh(Create(t1, now, peer), now, |t1.pool|)
  }

  function PermitAll(t: Tables, now: int, peers: seq<Addr>): (r: Tables)
    requires WellFormed(t)
    ensures WellFormed(r)
    decreases |peers|
  {
    if peers == [] then t else PermitAll(Permit(t, now, peers[0]), now, peers[1..])
  }

  /** A ChannelBind for a number that nobody holds. */
  function BindFree(t: Tables, now: int, c: Channel, peer: Addr): (r: (Tables, nat))
    requires WellFormed(t)
    ensures WellFormed(r.0)
  {
    var (t1, byAddr) := LookupByAddr(t, now, peer.ip);
    match byAddr
    case Some(i) =>
      if t1.pool[i].channel != INVALID_CHANNEL then (t1, BAD_REQUEST)
      else (Refresh(AssignChannel(t1, i, c), now, i), OK)
    case None =>
      (Refresh(AssignChannel(Create(t1, now, peer), |t1.pool|, c), now, |t1.pool|), OK)
  }

  function Bind(t: Tables, now: int, c: Channel, peer: Addr): (r: (Tables, nat))
    requires WellFormed(t)
    ensures WellFormed(r.0)
  {
    var (t1, byChannel) := LookupByChannel(t, now, c);
    match byChannel
    case Some(i) => if t1.pool[i].addr != peer then (t1, BAD_REQUEST) else (Refresh(t1, now, i), OK)
    case None => BindFree(t1, now, c, peer)
  }

  // ---------- relay, timer and destruction ----------

  function DestroyRelay(r: Relay): Relay {
    Relay(0, NoTimer, if r.timer != NoTimer then None else r.entry, false, false, r.expiry)
  }

  function ShutdownRelay(r: Relay, now: int): Relay {
    if r.timer == Destroy then r
    else
      var r1 := if r.timer == Timeout then r.(timer := NoTimer, entry := None) else r;
      DestroyRelay(r1).(timer := Destroy, entry := Some(now + DESTROY_DELAY))
  }

  function Reschedule(r: Relay, now: int): Relay {
    r.(timer := Timeout, entry := Some(now + r.lifetime * 1000), expiry := now / 1000 + r.lifetime)
  }

  /** The LIFETIME of a reply, an unsigned difference of seconds. */
  function LifetimeLeft(r: Relay, now: int): nat {
    if r.lifetime != 0 then (r.expiry - now / 1000) % 0x1_0000_0000 else 0
  }

  function DestroyAlloc(s: Alloc): Alloc {
    s.(relay := DestroyRelay(s.relay), alive := false)
  }

  // ---------- handlers ----------

  function SetLifetime(r: Relay, lifetime: Option<nat>): Relay {
    match lifetime
    case Some(v) => r.(lifetime := v)
    case None => r
  }

  function OnRequest(s: Alloc, now: int, req: Request): (r: (Alloc, seq<Output>))
    requires WellFormed(s.tables)
    ensures WellFormed(r.0.tables)
  {
    if s.relay.lifetime == 0 then (s, [Reply(ALLOCATION_MISMATCH, None)])
    else
      match req
      case RefreshReq(lifetime) =>
        if lifetime == Some(0) then
          (s.(relay := ShutdownRelay(s.relay.(lifetime := 0), now)), [Reply(OK, Some(0))])
        else
          var r := Reschedule(SetLifetime(s.relay, lifetime), now);
          (s.(relay := r), [Reply(OK, Some(LifetimeLeft(r, now)))])
      case ChannelBindReq(Some(c), Some(peer)) =>
        var (t, code) := Bind(s.tables, now, c, peer);
        (s.(tables := t), [Reply(code, None)])
      case ChannelBindReq(_, _) => (s, [Reply(BAD_REQUEST, None)])
      case CreatePermReq(peers) =>
        if peers == [] then (s, [Reply(BAD_REQUEST, None)])
        else (s.(tables := PermitAll(s.tables, now, peers)), [Reply(OK, Some(LifetimeLeft(s.relay, now)))])
      case AllocateReq => (s, [Reply(ALLOCATION_MISMATCH, None)])
      case OtherReq => (s, [Reply(BAD_REQUEST, None)])
  }

  function OnResponse(s: Alloc, now: int, lifetime: Option<nat>, hasData: bool): Alloc {
    if s.relay.lifetime == 0 then s
    else
      var r := SetLifetime(s.relay, lifetime);
      s.(relay := if hasData then Reschedule(r, now) else r)
  }

  function OnIndication(s: Alloc, now: int, peer: Option<Addr>, data: Option<Data>): (r: (Alloc, seq<Output>))
    requires WellFormed(s.tables)
    ensures WellFormed(r.0.tables)
  {
    match peer
    case None => (s, [])
    case Some(p) =>
      (s.(tables := Permit(s.tables, now, p)),
       if data.Some? && s.relay.sock then [ToPeer(p, data.value)] else [])
  }

  function OnChannelData(s: Alloc, now: int, c: Channel, length: nat, body: Data): (r: (Alloc, seq<Output>))
    requires WellFormed(s.tables)
    ensures WellFormed(r.0.tables)
  {
    if |body| < length then (s, [])
    else
      var (t, found) := LookupByChannel(s.tables, now, c);
      match found
      case None => (s.(tables := t), [])
      case Some(i) =>
        (s.(tables := Refresh(t, now, i)),
         if s.relay.sock then [ToPeer(t.pool[i].addr, body[..length])] else [])
  }

  function OnPeerPacket(s: Alloc, now: int, src: Addr, payload: Data): (r: (Alloc, seq<Output>))
    requires WellFormed(s.tables)
    ensures WellFormed(r.0.tables)
  {
    var (t, found) := LookupByAddr(s.tables, now, src.ip);
    (s.(tables := t),
     match found
     case None => []
     case Some(i) =>
       if t.pool[i].channel == INVALID_CHANNEL then [ToClientIndication(src, payload)]
       else if |payload| > MAX_PKT_LEN then []
       else [ToClientChannel(t.pool[i].channel, payload)])
  }

  /** The heap removes a due entry before it calls back. */
  function OnTimerPoll(s: Alloc, now: int): Alloc {
    if s.relay.entry.None? || s.relay.entry.value > now then s
    else
      var r := s.relay.(timer := NoTimer, entry := None);
      match s.relay.timer
      case NoTimer => s.(relay := s.relay.(entry := None))
      case Timeout => s.(relay := ShutdownRelay(r, now))
      case Destroy => DestroyAlloc(s.(relay := r))
  }

  /** One step of the allocation.  A destroyed allocation receives nothing, and a peer's packet
      arrives only while the relay socket is registered; an empty one is dropped unread. */
  function Step(s: Alloc, now: int, e: Event): (r: (Alloc, seq<Output>))
    requires WellFormed(s.tables)
    ensures WellFormed(r.0.tables)
  {
    if !s.alive then (s, [])
    else
      match e
      case ClientRequest(req) => OnRequest(s, now, req)
      case RefreshResponse(lifetime, hasData) => (OnResponse(s, now, lifetime, hasData), [])
      case SendIndication(peer, data) => OnIndication(s, now, peer, data)
      case ChannelData(c, length, body) => OnChannelData(s, now, c, length, body)
      case PeerPacket(src, payload) =>
        if s.relay.key && payload != [] then OnPeerPacket(s, now, src, payload) else (s, [])
      case TimerPoll => (OnTimerPoll(s, now), [])
      case Restore => (s.(tables := RestoreTables(s.tables)), [])
      case Shutdown => (s.(relay := ShutdownRelay(s.relay, now)), [])
      case DestroyNow => (DestroyAlloc(s), [])
      case OtherResponse => (s, [])
      case OtherIndication => (s, [])
  }

  // ---------- creation ----------

  /** The lifetime an ALLOCATE request is granted; None when the request is refused. */
  function GrantedLifetime(asked: Option<nat>): (r: Option<nat>)
    ensures r.Some? ==> MIN_LIFETIME <= r.value <= MAX_LIFETIME
    ensures asked == None ==> r == Some(DEF_LIFETIME)
    ensures asked.Some? ==> (r.None? <==> asked.value < MIN_LIFETIME)
    ensures asked.Some? && MIN_LIFETIME <= asked.value <= MAX_LIFETIME ==> r == asked
    ensures asked.Some? && asked.value > MAX_LIFETIME ==> r == Some(MAX_LIFETIME)
  {
    match asked
    case None => Some(DEF_LIFETIME)
    case Some(v) => if v < MIN_LIFETIME then None else Some(if v > MAX_LIFETIME then MAX_LIFETIME else v)
  }

  /** The allocation right after a successful create_relay. */
  function Created(now: int, lifetime: nat): Alloc {
    Alloc(Tables([], map[], map[]),
          Relay(lifetime, Timeout, Some(now + lifetime * 1000), true, true, now / 1000 + lifetime), true)
  }
}
