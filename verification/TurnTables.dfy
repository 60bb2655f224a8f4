/**
 The two tables of an allocation agree.

 Every channel entry points to a permission that carries that channel number and is also the entry
 of its own IP in the peer table; every permission in the peer table that carries a channel number
 is the entry of that channel.  Channels and the IPs bound to them are therefore in bijection,
 which is the rule of section 11.2 of RFC 5766 at the level of IP addresses.

 The reserved number 0xFFFF marks a permission without a channel.  The server does not refuse to bind
 it: the tables still agree right after such a bind, but not after every event that may follow.
 */
module TurnTables {
  import opened Common
  import opened TurnModel

  /** The peer table has each permission under its own IP. */
  ghost predicate Keyed(t: Tables) {
    WellFormed(t) && forall ip <- t.peers :: t.pool[t.peers[ip]].addr.ip == ip
  }

  ghost predicate Agree(t: Tables) {
    && Keyed(t)
    && (forall c <- t.channels :: ChannelEntryAgrees(t, c))
    && (forall ip <- t.peers :: PeerEntryAgrees(t, ip))
  }

  /** Agreement that every event keeps: the reserved number is not bound. */
  ghost predicate Sound(t: Tables) {
    Agree(t) && INVALID_CHANNEL !in t.channels
  }

  ghost predicate ChannelEntryAgrees(t: Tables, c: Channel)
    requires WellFormed(t) && c in t.channels
  {
    var p := t.pool[t.channels[c]];
    p.channel == c && p.addr.ip in t.peers && t.peers[p.addr.ip] == t.channels[c]
  }

  ghost predicate PeerEntryAgrees(t: Tables, ip: nat)
    requires WellFormed(t) && ip in t.peers
  {
    var c := t.pool[t.peers[ip]].channel;
    c != INVALID_CHANNEL ==> c in t.channels && t.channels[c] == t.peers[ip]
  }

  /** The peer has a live permission that already carries a channel number. */
  ghost predicate HasChannel(t: Tables, now: int, ip: nat)
    requires WellFormed(t)
  {
    ip in t.peers && t.pool[t.peers[ip]].expiry > now && t.pool[t.peers[ip]].channel != INVALID_CHANNEL
  }

  // ---------- each operation on the tables ----------

  lemma CheckExpiryStaysSound(t: Tables, now: int, ip: nat)
    requires Sound(t) && ip in t.peers
    ensures Sound(CheckExpiry(t, now, t.peers[ip]).0)
  {
  }

  lemma LookupByAddrStaysSound(t: Tables, now: int, ip: nat)
    requires Sound(t)
    ensures var (t', found) := LookupByAddr(t, now, ip);
            && Sound(t')
            && t'.pool == t.pool
            && (found.None? ==> ip !in t'.peers)
            && (found.Some? ==> t' == t && ip in t.peers && t.peers[ip] == found.value
                                && t.pool[found.value].expiry > now)
  {
  }

  lemma LookupByChannelStaysSound(t: Tables, now: int, c: Channel)
    requires Sound(t)
    ensures var (t', found) := LookupByChannel(t, now, c);
            && Sound(t')
            && t'.pool == t.pool
            && (found.None? ==> c !in t'.channels)
            && (found.Some? ==> t' == t && c in t.channels && t.channels[c] == found.value
                                && t.pool[found.value].expiry > now)
  {
    if c in t.channels {
      CheckExpiryStaysSound(t, now, t.pool[t.channels[c]].addr.ip);
    }
  }

  lemma RefreshAgrees(t: Tables, now: int, i: nat)
    requires Agree(t) && i < |t.pool|
    ensures Agree(Refresh(t, now, i)) && (Sound(Refresh(t, now, i)) <==> Sound(t))
  {
    var t' := Refresh(t, now, i);
    assert forall k | 0 <= k < |t.pool| ::
             t'.pool[k].addr == t.pool[k].addr && t'.pool[k].channel == t.pool[k].channel;
    assert forall c <- t'.channels :: ChannelEntryAgrees(t, c) ==> ChannelEntryAgrees(t', c);
    assert forall ip <- t'.peers :: PeerEntryAgrees(t, ip) ==> PeerEntryAgrees(t', ip);
  }

  lemma CreateStaysSound(t: Tables, now: int, addr: Addr)
    requires Sound(t) && addr.ip !in t.peers
    ensures Sound(Create(t, now, addr))
  {
    var t' := Create(t, now, addr);
    assert forall c <- t'.channels :: ChannelEntryAgrees(t, c) ==> ChannelEntryAgrees(t', c);
    assert forall ip <- t.peers :: PeerEntryAgrees(t, ip) ==> PeerEntryAgrees(t', ip);
  }

  /** Binding a free channel to a permission without one keeps the tables in agreement, whatever the
      number; the reserved one leaves an entry under a number that marks it as unbound. */
  lemma AssignChannelAgrees(t: Tables, ip: nat, c: Channel)
    requires Sound(t) && ip in t.peers && c !in t.channels
    requires t.pool[t.peers[ip]].channel == INVALID_CHANNEL
    ensures Agree(AssignChannel(t, t.peers[ip], c))
    ensures Sound(AssignChannel(t, t.peers[ip], c)) <==> c != INVALID_CHANNEL
  {
    var i := t.peers[ip];
    var t' := AssignChannel(t, i, c);
    forall d | d in t'.channels ensures ChannelEntryAgrees(t', d) {
      assert d != c ==> ChannelEntryAgrees(t, d);
    }
    forall k | k in t'.peers ensures PeerEntryAgrees(t', k) {
      assert PeerEntryAgrees(t, k);
      assert t'.peers[k] == i ==> k == ip;
    }
  }

  lemma PermitStaysSound(t: Tables, now: int, peer: Addr)
    requires Sound(t)
    ensures Sound(Permit(t, now, peer))
  {
    LookupByAddrStaysSound(t, now, peer.ip);
    var (t1, found) := LookupByAddr(t, now, peer.ip);
    if found.Some? {
      RefreshAgrees(t1, now, found.value);
    } else {
      CreateStaysSound(t1, now, peer);
      RefreshAgrees(Create(t1, now, peer), now, |t1.pool|);
    }
  }

  lemma {:induction false} PermitAllStaysSound(t: Tables, now: int, peers: seq<Addr>)
    requires Sound(t)
    ensures Sound(PermitAll(t, now, peers))
    decreases |peers|
  {
    if peers != [] {
      PermitStaysSound(t, now, peers[0]);
      PermitAllStaysSound(Permit(t, now, peers[0]), now, peers[1..]);
    }
  }

  /** A ChannelBind keeps the agreement, and keeps it for good except for the reserved number 0xFFFF,
      which is granted unless the peer already has a channel. */
  lemma BindAgrees(t: Tables, now: int, c: Channel, peer: Addr)
    requires Sound(t)
    ensures Agree(Bind(t, now, c, peer).0)
    ensures Sound(Bind(t, now, c, peer).0) <==> c != INVALID_CHANNEL || HasChannel(t, now, peer.ip)
  {
    hide Refresh, AssignChannel, ChannelEntryAgrees, PeerEntryAgrees;
    LookupByChannelStaysSound(t, now, c);
    var (t1, byChannel) := LookupByChannel(t, now, c);
    if byChannel.Some? {
      RefreshAgrees(t1, now, byChannel.value);
    } else {
      LookupByAddrStaysSound(t1, now, peer.ip);
      var (t2, byAddr) := LookupByAddr(t1, now, peer.ip);
      if byAddr.None? {
        CreateStaysSound(t2, now, peer);
        AssignAndRefresh(Create(t2, now, peer), now, peer.ip, c);
      } else if t2.pool[byAddr.value].channel == INVALID_CHANNEL {
        AssignAndRefresh(t2, now, peer.ip, c);
      }
    }
  }

  lemma AssignAndRefresh(t: Tables, now: int, ip: nat, c: Channel)
    requires Sound(t) && ip in t.peers && c !in t.channels
    requires t.pool[t.peers[ip]].channel == INVALID_CHANNEL
    ensures var t' := Refresh(AssignChannel(t, t.peers[ip], c), now, t.peers[ip]);
            Agree(t') && (Sound(t') <==> c != INVALID_CHANNEL)
  {
    AssignChannelAgrees(t, ip, c);
    RefreshAgrees(AssignChannel(t, t.peers[ip], c), now, t.peers[ip]);
  }

  lemma RestoreEmptiesTables(t: Tables)
    requires Agree(t)
    ensures RestoreTables(t) == Tables(t.pool, map[], map[])
  {
    assert forall ip <- t.peers :: t.pool[t.peers[ip]].addr.ip == ip;
    assert forall c <- t.channels :: ChannelEntryAgrees(t, c);
  }

  // ---------- the whole machine ----------

  /** The server grants a ChannelBind for the reserved number. */
  ghost predicate GrantsReserved(s: Alloc, now: int, e: Event)
    requires WellFormed(s.tables)
  {
    && s.alive && s.relay.lifetime != 0
    && e.ClientRequest? && e.req.ChannelBindReq? && e.req.peer.Some?
    && e.req.channel == Some(INVALID_CHANNEL)
    && !HasChannel(s.tables, now, e.req.peer.value.ip)
  }

  /** Every event leaves the tables in agreement, and in a state from which the next one does so again
      exactly when it is not such a grant. */
  lemma StepAgrees(s: Alloc, now: int, e: Event)
    requires Sound(s.tables)
    ensures Agree(Step(s, now, e).0.tables)
    ensures Sound(Step(s, now, e).0.tables) <==> !GrantsReserved(s, now, e)
  {
    var t := s.tables;
    assert WellFormed(t);
    hide Agree;
    match e
    case ClientRequest(ChannelBindReq(Some(c), Some(peer))) => BindAgrees(t, now, c, peer);
    case ClientRequest(CreatePermReq(peers)) => PermitAllStaysSound(t, now, peers);
    case SendIndication(Some(p), _) => PermitStaysSound(t, now, p);
    case ChannelData(c, length, body) =>
      LookupByChannelStaysSound(t, now, c);
      var (t1, found) := LookupByChannel(t, now, c);
      if found.Some? { RefreshAgrees(t1, now, found.value); }
    case PeerPacket(src, _) => LookupByAddrStaysSound(t, now, src.ip);
    case Restore =>
      RestoreEmptiesTables(t);
      EmptyTablesAreSound(t.pool);
    case _ =>
  }

  /** The tables of a new allocation, and restored ones. */
  lemma EmptyTablesAreSound(pool: seq<Permission>)
    ensures Sound(Tables(pool, map[], map[]))
  {
  }

  /** The tables agree now, and after any one event that may come next. */
  ghost predicate StayInAgreement(s: Alloc, now: int) {
    && Agree(s.tables)
    && forall later: int, e: Event | now <= later :: Agree(Step(s, later, e).0.tables)
  }

  lemma SoundTablesStayInAgreement(s: Alloc, now: int)
    requires Sound(s.tables)
    ensures StayInAgreement(s, now)
  {
    assert WellFormed(s.tables);
    hide Step, Agree, GrantsReserved;
    forall later: int, e: Event | now <= later ensures Agree(Step(s, later, e).0.tables) {
      StepAgrees(s, later, e);
    }
  }

  /** What a granted bind of the reserved number leaves: an entry of the channel table whose permission
      lasts five minutes only. */
  lemma ReservedGrantLeaves(s: Alloc, now: int, e: Event)
    requires Sound(s.tables) && GrantsReserved(s, now, e)
    ensures var s', ip := Step(s, now, e).0, e.req.peer.value.ip;
            && s'.alive && s'.relay == s.relay
            && ip in s'.tables.peers && INVALID_CHANNEL in s'.tables.channels
            && s'.tables.channels[INVALID_CHANNEL] == s'.tables.peers[ip]
            && var p := s'.tables.pool[s'.tables.peers[ip]];
               p.addr.ip == ip && p.channel == INVALID_CHANNEL && p.expiry == now + PERM_TIMEOUT
  {
  }

  /** When that permission has expired and the peer gets a new one, the channel entry is left behind. */
  lemma ExpiredGrantIsLeftBehind(s: Alloc, now: int, peer: Addr, data: Option<Data>)
    requires WellFormed(s.tables) && s.alive
    requires peer.ip in s.tables.peers && INVALID_CHANNEL in s.tables.channels
    requires s.tables.channels[INVALID_CHANNEL] == s.tables.peers[peer.ip]
    requires var p := s.tables.pool[s.tables.peers[peer.ip]];
             p.addr.ip == peer.ip && p.channel == INVALID_CHANNEL && p.expiry <= now
    ensures var t, t' := s.tables, Step(s, now, SendIndication(Some(peer), data)).0.tables;
            && t'.pool == t.pool + [Permission(peer, INVALID_CHANNEL, now + PERM_TIMEOUT)]
            && t'.peers == t.peers[peer.ip := |t.pool|] && t'.channels == t.channels
            && !Agree(t')
  {
    var t' := Step(s, now, SendIndication(Some(peer), data)).0.tables;
    assert !ChannelEntryAgrees(t', INVALID_CHANNEL);
  }

  /** Exactly the grants of the reserved number put the tables where some next event breaks them. */
  lemma ReservedGrantBreaksLater(s: Alloc, now: int, e: Event)
    requires Sound(s.tables)
    ensures GrantsReserved(s, now, e) <==> !StayInAgreement(Step(s, now, e).0, now)
  {
    assert WellFormed(s.tables);
    hide Step, Agree;
    StepAgrees(s, now, e);
    var s' := Step(s, now, e).0;
    if GrantsReserved(s, now, e) {
      ReservedGrantLeaves(s, now, e);
      ExpiredGrantIsLeftBehind(s', now + PERM_TIMEOUT, e.req.peer.value, None);
    } else {
      SoundTablesStayInAgreement(s', now);
    }
  }

  /** A concrete case.  A fresh allocation binds 0xFFFF to a peer, sends to the peer when that permission
      has just expired, and sends on channel 0xFFFF a millisecond later: the peer's new permission, good
      for five minutes, is gone, and its packets no longer reach the client. */
  lemma ReservedChannelDropsPermission(start: int, lifetime: nat, peer: Addr, length: nat, body: Data, payload: Data)
    requires lifetime > 0 && length <= |body| && payload != []
    ensures var now := start + PERM_TIMEOUT;
            var s1 := Step(Created(start, lifetime), start,
                           ClientRequest(ChannelBindReq(Some(INVALID_CHANNEL), Some(peer)))).0;
            var s2 := Step(s1, now, SendIndication(Some(peer), None)).0;
            var s3 := Step(s2, now + 1, ChannelData(INVALID_CHANNEL, length, body)).0;
            && Step(s2, now + 1, PeerPacket(peer, payload)).1 == [ToClientIndication(peer, payload)]
            && Step(s3, now + 1, PeerPacket(peer, payload)).1 == []
  {
  }

  /** Another: 0xFFFF and then an ordinary number are bound to the same peer.  A restore looks for the
      number that the permission records and leaves the entry of 0xFFFF, so that ChannelData on it still
      reaches the peer. */
  lemma ReservedChannelSurvivesRestore(now: int, lifetime: nat, c: Channel, peer: Addr, length: nat, body: Data)
    requires lifetime > 0 && length <= |body| && c != INVALID_CHANNEL
    ensures var s1 := Step(Created(now, lifetime), now,
                           ClientRequest(ChannelBindReq(Some(INVALID_CHANNEL), Some(peer)))).0;
            var s2 := Step(s1, now, ClientRequest(ChannelBindReq(Some(c), Some(peer)))).0;
            var s3 := Step(s2, now, Restore).0;
            && s3.tables.peers == map[]
            && Step(s3, now, ChannelData(INVALID_CHANNEL, length, body)).1 == [ToPeer(peer, body[..length])]
  {
    var s0 := Created(now, lifetime);
    var s1 := Step(s0, now, ClientRequest(ChannelBindReq(Some(INVALID_CHANNEL), Some(peer)))).0;
    assert s1.tables == Tables([Permission(peer, INVALID_CHANNEL, now + PERM_TIMEOUT)],
                               map[peer.ip := 0], map[INVALID_CHANNEL := 0]);
    var s2 := Step(s1, now, ClientRequest(ChannelBindReq(Some(c), Some(peer)))).0;
    assert s2.tables == Tables([Permission(peer, c, now + CHANNEL_TIMEOUT)],
                               map[peer.ip := 0], map[INVALID_CHANNEL := 0, c := 0]);
    var s3 := Step(s2, now, Restore).0;
    assert s3.tables == Tables(s2.tables.pool, map[], map[INVALID_CHANNEL := 0]);
  }

  /** A second bind on an allocation with one channel: it is granted exactly if it repeats the first one, port
      included, or asks for another number and another IP. */
  lemma OneChannelPerPeer(now: int, lifetime: nat, c: Channel, peer: Addr, c': Channel, peer': Addr)
    requires lifetime > 0 && c != INVALID_CHANNEL && c' != INVALID_CHANNEL
    ensures var (s, outs) := Step(Created(now, lifetime), now, ClientRequest(ChannelBindReq(Some(c), Some(peer))));
            var outs' := Step(s, now, ClientRequest(ChannelBindReq(Some(c'), Some(peer')))).1;
            && outs == [Reply(OK, None)]
            && outs' == [Reply(if c' == c then if peer' == peer then OK else 400
                               else if peer'.ip == peer.ip then 400 else OK, None)]
  {
  }

  /** Agreement is a bijection between the channels and the IPs that carry one. */
  lemma ChannelsAndPeersBijection(t: Tables)
    requires Agree(t)
    ensures forall c <- t.channels :: t.pool[t.channels[c]].addr.ip in t.peers
    ensures forall c <- t.channels, d <- t.channels ::
              t.pool[t.channels[c]].addr.ip == t.pool[t.channels[d]].addr.ip ==> c == d
    ensures forall ip <- t.peers :: t.pool[t.peers[ip]].channel != INVALID_CHANNEL ==>
              exists c <- t.channels :: t.pool[t.channels[c]].addr.ip == ip
  {
    assert forall c <- t.channels :: ChannelEntryAgrees(t, c);
    forall ip | ip in t.peers && t.pool[t.peers[ip]].channel != INVALID_CHANNEL
      ensures exists c <- t.channels :: t.pool[t.channels[c]].addr.ip == ip
    {
      assert PeerEntryAgrees(t, ip);
      assert t.pool[t.channels[t.pool[t.peers[ip]].channel]].addr.ip == ip;
    }
  }
}
