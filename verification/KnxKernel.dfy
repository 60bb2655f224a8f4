/** The gateway object: it builds write requests in place and works through its receive buffer. */
module KnxKernel {
  import opened Arithmetic
  import opened Buffers
  import opened Common
  import KnxFloat
  import opened KnxDpt
  import opened KnxFrame
  import opened KnxFraming

  /** What a received tunnelling frame leads to. */
  datatype TunnelAction = NoAction | QueueWrite(group: GroupData) | StoreRead(group: GroupData)

  /** A numbered frame, or one that is neither a confirmation nor an indication, leads to nothing; a
      write is queued from both, a response is stored from an indication only. */
  function ActionOf(d: Decoded, dpt: Dpt): (a: TunnelAction)
    ensures a.QueueWrite? <==> d.unnumbered && d.action == APCI_GROUP_VALUE_WRITE && d.code in {L_DATA_CON, L_DATA_IND}
    ensures a.StoreRead? <==> d.unnumbered && d.action == APCI_GROUP_VALUE_RES && d.code == L_DATA_IND
    ensures !a.NoAction? ==> a.group == GroupData(d.addr, dpt, d.area)
  {
    var g := GroupData(d.addr, dpt, d.area);
    if !d.unnumbered then NoAction
    else if d.action == APCI_GROUP_VALUE_WRITE && (d.code == L_DATA_CON || d.code == L_DATA_IND) then QueueWrite(g)
    else if d.action == APCI_GROUP_VALUE_RES && d.code == L_DATA_IND then StoreRead(g)
    else NoAction
  }

  /** The receive counter takes the low octet of the frame's counter; 255 rolls over at once. */
  function NextInCounter(inCounter: int, octet: Byte): (c: int)
    ensures c % 256 == if octet < 255 then octet as int else 0
    ensures c / 256 == if octet < 255 then inCounter / 256 else inCounter / 256 + 1
  {
    var c := inCounter - inCounter % 256 + octet as int;
    if octet == 255 then c + 1 else c
  }

  const TUNNELLING_ACK := 0x0421
  const E_NO_ERROR := 0

  /** The acknowledgement of a frame: it repeats the frame's counter. */
  function AckFrame(channelId: int, counter: int): (f: seq<Byte>)
    ensures |f| == TUNNEL_REQ_SIZE
    ensures HeadOf(f) == Head(0x06, 0x10, 0x0421, 10, 4, Low(channelId), Low(counter), 0)
  {
    FillHeader(TUNNELLING_ACK, TUNNEL_REQ_SIZE) + FillConHead(channelId, counter, E_NO_ERROR)
  }

  const EMPTY_AREA := Area(0, 0.0, Zeros(TXT_DATA_SIZE), TimeData(0, 0, 0, 0, 0, 0, 0))

  class Kernel {
    var channelId: int
    var inCounter: int
    var outCounter: int

    /** Builds the write request for g at the start of the buffer.  A value that DPT2Byte refuses is
        reported before anything is written. */
    method GenerateWriteValueMsg(g: GroupData, buf: array<Byte>) returns (written: Option<nat>)
      requires |g.data.txt| == TXT_DATA_SIZE && buf.Length >= 21 + Length(g.dpt)
      modifies buf
      ensures written.Some? <==> Bytes(g).Some?
      ensures written.None? ==> buf[..] == old(buf[..])
      ensures written.Some? ==>
                && written.value == 21 + Length(g.dpt)
                && buf[..written.value] == WriteFrame(channelId, outCounter, g)
                && buf[written.value..] == old(buf[written.value..])
    {
      hide Bytes, FillHeader, FillConHead, Cemi;
      var dataBuf := new Byte[TXT_DATA_SIZE](_ => 0);
      var status, len := DPT2Byte(g, dataBuf, TXT_DATA_SIZE);
      if status < 0 {
        return None;
      }
      ghost var b := Bytes(g).value;
      assert dataBuf[..][..|b|] == b;
      var cemiLen := 8 + 1 + len;
      var whole := TUNNEL_REQ_SIZE + 2 + cemiLen;
      var p := Put(buf, 0, FillHeader(TUNNELLING_REQUEST, whole));
      p := Put(buf, p, FillConHead(channelId, outCounter, 0));
      p := PutCemi(buf, p, g.addr, len, dataBuf[..]);
      CemiIgnoresPadding(g.addr, len, b, dataBuf[..]);
      return Some(p);
    }

    method PutCemi(buf: array<Byte>, pos: nat, addr: int, len: nat, data: seq<Byte>) returns (next: nat)
      requires 1 <= |data| && len <= |data| && len < 255 && pos + 11 + len <= buf.Length
      modifies buf
      ensures next == pos + 11 + len && buf[..next] == old(buf[..pos]) + Cemi(addr, len, data)
      ensures forall i | next <= i < buf.Length :: buf[i] == old(buf[i])
    {
      hide Low;
      ghost var before := buf[..pos];
      var head := [L_DATA_REQ, 0, CONTROL_1, CONTROL_2, 0, 0] + Octets2(addr) + [1 + len, 0];
      next := Put(buf, pos, head);
      if len == 0 {
        next := Put(buf, next, [APCI_GROUP_VALUE_WRITE + data[0] % 64]);
      } else {
        next := Put(buf, next, [APCI_GROUP_VALUE_WRITE] + data[..len]);
      }
      Associative(before, head, Payload(data, len));
    }

    /** Reads the data octets that follow the length nibble of a frame into a cleared buffer. */
    method ReadData(buf: array<Byte>, pos: nat, len: nat, apci: Byte) returns (data: array<Byte>)
      requires len <= 15 && pos + len - 1 <= buf.Length
      ensures fresh(data)
      ensures data.Length == TXT_DATA_SIZE
      ensures data[..] == Fill(if len == 0 then [] else if len == 1 then [apci % 64] else buf[pos..pos + len - 1])
    {
      data := new Byte[TXT_DATA_SIZE](_ => 0);
      if len == 1 {
        data[0] := apci % 64;
      } else if len > 1 {
        forall i | 0 <= i < len - 1 {
          data[i] := buf[pos + i];
        }
      }
    }

    /** Reads the fields of the frame that begins at `start`. */
    method ReadFrame(buf: array<Byte>, start: nat, total: nat, dptOf: Word -> Dpt) returns (d: Decoded)
      requires start + total <= buf.Length && Readable(buf[start..start + total])
      ensures d == Decode(buf[start..start + total], dptOf, EMPTY_AREA)
    {
      hide FromBytes, Fill;
      ghost var f := buf[start..start + total];
      var skip: int := buf[start + 11];
      var p: int := 12 + skip + 4;
      assert skip == Octet(f, 11) && start + p + 4 <= buf.Length;
      assert buf[start + p + 2] == f[p + 2] && buf[start + p + 3] == f[p + 3];
      var addr: Word := Unsigned2(buf[start + p], buf[start + p + 1]);
      var len := buf[start + p + 2] % 16;
      var apci: Byte := 0;
      if len > 0 {
        apci := buf[start + p + 4];
      }
      var data := ReadData(buf, start + p + 5, len, apci);
      if len > 1 {
        assert buf[start + p + 5..start + p + 4 + len] == f[p + 5..p + 4 + len];
      }
      assert apci == if len > 0 then f[p + 4] else 0;
      d := Decoded(buf[start + 10], addr, buf[start + p + 3] % 4 == 0, apci / 64 * 64,
                   FromBytes(data[..], dptOf(addr), EMPTY_AREA));
    }

    /** Decodes the frame that begins at `start`, acknowledges it and updates the receive counter. */
    method HandleTunnelResponse(buf: array<Byte>, start: nat, total: nat, dptOf: Word -> Dpt)
      returns (action: TunnelAction, ack: seq<Byte>)
      requires start + total <= buf.Length && Readable(buf[start..start + total])
      modifies this`inCounter
      ensures var d := Decode(buf[start..start + total], dptOf, EMPTY_AREA); action == ActionOf(d, dptOf(d.addr))
      ensures inCounter == NextInCounter(old(inCounter), buf[start + 8])
      ensures ack == AckFrame(channelId, buf[start + 8])
    {
      hide Decode, NextInCounter, ActionOf, AckFrame;
      var counter := buf[start + 8];
      var d := ReadFrame(buf, start, total, dptOf);
      var g := GroupData(d.addr, dptOf(d.addr), d.area);
      ack := ReceiveCounter(counter);
      action := NoAction;
      if d.code == L_DATA_CON {
        if d.unnumbered && d.action == APCI_GROUP_VALUE_WRITE {
          action := QueueWrite(g);
        }
      } else if d.code == L_DATA_IND {
        if d.unnumbered && d.action == APCI_GROUP_VALUE_RES {
          action := StoreRead(g);
        } else if d.unnumbered && d.action == APCI_GROUP_VALUE_WRITE {
          action := QueueWrite(g);
        }
      }
    }

    /** Takes over the frame's counter, acknowledges with it and then rolls it over. */
    method ReceiveCounter(octet: Byte) returns (ack: seq<Byte>)
      modifies this`inCounter
      ensures inCounter == NextInCounter(old(inCounter), octet) && ack == AckFrame(channelId, octet)
    {
      inCounter := inCounter - inCounter % 256 + octet as int;
      assert inCounter % 256 == octet by { DivModUnique(inCounter, old(inCounter) / 256, octet, 256); }
      ack := FillHeader(TUNNELLING_ACK, TUNNEL_REQ_SIZE) + FillConHead(channelId, inCounter, E_NO_ERROR);
      if inCounter % 256 == 255 {
        inCounter := inCounter + 1;
      }
    }

    /** Works through the first len octets of the buffer for at most `rounds` iterations; `log` records
        the frames handed to the service handlers.  The loop is left in that many rounds exactly when
        the iteration stops, and then what it has done is what the scan says. */
    method ExecRecvMsgAction(buf: array<Byte>, len: nat, rounds: nat)
      returns (left: bool, handled: nat, log: seq<Found>)
      requires len <= buf.Length
      ensures left <==> Iterate(buf[..len], 0, rounds).None?
      ensures !left ==> Iterate(buf[..len], 0, rounds) == Some(handled)
      ensures left ==> Scan(buf[..len], 0) == Returns(log, handled)
    {
      left, handled, log := false, 0, [];
      ghost var s := buf[..len];
      PrependToNone(Scan(s, 0));
      hide PrependAll;
      var round := 0;
      while round < rounds
        invariant round <= rounds && handled <= len
        invariant Iterate(s, 0, rounds) == Iterate(s, handled, rounds - round)
        invariant Scan(s, 0) == PrependAll(log, Scan(s, handled))
        decreases rounds - round
      {
        if len - handled <= HEADER_SIZE {
          PrependNothing(log, handled);
          left := true;
          return;
        }
        round := round + 1;
        if buf[handled] != HEADER_SIZE_10 {
          handled := handled + 1;
          continue;
        }
        if buf[handled + 1] != VERSION_10 {
          handled := handled + 2;
          continue;
        }
        var service := Unsigned2(buf[handled + 2], buf[handled + 3]);
        var total := Unsigned2(buf[handled + 4], buf[handled + 5]);
        if len - handled < total {
          handled := len;
          PrependNothing(log, handled);
          left := true;
          break;
        }
        ghost var rest := Scan(s, handled + total);
        PrependMore(log, Found(service, handled, total), rest);
        log := log + [Found(service, handled, total)];
        handled := handled + total;
      }
    }
  }

  /** End to end: the gateway's own write request, come back as a confirmation or an indication, is
      queued for its own address and type with the value that was sent, exactly when that is in range. */
  lemma OwnWriteIsQueued(channelId: int, counter: int, g: GroupData, code: Byte, dptOf: Word -> Dpt)
    requires |g.data.txt| == TXT_DATA_SIZE && Bytes(g).Some? && code in {L_DATA_CON, L_DATA_IND}
    requires 0 <= g.addr < 0x1_0000 && dptOf(g.addr) == g.dpt
    ensures var f := WriteFrame(channelId, counter, g)[10 := code];
            && Readable(f)
            && var d := Decode(f, dptOf, EMPTY_AREA); var a := ActionOf(d, dptOf(d.addr));
               && a == QueueWrite(GroupData(g.addr, g.dpt, d.area))
               && if g.dpt.Float16? then d.area.ana == KnxFloat.Rounded(100 * Trunc(g.data.ana)) as real / 100.0
                  else Same(g.dpt, d.area, g.data) <==> InRange(g)
  {
    hide Bytes, Decode, WriteFrame, InRange, Same;
    WriteRoundTrip(channelId, counter, g, code, dptOf, EMPTY_AREA);
  }

  /** Every frame of this kind, by its message code, TPCI and action: a numbered one leads to nothing, a
      write is queued from a confirmation or an indication, a group response is stored from an indication,
      and all else, a read request included, leads to nothing; with the address and value that are in it. */
  lemma FrameIsActedOn(channelId: int, counter: int, g: GroupData, code: Byte, tpci: Byte, action: Byte,
                       dptOf: Word -> Dpt)
    requires |g.data.txt| == TXT_DATA_SIZE && Bytes(g).Some? && action in {0, 0x40, 0x80, 0xC0}
    requires 0 <= g.addr < 0x1_0000 && dptOf(g.addr) == g.dpt
    ensures var f := WriteFrame(channelId, counter, g);
            && |f| > 20 && Readable(Altered(f, code, tpci, action))
            && var d := Decode(Altered(f, code, tpci, action), dptOf, EMPTY_AREA);
               var received := GroupData(g.addr, g.dpt, FromBytes(Fill(OnWire(g)), g.dpt, EMPTY_AREA));
               ActionOf(d, dptOf(d.addr)) ==
                 if tpci % 4 != 0 then NoAction
                 else if action == 0x80 && code in {0x2E, 0x29} then QueueWrite(received)
                 else if action == 0x40 && code == 0x29 then StoreRead(received)
                 else NoAction
  {
    hide Bytes, Decode, WriteFrame, FromBytes, Fill, OnWire, Altered;
    AlteredDecodes(channelId, counter, g, code, tpci, action, dptOf, EMPTY_AREA);
  }

  /** The acknowledgement that a receiver of this make sends for a write request answers it: the same
      channel and the same counter. */
  lemma AckAnswersWrite(channelId: int, counter: int, g: GroupData)
    requires |g.data.txt| == TXT_DATA_SIZE && Bytes(g).Some?
    ensures var f := WriteFrame(channelId, counter, g); var ack := AckFrame(f[7], f[8]);
            HeadOf(ack) == HeadOf(f).(service := 0x0421, total := 10)
  {
    hide Bytes, WriteFrame;
    WriteHeadIsRead(channelId, counter, g);
    LowTwice(channelId);
    LowTwice(counter);
  }

  lemma LowTwice(n: int)
    ensures Low(Low(n)) == Low(n)
  {
  }

  /** An outcome behind frames already dispatched. */
  function PrependAll(log: seq<Found>, o: Outcome): Outcome {
    match o
    case Returns(frames, handled) => Returns(log + frames, handled)
    case LoopsForever => LoopsForever
  }

  lemma PrependMore(log: seq<Found>, f: Found, o: Outcome)
    ensures PrependAll(log, Prepend(f, o)) == PrependAll(log + [f], o)
  {
    if o.Returns? {
      assert log + ([f] + o.frames) == (log + [f]) + o.frames;
    }
  }

  lemma PrependToNone(o: Outcome)
    ensures PrependAll([], o) == o
  {
    if o.Returns? {
      assert [] + o.frames == o.frames;
    }
  }

  lemma PrependNothing(log: seq<Found>, handled: nat)
    ensures PrependAll(log, Returns([], handled)) == Returns(log, handled)
  {
    assert log + [] == log;
  }

  lemma CemiIgnoresPadding(addr: int, len: nat, b: seq<Byte>, padded: seq<Byte>)
    requires 1 <= |b| && len <= |b| && len < 255 && b <= padded
    ensures Cemi(addr, len, b) == Cemi(addr, len, padded)
  {
    assert padded[..len] == b[..len];
  }
}
