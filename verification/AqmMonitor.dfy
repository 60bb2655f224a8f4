/** The monitor object: a ring of four received messages feeds the scanner's carry-over buffer. */
module AqmMonitor {
  import opened Common
  import opened AqmScanner

  const MAX_DATA_COUNT := 4
  const MAX_DATA_LENGTH := 256
  const MAX_BUFFER_LEN := 1024

  /** A received message: the port it came from and its octets. */
  datatype Message = Message(index: int, data: seq<Byte>)

  datatype Report = Report(index: int, state: State)

  function Tag(index: int, states: seq<State>): (r: seq<Report>)
    ensures |r| == |states| && forall i | 0 <= i < |r| :: r[i] == Report(index, states[i])
  {
    if states == [] then [] else Tag(index, states[..|states| - 1]) + [Report(index, states[|states| - 1])]
  }

  function States(reports: seq<Report>): (r: seq<State>)
    ensures |r| == |reports| && forall i | 0 <= i < |r| :: r[i] == reports[i].state
  {
    if reports == [] then [] else States(reports[..|reports| - 1]) + [reports[|reports| - 1].state]
  }

  /** Handling messages in order, starting from the carried octets. */
  function Handle(carry: seq<Byte>, messages: seq<Message>): (seq<Report>, seq<Byte>)
    decreases |messages|
  {
    if messages == [] then ([], carry)
    else
      var n := |messages| - 1;
      var (before, carry1) := Handle(carry, messages[..n]);
      var (last, carry2) := Feed(carry1, messages[n].data);
      (before + Tag(messages[n].index, last), carry2)
  }

  function Stream(messages: seq<Message>): seq<Byte> {
    if messages == [] then [] else Stream(messages[..|messages| - 1]) + messages[|messages| - 1].data
  }

  /** Handling messages one by one reports what one scan of all their octets reports. */
  lemma {:induction false} HandlingIsOneScan(carry: seq<Byte>, messages: seq<Message>)
    requires |carry| < FRAME_LENGTH
    ensures var (reports, rest) := Handle(carry, messages);
            (States(reports), rest) == Feed(carry, Stream(messages)) && |rest| < FRAME_LENGTH
    decreases |messages|
  {
    if messages == [] {
      assert carry + [] == carry && carry[0..] == carry;
    } else {
      hide Feed, Tag, States;
      var n := |messages| - 1;
      HandlingIsOneScan(carry, messages[..n]);
      FeedGoesOn(carry, Stream(messages[..n]), messages[n].data);
      var (before, carry1) := Handle(carry, messages[..n]);
      StatesOfTagged(before, messages[n].index, Feed(carry1, messages[n].data).0);
    }
  }

  /** The reports behind the n-th are all of this port. */
  ghost predicate AllFrom(reports: seq<Report>, n: nat, index: int) {
    forall i | n <= i < |reports| :: reports[i].index == index
  }

  /** Handling one more message leaves the earlier reports and adds some of that message's port only. */
  lemma OneMoreMessage(carry: seq<Byte>, messages: seq<Message>, m: Message)
    ensures var before, after := Handle(carry, messages).0, Handle(carry, messages + [m]).0;
            before <= after && AllFrom(after, |before|, m.index)
  {
    hide Feed;
    assert (messages + [m])[..|messages|] == messages;
  }

  /** Each report names the port of the message that completed its frame: the reports that message k adds
      are those between the ones of the messages before it and the ones of the messages up to it. */
  lemma {:induction false} ReportsNameTheirPort(carry: seq<Byte>, messages: seq<Message>, k: nat)
    requires k < |messages|
    ensures var before, upTo, all :=
              Handle(carry, messages[..k]).0, Handle(carry, messages[..k + 1]).0, Handle(carry, messages).0;
            before <= upTo <= all && AllFrom(upTo, |before|, messages[k].index)
    decreases |messages|
  {
    hide Handle, AllFrom;
    var n := |messages| - 1;
    assert messages == messages[..n] + [messages[n]];
    if k < n {
      ReportsNameTheirPort(carry, messages[..n], k);
      assert messages[..n][..k] == messages[..k] && messages[..n][..k + 1] == messages[..k + 1];
      OneMoreMessage(carry, messages[..n], messages[n]);
    } else {
      OneMoreMessage(carry, messages[..k], messages[k]);
      assert messages[..k + 1] == messages;
    }
  }

  /** The reports behind the n-th are each of the port of one of these messages. */
  ghost predicate FromPorts(reports: seq<Report>, n: nat, messages: seq<Message>) {
    forall i | n <= i < |reports| :: exists m <- messages :: reports[i].index == m.index
  }

  lemma {:induction false} MoreMessages(carry: seq<Byte>, messages: seq<Message>, more: seq<Message>)
    ensures var before, after := Handle(carry, messages).0, Handle(carry, messages + more).0;
            before <= after && FromPorts(after, |before|, more)
    decreases |more|
  {
    if more == [] {
      assert messages + more == messages;
    } else {
      hide Handle;
      var n := |more| - 1;
      MoreMessages(carry, messages, more[..n]);
      OneMoreMessage(carry, messages + more[..n], more[n]);
      assert messages + more[..n] + [more[n]] == messages + more;
      assert more[n] in more && forall m <- more[..n] :: m in more;
    }
  }

  lemma StatesOfTagged(before: seq<Report>, index: int, states: seq<State>)
    ensures States(before + Tag(index, states)) == States(before) + states
  {
    hide Tag, States;
  }

  class Monitor {
    const buf: array<Byte>
    var currentLen: nat
    const slots: array<Message>
    var readIndex: nat
    var writeIndex: nat
    /** What the callback has received. */
    var reports: seq<Report>
    /** Messages added and not yet handled, and messages handled, both in arrival order. */
    ghost var pending: seq<Message>
    ghost var handled: seq<Message>

    ghost predicate BufferValid()
      reads this, buf
    {
      && buf.Length == MAX_BUFFER_LEN && currentLen < FRAME_LENGTH
      && (reports, buf[..currentLen]) == Handle([], handled)
    }

    /** The waiting messages lie in the slots from `start` on, around the end. */
    ghost predicate RingAt(start: nat)
      reads this, slots
    {
      && slots.Length == MAX_DATA_COUNT && start < MAX_DATA_COUNT && writeIndex < MAX_DATA_COUNT
      && |pending| == (if start <= writeIndex then 0 else MAX_DATA_COUNT) + writeIndex - start
      && (forall k | 0 <= k < |pending| :: pending[k] == slots[SlotOf(start, k)])
      && (forall k | 0 <= k < |pending| :: |pending[k].data| < MAX_DATA_LENGTH)
    }

    static function SlotOf(start: nat, k: nat): nat {
      if start + k < MAX_DATA_COUNT then start + k else start + k - MAX_DATA_COUNT
    }

    ghost predicate Valid()
      reads this, buf, slots
    {
      BufferValid() && RingAt(readIndex)
    }

    constructor ()
      ensures Valid() && fresh(buf) && fresh(slots)
      ensures pending == [] && handled == [] && reports == []
    {
      buf := new Byte[MAX_BUFFER_LEN](_ => 0);
      slots := new Message[MAX_DATA_COUNT](_ => Message(0, []));
      currentLen, readIndex, writeIndex := 0, 0, 0;
      reports, pending, handled := [], [], [];
    }

    /** Stores a message, at most 255 octets of it.  It joins the queue unless three messages are
        waiting already: then the ring looks empty and all four are lost. */
    method AddData(index: int, data: seq<Byte>)
      requires Valid()
      modifies this`writeIndex, this`pending, slots
      ensures Valid()
      ensures var m := Message(index, if |data| > MAX_DATA_LENGTH - 1 then data[..MAX_DATA_LENGTH - 1] else data);
              pending == if |old(pending)| < MAX_DATA_COUNT - 1 then old(pending) + [m] else []
    {
      var copyLen := if |data| > MAX_DATA_LENGTH - 1 then MAX_DATA_LENGTH - 1 else |data|;
      assert |data| == copyLen ==> data[..copyLen] == data;
      slots[writeIndex] := Message(index, data[..copyLen]);
      pending := if |pending| < MAX_DATA_COUNT - 1 then pending + [slots[writeIndex]] else [];
      writeIndex := writeIndex + 1;
      if writeIndex >= MAX_DATA_COUNT {
        writeIndex := 0;
      }
    }

    method GetCheckCode(start: nat, len: nat) returns (res: Byte)
      requires start + len <= buf.Length
      ensures res == Sum(buf[start..start + len]) % 256
    {
      res := 0;
      var index := 0;
      while index < len
        invariant index <= len && res == Sum(buf[start..start + index]) % 256
      {
        var ch: int := buf[start + index];
        assert buf[start..start + index + 1][..index] == buf[start..start + index];
        res := (res + ch) % 256;
        index := index + 1;
      }
    }

    /** Builds the state of a frame that has passed the checks; none when no sensor is installed. */
    method ReadState(start: nat) returns (states: seq<State>)
      requires start + FRAME_LENGTH <= buf.Length
      ensures states == Reading(buf[start..start + FRAME_LENGTH])
    {
      var installed := buf[start + 3];
      if installed % 16 == 0 {
        return [];
      }
      var co2, temperature, humidity, voc := 0, 0.0, 0.0, Normal;
      if Bit(installed, 8) {
        co2 := Unsigned2(buf[start + 4], buf[start + 5]);
      }
      if Bit(installed, 4) {
        temperature := Unsigned2(buf[start + 6], buf[start + 7]) as real / 10.0;
      }
      if Bit(installed, 2) {
        humidity := buf[start + 8] as real / 100.0;
      }
      if Bit(installed, 1) {
        if buf[start + 9] == 0x10 {
          voc := High;
        } else if buf[start + 9] == 0x40 {
          voc := VeryHigh;
        }
      }
      return [State(co2, temperature, humidity, voc)];
    }

    /** One iteration of the scanning loop. */
    method ScanStep(start: nat) returns (step: nat, states: seq<State>)
      requires start + FRAME_LENGTH <= buf.Length
      ensures (step, states) == MoveAt(buf[start..start + FRAME_LENGTH])
    {
      if buf[start] != 0xFA {
        return 1, [];
      }
      if buf[start + 1] != 0xF0 {
        return 2, [];
      }
      if buf[start + 11] != 0x05 {
        return 2, [];
      }
      var chSum := GetCheckCode(start, 10);
      assert buf[start..start + FRAME_LENGTH][..10] == buf[start..start + 10];
      if buf[start + 10] != chSum {
        return 12, [];
      }
      states := ReadState(start);
      step := 12;
    }

    /** Appends the message to the carried octets, reports every frame found and carries the rest.
        The room in the buffer always suffices, so nothing is cut off. */
    method HandleMessage(m: Message)
      requires BufferValid() && |m.data| < MAX_DATA_LENGTH
      modifies this`currentLen, this`reports, this`handled, buf
      ensures BufferValid() && handled == old(handled) + [m]
      ensures old(reports) <= reports && AllFrom(reports, |old(reports)|, m.index)
    {
      hide Scan;
      ghost var carry := buf[..currentLen];
      var copyLen := |m.data|;
      if copyLen > MAX_BUFFER_LEN - currentLen - 1 {
        copyLen := MAX_BUFFER_LEN - currentLen - 1;
      }
      assert copyLen == |m.data|;
      forall i | 0 <= i < copyLen {
        buf[currentLen + i] := m.data[i];
      }
      currentLen := currentLen + copyLen;
      ghost var s := carry + m.data;
      assert buf[..currentLen] == s;

      var found, curr := ScanBuffer();
      reports := reports + Tag(m.index, found);
      MoveLeft(curr);
      handled := handled + [m];
      assert handled[..|handled| - 1] == old(handled);
    }

    /** Scans what is in the buffer; returns what it reports and where it stops. */
    method ScanBuffer() returns (found: seq<State>, curr: nat)
      requires currentLen <= buf.Length
      ensures (found, curr) == Scan(buf[..currentLen], 0)
    {
      hide MoveAt;
      ghost var s := buf[..currentLen];
      found, curr := [], 0;
      assert found + Scan(s, 0).0 == Scan(s, 0).0;
      while currentLen - curr >= FRAME_LENGTH
        invariant curr <= currentLen
        invariant Scan(s, 0) == (found + Scan(s, curr).0, Scan(s, curr).1)
        decreases currentLen - curr
      {
        assert buf[curr..curr + FRAME_LENGTH] == s[curr..curr + FRAME_LENGTH];
        var step, states := ScanStep(curr);
        assert found + (states + Scan(s, curr + step).0) == (found + states) + Scan(s, curr + step).0;
        found := found + states;
        curr := curr + step;
      }
      assert found + [] == found;
    }

    /** Moves the octets from `curr` on to the front and clears the rest of the buffer. */
    method MoveLeft(curr: nat)
      requires curr <= currentLen <= buf.Length
      modifies this`currentLen, buf
      ensures currentLen == old(currentLen) - curr
      ensures buf[..currentLen] == old(buf[curr..currentLen])
      ensures forall i | currentLen <= i < buf.Length :: buf[i] == 0
    {
      var leftLen := currentLen - curr;
      var left := buf[curr..currentLen];
      forall i | 0 <= i < buf.Length {
        buf[i] := 0;
      }
      forall i | 0 <= i < leftLen {
        buf[i] := left[i];
      }
      currentLen := leftLen;
    }

    /** Handles the message at the read index and steps past it, without wrapping. */
    method HandleSlot()
      requires Valid() && pending != []
      modifies this`currentLen, this`reports, this`handled, this`readIndex, this`pending, buf, slots
      ensures handled == old(handled) + [old(pending[0])] && pending == old(pending[1..])
      ensures old(reports) <= reports && AllFrom(reports, |old(reports)|, old(pending[0]).index)
      ensures BufferValid() && readIndex == old(readIndex) + 1
      ensures RingAt(if readIndex == MAX_DATA_COUNT then 0 else readIndex)
    {
      hide Handle;
      assert pending[0] == slots[readIndex];
      HandleMessage(slots[readIndex]);
      slots[readIndex] := slots[readIndex].(data := []);
      readIndex := readIndex + 1;
      pending := pending[1..];
    }

    /** The loop up to the last slot, after which the read index is back at the first. */
    method HandleToEnd()
      requires Valid() && readIndex > writeIndex
      modifies this`currentLen, this`reports, this`handled, this`readIndex, this`pending, buf, slots
      ensures Valid() && readIndex == 0 && handled + pending == old(handled + pending)
    {
      hide Handle;
      ghost var all := handled + pending;
      while readIndex < MAX_DATA_COUNT
        invariant BufferValid() && handled + pending == all
        invariant writeIndex < readIndex && RingAt(readIndex)
        decreases MAX_DATA_COUNT - readIndex
      {
        assert handled + pending == (handled + [pending[0]]) + pending[1..];
        HandleSlot();
        if readIndex >= MAX_DATA_COUNT {
          readIndex := 0;
          break;
        }
      }
    }

    /** The loop up to the write index. */
    method HandleToWriteIndex()
      requires Valid() && readIndex <= writeIndex
      modifies this`currentLen, this`reports, this`handled, this`readIndex, this`pending, buf, slots
      ensures Valid() && pending == [] && handled == old(handled + pending)
    {
      hide Handle;
      ghost var all := handled + pending;
      while readIndex < writeIndex
        invariant Valid() && readIndex <= writeIndex && handled + pending == all
      {
        assert handled + pending == (handled + [pending[0]]) + pending[1..];
        HandleSlot();
      }
      assert handled + [] == handled;
    }

    /** Drains the ring in arrival order, around the end of the slots if need be. */
    method DoHandleWork()
      requires Valid()
      modifies this`currentLen, this`reports, this`handled, this`readIndex, this`pending, buf, slots
      ensures Valid() && pending == [] && handled == old(handled) + old(pending)
      ensures old(reports) <= reports && FromPorts(reports, |old(reports)|, old(pending))
    {
      MoreMessages([], handled, pending);
      hide Handle, FromPorts;
      if readIndex == writeIndex {
        assert handled + pending == handled;
        return;
      }
      if readIndex > writeIndex {
        HandleToEnd();
      }
      HandleToWriteIndex();
    }

    /** In every state that calls can lead to, the reports are those of one scan of the octets of all
        handled messages. */
    lemma ReportsAreOneScan()
      requires Valid()
      ensures States(reports) == Scan(Stream(handled), 0).0
    {
      HandlingIsOneScan([], handled);
      assert [] + Stream(handled) == Stream(handled);
    }
  }
}
