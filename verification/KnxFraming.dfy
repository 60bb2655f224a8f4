/**
 Finding the frames in a receive buffer.  The scanner skips octets that do not begin a header and
 trusts the length field of the headers it finds, so a header of length zero makes it stand still.
 */
module KnxFraming {
  import opened Common
  import opened KnxDpt
  import opened KnxFrame

  const HEADER_SIZE := 6

  datatype Found = Found(service: int, start: nat, total: nat)

  /** What one iteration of the receive loop does at a position. */
  datatype Move = Stop(handled: nat) | Skip(octets: nat) | Dispatch(service: int, total: nat)

  function MoveAt(buf: seq<Byte>, pos: nat): (m: Move)
    requires pos <= |buf|
    ensures m.Stop? ==> pos <= m.handled <= |buf|
    ensures m.Skip? ==> 0 < m.octets && pos + m.octets <= |buf|
    ensures m.Dispatch? ==> pos + m.total <= |buf|
  {
    if |buf| - pos <= HEADER_SIZE then Stop(pos)
    else if buf[pos] != HEADER_SIZE_10 then Skip(1)
    else if buf[pos + 1] != VERSION_10 then Skip(2)
    else
      var total := Unsigned2(buf[pos + 4], buf[pos + 5]);
      if |buf| - pos < total then Stop(|buf|)
      else Dispatch(Unsigned2(buf[pos + 2], buf[pos + 3]), total)
  }

  datatype Outcome = Returns(frames: seq<Found>, handled: nat) | LoopsForever

  function Prepend(f: Found, o: Outcome): Outcome {
    match o
    case Returns(frames, handled) => Returns([f] + frames, handled)
    case LoopsForever => LoopsForever
  }

  /** The frames dispatched from a position on, and the count returned. */
  function Scan(buf: seq<Byte>, pos: nat): (o: Outcome)
    requires pos <= |buf|
    decreases |buf| - pos
  {
    match MoveAt(buf, pos)
    case Stop(handled) => Returns([], handled)
    case Skip(octets) => Scan(buf, pos + octets)
    case Dispatch(service, total) =>
      if total == 0 then LoopsForever else Prepend(Found(service, pos, total), Scan(buf, pos + total))
  }

  // ---------- termination ----------

  /** The position after k iterations, as long as the loop has not been left. */
  function Iterate(buf: seq<Byte>, pos: nat, k: nat): (r: Option<nat>)
    requires pos <= |buf|
    ensures r.Some? ==> pos <= r.value <= |buf|
    decreases k
  {
    if k == 0 then Some(pos)
    else
      match MoveAt(buf, pos)
      case Stop(_) => None
      case Skip(octets) => Iterate(buf, pos + octets, k - 1)
      case Dispatch(_, total) => Iterate(buf, pos + total, k - 1)
  }

  lemma {:induction false} LoopingNeverLeaves(buf: seq<Byte>, pos: nat, k: nat)
    requires pos <= |buf| && Scan(buf, pos) == LoopsForever
    ensures Iterate(buf, pos, k).Some?
    decreases k
  {
    if k > 0 {
      match MoveAt(buf, pos)
      case Skip(octets) => LoopingNeverLeaves(buf, pos + octets, k - 1);
      case Dispatch(_, total) => LoopingNeverLeaves(buf, pos + total, k - 1);
    }
  }

  lemma {:induction false} ReturningLeaves(buf: seq<Byte>, pos: nat)
    requires pos <= |buf| && Scan(buf, pos).Returns?
    ensures Iterate(buf, pos, |buf| - pos + 1).None?
    decreases |buf| - pos
  {
    match MoveAt(buf, pos)
    case Stop(_) =>
    case Skip(octets) =>
      ReturningLeaves(buf, pos + octets);
      IterateMore(buf, pos + octets, |buf| - pos - octets + 1, |buf| - pos);
    case Dispatch(_, total) =>
      ReturningLeaves(buf, pos + total);
      IterateMore(buf, pos + total, |buf| - pos - total + 1, |buf| - pos);
  }

  lemma {:induction false} IterateMore(buf: seq<Byte>, pos: nat, j: nat, k: nat)
    requires pos <= |buf| && j <= k && Iterate(buf, pos, j).None?
    ensures Iterate(buf, pos, k).None?
    decreases k
  {
    if k > 0 && j > 0 {
      match MoveAt(buf, pos)
      case Stop(_) =>
      case Skip(octets) => IterateMore(buf, pos + octets, j - 1, k - 1);
      case Dispatch(_, total) => IterateMore(buf, pos + total, j - 1, k - 1);
    }
  }

  /** After k iterations the loop stands at a header whose length field is zero. */
  ghost predicate StandsOnZeroLength(buf: seq<Byte>, pos: nat, k: nat)
    requires pos <= |buf|
  {
    && Iterate(buf, pos, k).Some?
    && |buf| - Iterate(buf, pos, k).value > HEADER_SIZE
    && ZeroLengthHeader(buf, Iterate(buf, pos, k).value)
  }

  ghost predicate ZeroLengthHeader(buf: seq<Byte>, i: nat)
    requires i + HEADER_SIZE <= |buf|
  {
    buf[i] == HEADER_SIZE_10 && buf[i + 1] == VERSION_10 && Unsigned2(buf[i + 4], buf[i + 5]) == 0
  }

  /** A scan that loops forever comes to such a header. */
  lemma {:induction false} LoopingMeetsZeroLength(buf: seq<Byte>, pos: nat) returns (k: nat)
    requires pos <= |buf| && Scan(buf, pos) == LoopsForever
    ensures StandsOnZeroLength(buf, pos, k)
    decreases |buf| - pos
  {
    match MoveAt(buf, pos)
    case Skip(octets) =>
      var j := LoopingMeetsZeroLength(buf, pos + octets);
      k := j + 1;
    case Dispatch(_, total) =>
      if total == 0 {
        k := 0;
      } else {
        var j := LoopingMeetsZeroLength(buf, pos + total);
        k := j + 1;
      }
  }

  /** Once there, it stays there. */
  lemma {:induction false} ZeroLengthLoops(buf: seq<Byte>, pos: nat, k: nat)
    requires pos <= |buf| && StandsOnZeroLength(buf, pos, k)
    ensures Scan(buf, pos) == LoopsForever
    decreases k
  {
    if k > 0 {
      match MoveAt(buf, pos)
      case Skip(octets) => ZeroLengthLoops(buf, pos + octets, k - 1);
      case Dispatch(_, total) =>
        if total != 0 { ZeroLengthLoops(buf, pos + total, k - 1); }
    }
  }

  /** The receive loop is never left exactly when it comes to stand at a header whose length is zero. */
  lemma LoopsExactlyOnZeroLength(buf: seq<Byte>)
    ensures (forall k: nat :: Iterate(buf, 0, k).Some?) <==> exists k: nat :: StandsOnZeroLength(buf, 0, k)
  {
    if Scan(buf, 0) == LoopsForever {
      forall k: nat ensures Iterate(buf, 0, k).Some? { LoopingNeverLeaves(buf, 0, k); }
      var k := LoopingMeetsZeroLength(buf, 0);
    } else {
      ReturningLeaves(buf, 0);
      forall k: nat ensures !StandsOnZeroLength(buf, 0, k) {
        if StandsOnZeroLength(buf, 0, k) { ZeroLengthLoops(buf, 0, k); }
      }
    }
  }

  const STUCK_DATAGRAM: seq<Byte> := [0x06, 0x10, 0x04, 0x20, 0, 0, 0]

  /** A datagram of seven octets that the loop never gets past. */
  lemma {:induction false} ZeroLengthDatagram(k: nat)
    ensures Iterate(STUCK_DATAGRAM, 0, k) == Some(0)
  {
    StuckMove();
    hide MoveAt;
    if k > 0 { ZeroLengthDatagram(k - 1); }
  }

  lemma StuckMove()
    ensures MoveAt(STUCK_DATAGRAM, 0) == Dispatch(0x0420, 0)
  {
  }

  /** No header anywhere in the buffer has length zero. */
  ghost predicate LengthsNonzero(buf: seq<Byte>) {
    forall i: nat :: i + HEADER_SIZE <= |buf| ==> !ZeroLengthHeader(buf, i)
  }

  lemma DispatchMoves(buf: seq<Byte>, pos: nat)
    requires pos <= |buf| && LengthsNonzero(buf) && MoveAt(buf, pos).Dispatch?
    ensures MoveAt(buf, pos).total > 0
  {
    assert !ZeroLengthHeader(buf, pos);
  }

  lemma {:induction false} NonzeroLengthsReturn(buf: seq<Byte>, pos: nat)
    requires pos <= |buf| && LengthsNonzero(buf)
    ensures Scan(buf, pos).Returns?
    decreases |buf| - pos
  {
    hide MoveAt, LengthsNonzero;
    match MoveAt(buf, pos)
    case Stop(_) =>
    case Skip(octets) => NonzeroLengthsReturn(buf, pos + octets);
    case Dispatch(_, total) =>
      DispatchMoves(buf, pos);
      NonzeroLengthsReturn(buf, pos + total);
  }

  /** Without a zero-length header the loop is left after at most one iteration for each octet. */
  lemma NonzeroLengthsLeave(buf: seq<Byte>)
    requires LengthsNonzero(buf)
    ensures Iterate(buf, 0, |buf| + 1).None?
  {
    NonzeroLengthsReturn(buf, 0);
    ReturningLeaves(buf, 0);
  }

  // ---------- well-formed buffers ----------

  /** A frame headed as by FillHeader, with its true length. */
  ghost predicate IsFrame(f: seq<Byte>) {
    && |f| > HEADER_SIZE
    && f[0] == HEADER_SIZE_10 && f[1] == VERSION_10
    && Unsigned2(f[4], f[5]) == |f|
  }

  /** The frames of a buffer, with the offset of each. */
  ghost function Expected(frames: seq<seq<Byte>>, start: nat): seq<Found>
    requires forall f <- frames :: IsFrame(f)
  {
    if frames == [] then []
    else
      assert IsFrame(frames[0]);
      [Found(Unsigned2(frames[0][2], frames[0][3]), start, |frames[0]|)] + Expected(frames[1..], start + |frames[0]|)
  }

  /** A buffer that goes on with a frame: the frame is dispatched and the scan goes on behind it. */
  lemma FrameFirst(buf: seq<Byte>, pos: nat, f: seq<Byte>, rest: seq<Byte>)
    requires IsFrame(f) && pos <= |buf| && buf[pos..] == f + rest
    ensures pos + |f| <= |buf| && buf[pos + |f|..] == rest
    ensures Scan(buf, pos) == Prepend(Found(Unsigned2(f[2], f[3]), pos, |f|), Scan(buf, pos + |f|))
  {
    assert |buf[pos..]| == |buf| - pos;
    assert forall i | 0 <= i < |f| :: buf[pos + i] == buf[pos..][i] == f[i];
    assert buf[pos + |f|..] == buf[pos..][|f|..];
    hide Unsigned2;
  }

  lemma {:induction false} ScanFrames(buf: seq<Byte>, pos: nat, frames: seq<seq<Byte>>)
    requires forall f <- frames :: IsFrame(f)
    requires pos <= |buf| && buf[pos..] == Join(frames)
    ensures Scan(buf, pos) == Returns(Expected(frames, pos), |buf|)
    decreases |frames|
  {
    if frames != [] {
      var f := frames[0];
      assert IsFrame(f);
      FrameFirst(buf, pos, f, Join(frames[1..]));
      hide Scan;
      ScanFrames(buf, pos + |f|, frames[1..]);
    }
  }

  /** Main result: after a prefix without the octet 0x06, every frame is dispatched once, in order,
      and the whole buffer is reported as handled. */
  lemma {:induction false} FramesAreFound(buf: seq<Byte>, pos: nat, frames: seq<seq<Byte>>, prefix: nat)
    requires (forall f <- frames :: IsFrame(f)) && (frames != [] || pos == prefix)
    requires pos <= prefix <= |buf| && buf[prefix..] == Join(frames)
    requires forall i | pos <= i < prefix :: buf[i] != HEADER_SIZE_10
    ensures Scan(buf, pos) == Returns(Expected(frames, prefix), |buf|)
    decreases prefix - pos
  {
    if pos == prefix {
      ScanFrames(buf, pos, frames);
    } else {
      assert IsFrame(frames[0]);
      assert |Join(frames)| >= |frames[0]|;
      FramesAreFound(buf, pos + 1, frames, prefix);
    }
  }

  /** The beginning of a frame that is longer than what there is. */
  ghost predicate IsCutFrame(f: seq<Byte>) {
    |f| > HEADER_SIZE && f[0] == HEADER_SIZE_10 && f[1] == VERSION_10 && Unsigned2(f[4], f[5]) > |f|
  }

  /** A frame cut off by the end of the buffer is dropped, behind the frames before it, and what there is
      of it is reported as handled; at most six octets at the end are left instead. */
  lemma {:induction false} CutFrameIsDropped(buf: seq<Byte>, pos: nat, frames: seq<seq<Byte>>, rest: seq<Byte>)
    requires (forall f <- frames :: IsFrame(f)) && (IsCutFrame(rest) || |rest| <= HEADER_SIZE)
    requires pos <= |buf| && buf[pos..] == Join(frames) + rest
    ensures Scan(buf, pos) ==
              Returns(Expected(frames, pos), if IsCutFrame(rest) then |buf| else |buf| - |rest|)
    decreases |frames|
  {
    if frames == [] {
      assert Join(frames) + rest == rest;
      assert forall i | 0 <= i < |rest| :: buf[pos + i] == rest[i];
    } else {
      var f := frames[0];
      assert IsFrame(f);
      assert Join(frames) + rest == f + (Join(frames[1..]) + rest);
      FrameFirst(buf, pos, f, Join(frames[1..]) + rest);
      hide Scan, IsCutFrame;
      CutFrameIsDropped(buf, pos + |f|, frames[1..], rest);
    }
  }

  lemma {:induction false} FoundAhead(buf: seq<Byte>, pos: nat)
    requires pos <= |buf| && Scan(buf, pos).Returns?
    ensures forall x <- Scan(buf, pos).frames :: x.start >= pos
    decreases |buf| - pos
  {
    hide MoveAt;
    match MoveAt(buf, pos)
    case Stop(_) =>
    case Skip(octets) => FoundAhead(buf, pos + octets);
    case Dispatch(_, total) => FoundAhead(buf, pos + total);
  }

  /** The loop from `pos` comes to position p. */
  predicate Visits(buf: seq<Byte>, pos: nat, p: nat)
    requires pos <= |buf|
    decreases |buf| - pos
  {
    pos == p ||
    (pos < p &&
     match MoveAt(buf, pos)
     case Stop(_) => false
     case Skip(octets) => Visits(buf, pos + octets, p)
     case Dispatch(_, total) => total > 0 && Visits(buf, pos + total, p))
  }

  /** At q the loop does not get to p: it takes 0x06 right before p for a header of another version, or it
      finds a header whose length is zero or reaches beyond p. */
  predicate Hides(buf: seq<Byte>, p: nat, q: nat)
    requires q < p && p + HEADER_SIZE < |buf|
  {
    && buf[q] == HEADER_SIZE_10
    && if buf[q + 1] != VERSION_10 then q + 1 == p
       else Unsigned2(buf[q + 4], buf[q + 5]) == 0 || Unsigned2(buf[q + 4], buf[q + 5]) > p - q
  }

  /** A frame stands at p in the buffer. */
  ghost predicate FrameAt(buf: seq<Byte>, p: nat) {
    && p + HEADER_SIZE < |buf| && buf[p] == HEADER_SIZE_10 && buf[p + 1] == VERSION_10
    && HEADER_SIZE < Unsigned2(buf[p + 4], buf[p + 5]) <= |buf| - p
  }

  lemma StepToward(buf: seq<Byte>, q: nat, p: nat)
    requires q < p && FrameAt(buf, p) && !Hides(buf, p, q)
    ensures var m := MoveAt(buf, q);
            if m.Skip? then q + m.octets <= p else m.Dispatch? && m.total > 0 && q + m.total <= p
  {
    hide Unsigned2;
  }

  lemma HiddenIsNotVisited(buf: seq<Byte>, q: nat, p: nat)
    requires q < p && FrameAt(buf, p) && Hides(buf, p, q)
    ensures !Visits(buf, q, p)
  {
    var m := MoveAt(buf, q);
    if m.Skip? {
      assert !Visits(buf, q + m.octets, p);
    } else if m.Dispatch? && m.total > 0 {
      assert !Visits(buf, q + m.total, p);
    }
  }

  ghost predicate NeverHidden(buf: seq<Byte>, pos: nat, p: nat)
    requires pos <= |buf| && FrameAt(buf, p)
  {
    forall q: nat | pos <= q < p && Visits(buf, pos, q) :: !Hides(buf, p, q)
  }

  lemma {:induction false} VisitedUnlessHidden(buf: seq<Byte>, pos: nat, p: nat)
    requires pos <= p && FrameAt(buf, p)
    ensures Visits(buf, pos, p) <==> NeverHidden(buf, pos, p)
    decreases p - pos
  {
    hide MoveAt, Hides;
    assert p < |buf|;
    if pos < p {
      assert Visits(buf, pos, pos);
      if Hides(buf, p, pos) {
        HiddenIsNotVisited(buf, pos, p);
      } else {
        StepToward(buf, pos, p);
        var m := MoveAt(buf, pos);
        var next := if m.Skip? then pos + m.octets else pos + m.total;
        VisitedUnlessHidden(buf, next, p);
        assert forall q: nat | next <= q < p :: Visits(buf, pos, q) <==> Visits(buf, next, q);
        assert forall q: nat | pos < q < next :: !Visits(buf, pos, q);
      }
    }
  }

  function FrameFound(buf: seq<Byte>, p: nat): Found
    requires p + HEADER_SIZE < |buf|
  {
    Found(Unsigned2(buf[p + 2], buf[p + 3]), p, Unsigned2(buf[p + 4], buf[p + 5]))
  }

  lemma MoveAtFrame(buf: seq<Byte>, p: nat)
    requires FrameAt(buf, p)
    ensures var f := FrameFound(buf, p); MoveAt(buf, p) == Dispatch(f.service, f.total) && f.total > 0
  {
    hide Unsigned2;
  }

  /** A scan that returns has dispatched the frames at the positions it comes to. */
  lemma {:induction false} VisitedIsFound(buf: seq<Byte>, pos: nat, p: nat)
    requires pos <= p && FrameAt(buf, p) && Scan(buf, pos).Returns?
    ensures FrameFound(buf, p) in Scan(buf, pos).frames <==> Visits(buf, pos, p)
    decreases |buf| - pos, 0
  {
    MoveAtFrame(buf, p);
    hide MoveAt, FrameFound;
    if pos < p {
      match MoveAt(buf, pos)
      case Stop(_) =>
      case Skip(octets) => VisitedBehind(buf, pos + octets, p);
      case Dispatch(_, total) => VisitedBehind(buf, pos + total, p);
    }
  }

  lemma VisitedBehind(buf: seq<Byte>, next: nat, p: nat)
    requires next <= |buf| && FrameAt(buf, p) && Scan(buf, next).Returns?
    ensures FrameFound(buf, p) in Scan(buf, next).frames <==> Visits(buf, next, p)
    decreases |buf| - next, 1
  {
    if next <= p { VisitedIsFound(buf, next, p); } else { FoundAhead(buf, next); }
  }

  /** Behind anything at all, a scan that returns has dispatched a whole frame exactly when at no position
      that the loop comes to before it the octets hide it. */
  lemma FrameIsDispatchedUnlessHidden(buf: seq<Byte>, p: nat)
    requires FrameAt(buf, p) && Scan(buf, 0).Returns?
    ensures FrameFound(buf, p) in Scan(buf, 0).frames
            <==> forall q: nat | q < p && Visits(buf, 0, q) :: !Hides(buf, p, q)
  {
    hide FrameFound, Scan;
    VisitedUnlessHidden(buf, 0, p);
    VisitedIsFound(buf, 0, p);
  }

  /** A single 0x06 right before a frame hides it: the scanner moves on by two octets. */
  lemma LoneSizeOctetHidesFrame(f: seq<Byte>)
    requires IsFrame(f)
    ensures var buf := [HEADER_SIZE_10] + f;
            FrameAt(buf, 1) && (Scan(buf, 0).Returns? ==> FrameFound(buf, 1) !in Scan(buf, 0).frames)
  {
    var buf := [HEADER_SIZE_10] + f;
    assert buf[1] == f[0] && buf[2] == f[1] && buf[5] == f[4] && buf[6] == f[5];
    assert Visits(buf, 0, 0) && Hides(buf, 1, 0);
    hide Scan, Visits, Hides, FrameFound;
    if Scan(buf, 0).Returns? { FrameIsDispatchedUnlessHidden(buf, 1); }
  }

  /** The gateway's own write requests are such frames. */
  lemma WriteFrameIsFrame(channelId: int, counter: int, g: GroupData)
    requires |g.data.txt| == TXT_DATA_SIZE && Bytes(g).Some?
    ensures IsFrame(WriteFrame(channelId, counter, g))
  {
    hide Bytes, Low, Payload;
    WriteFrameShape(channelId, counter, g);
  }
}
