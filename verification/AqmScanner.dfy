/**
 The frame scanner of the AQM-1000 air monitor.  A frame is twelve octets: 0xFA 0xF0, an address,
 the installed sensors, six octets of readings, a checksum and 0x05.  The receive buffer is taken as
 unsigned octets, which is what the comparisons with 0xFA and 0xF0 presuppose.
 */
module AqmScanner {
  import opened Arithmetic
  import opened ByteSwap
  import opened Common

  const FRAME_LENGTH := 12

  datatype Voc = Normal | High | VeryHigh

  datatype State = State(co2: int, temperature: real, humidity: real, voc: Voc)

  function Sum(s: seq<Byte>): int {
    if s == [] then 0 else Sum(s[..|s| - 1]) + s[|s| - 1]
  }

  function Bit(octet: Byte, weight: int): bool
    requires weight > 0
  {
    octet / weight % 2 == 1
  }

  /** The state that a valid frame reports, if any sensor is installed. */
  function Reading(f: seq<Byte>): seq<State>
    requires |f| == FRAME_LENGTH
  {
    if f[3] % 16 == 0 then []
    else
      [State(if Bit(f[3], 8) then Unsigned2(f[4], f[5]) else 0,
             if Bit(f[3], 4) then Unsigned2(f[6], f[7]) as real / 10.0 else 0.0,
             if Bit(f[3], 2) then f[8] as real / 100.0 else 0.0,
             if !Bit(f[3], 1) then Normal
             else if f[9] == 0x10 then High
             else if f[9] == 0x40 then VeryHigh
             else Normal)]
  }

  /** How far the scanner moves at a full window, and what it reports there. */
  function MoveAt(f: seq<Byte>): (m: (nat, seq<State>))
    requires |f| == FRAME_LENGTH
    ensures 0 < m.0 <= FRAME_LENGTH
  {
    if f[0] != 0xFA then (1, [])
    else if f[1] != 0xF0 then (2, [])
    else if f[11] != 0x05 then (2, [])
    else if f[10] != Sum(f[..10]) % 256 then (12, [])
    else (12, Reading(f))
  }

  /** Scans from a position to the end; returns the reports and the first position not consumed. */
  function Scan(s: seq<Byte>, pos: nat): (r: (seq<State>, nat))
    requires pos <= |s|
    ensures pos <= r.1 <= |s| && |s| - r.1 < FRAME_LENGTH
    decreases |s| - pos
  {
    if |s| - pos < FRAME_LENGTH then ([], pos)
    else
      var (step, here) := MoveAt(s[pos..pos + FRAME_LENGTH]);
      var (later, end) := Scan(s, pos + step);
      (here + later, end)
  }

  // ---------- incremental scanning ----------

  /** One call: the carried octets and the new ones are scanned, the rest is carried on. */
  function Feed(carry: seq<Byte>, chunk: seq<Byte>): (r: (seq<State>, seq<Byte>))
    ensures |r.1| < FRAME_LENGTH
  {
    var (reports, end) := Scan(carry + chunk, 0);
    (reports, (carry + chunk)[end..])
  }

  function FeedAll(carry: seq<Byte>, chunks: seq<seq<Byte>>): (seq<State>, seq<Byte>)
    decreases |chunks|
  {
    if chunks == [] then ([], carry)
    else
      var (first, carry1) := Feed(carry, chunks[0]);
      var (rest, carry2) := FeedAll(carry1, chunks[1..]);
      (first + rest, carry2)
  }

  /** The scanner's position is all it remembers: scanning from pos is scanning the rest from 0. */
  lemma {:induction false} ScanFromRest(s: seq<Byte>, pos: nat, base: nat)
    requires base <= pos <= |s|
    ensures Scan(s, pos) == (Scan(s[base..], pos - base).0, base + Scan(s[base..], pos - base).1)
    decreases |s| - pos
  {
    hide MoveAt;
    if |s| - pos >= FRAME_LENGTH {
      assert s[base..][pos - base..pos - base + FRAME_LENGTH] == s[pos..pos + FRAME_LENGTH];
      ScanFromRest(s, pos + MoveAt(s[pos..pos + FRAME_LENGTH]).0, base);
    }
  }

  /** More input does not change what has been scanned; the scan goes on where it stopped. */
  lemma {:induction false} ScanGoesOn(a: seq<Byte>, b: seq<Byte>, pos: nat)
    requires pos <= |a|
    ensures var (r1, end1) := Scan(a, pos); var (r2, end2) := Scan(a + b, end1);
            Scan(a + b, pos) == (r1 + r2, end2)
    decreases |a| - pos
  {
    hide MoveAt;
    var (r1, end1) := Scan(a, pos);
    var (r2, end2) := Scan(a + b, end1);
    if |a| - pos >= FRAME_LENGTH {
      assert (a + b)[pos..pos + FRAME_LENGTH] == a[pos..pos + FRAME_LENGTH];
      var (step, here) := MoveAt(a[pos..pos + FRAME_LENGTH]);
      ScanGoesOn(a, b, pos + step);
      assert here + (Scan(a, pos + step).0 + r2) == r1 + r2;
    } else {
      assert r1 + r2 == r2;
    }
  }

  /** Feeding two chunks at once is feeding the second after the first. */
  lemma FeedGoesOn(carry: seq<Byte>, chunk: seq<Byte>, rest: seq<Byte>)
    ensures var (r1, carry1) := Feed(carry, chunk); var (r2, carry2) := Feed(carry1, rest);
            Feed(carry, chunk + rest) == (r1 + r2, carry2)
  {
    hide MoveAt;
    var s := carry + chunk;
    var end := Scan(s, 0).1;
    assert carry + (chunk + rest) == s + rest;
    ScanGoesOn(s, rest, 0);
    assert (s + rest)[end..] == s[end..] + rest;
    ScanFromRest(s + rest, end, end);
    var k := Scan(s[end..] + rest, 0).1;
    assert (s[end..] + rest)[k..] == (s + rest)[end + k..];
  }

  /** Main result: however a stream is cut into chunks, the successive calls report exactly the
      states, in order, that one scan of the whole stream reports, and carry the same octets on. */
  lemma {:induction false} IncrementalIsBatch(carry: seq<Byte>, chunks: seq<seq<Byte>>)
    requires |carry| < FRAME_LENGTH
    ensures FeedAll(carry, chunks) == Feed(carry, Join(chunks))
    decreases |chunks|
  {
    if chunks == [] {
      assert carry + [] == carry && carry[0..] == carry;
    } else {
      hide Feed;
      IncrementalIsBatch(Feed(carry, chunks[0]).1, chunks[1..]);
      FeedGoesOn(carry, chunks[0], Join(chunks[1..]));
    }
  }

  // ---------- streams of frames ----------

  predicate IsFrame(f: seq<Byte>) {
    |f| == FRAME_LENGTH && f[0] == 0xFA && f[1] == 0xF0 && f[10] == Sum(f[..10]) % 256 && f[11] == 0x05
  }

  function Readings(frames: seq<seq<Byte>>): seq<State>
    requires forall f <- frames :: IsFrame(f)
  {
    if frames == [] then []
    else
      assert IsFrame(frames[0]);
      Reading(frames[0]) + Readings(frames[1..])
  }

  /** Resynchronisation: octets without 0xFA in front do not disturb the frames that follow, and each
      frame is reported once, in order, with nothing left over. */
  lemma {:induction false} FramesAreReported(s: seq<Byte>, pos: nat, frames: seq<seq<Byte>>, prefix: nat)
    requires forall f <- frames :: IsFrame(f)
    requires pos <= prefix <= |s| && s[prefix..] == Join(frames) && (frames != [] || pos == prefix)
    requires forall i | pos <= i < prefix :: s[i] != 0xFA
    ensures Scan(s, pos) == (Readings(frames), |s|)
    decreases |s| - pos
  {
    if frames != [] {
      hide Reading, MoveAt;
      var f := frames[0];
      assert IsFrame(f);
      assert s[prefix..prefix + FRAME_LENGTH] == f;
      if pos < prefix {
        MoveAtOther(s[pos..pos + FRAME_LENGTH]);
        FramesAreReported(s, pos + 1, frames, prefix);
        assert [] + Readings(frames) == Readings(frames);
      } else {
        MoveAtFrame(f);
        assert s[pos + FRAME_LENGTH..] == Join(frames[1..]);
        FramesAreReported(s, pos + FRAME_LENGTH, frames[1..], pos + FRAME_LENGTH);
      }
    }
  }

  lemma MoveAtFrame(f: seq<Byte>)
    requires IsFrame(f)
    ensures MoveAt(f) == (FRAME_LENGTH, Reading(f))
  {
  }

  lemma MoveAtOther(f: seq<Byte>)
    requires |f| == FRAME_LENGTH && f[0] != 0xFA
    ensures MoveAt(f) == (1, [])
  {
  }

  // ---------- frames behind arbitrary octets ----------

  function WindowAt(s: seq<Byte>, pos: nat): (f: seq<Byte>)
    requires pos + FRAME_LENGTH <= |s|
    ensures |f| == FRAME_LENGTH
  {
    s[pos..pos + FRAME_LENGTH]
  }

  /** Where the scan goes on after a position. */
  function NextPos(s: seq<Byte>, pos: nat): (next: nat)
    requires pos + FRAME_LENGTH <= |s|
    ensures pos < next <= |s|
  {
    pos + MoveAt(WindowAt(s, pos)).0
  }

  /** The scan from `pos` comes to position p. */
  predicate Visits(s: seq<Byte>, pos: nat, p: nat)
    requires pos <= |s|
    decreases |s| - pos
  {
    pos == p || (pos < p && pos + FRAME_LENGTH <= |s| && Visits(s, NextPos(s, pos), p))
  }

  /** The positions at which the scan finds a frame. */
  function Starts(s: seq<Byte>, pos: nat): seq<nat>
    requires pos <= |s|
    decreases |s| - pos
  {
    if pos + FRAME_LENGTH > |s| then []
    else (if IsFrame(WindowAt(s, pos)) then [pos] else []) + Starts(s, NextPos(s, pos))
  }

  predicate FramesAt(s: seq<Byte>, starts: seq<nat>) {
    forall p <- starts :: p + FRAME_LENGTH <= |s| && IsFrame(WindowAt(s, p))
  }

  function ReadingsAt(s: seq<Byte>, starts: seq<nat>): seq<State>
    requires FramesAt(s, starts)
  {
    if starts == [] then []
    else
      assert starts[0] in starts;
      Reading(WindowAt(s, starts[0])) + ReadingsAt(s, starts[1..])
  }

  lemma OtherReportsNothing(f: seq<Byte>)
    requires |f| == FRAME_LENGTH && !IsFrame(f)
    ensures MoveAt(f).1 == []
  {
  }

  lemma ReadingsCons(s: seq<Byte>, p: nat, rest: seq<nat>)
    requires p + FRAME_LENGTH <= |s| && IsFrame(WindowAt(s, p)) && FramesAt(s, rest)
    ensures FramesAt(s, [p] + rest)
    ensures ReadingsAt(s, [p] + rest) == Reading(WindowAt(s, p)) + ReadingsAt(s, rest)
  {
    hide Reading, IsFrame;
    assert ([p] + rest)[1..] == rest;
  }

  lemma ScanHere(s: seq<Byte>, pos: nat)
    requires pos + FRAME_LENGTH <= |s|
    ensures Scan(s, pos).0 == MoveAt(WindowAt(s, pos)).1 + Scan(s, NextPos(s, pos)).0
  {
    hide MoveAt;
  }

  /** On any octets at all, the scan reports the frames at these positions and nothing else. */
  lemma {:induction false} ReportsAreOfStarts(s: seq<Byte>, pos: nat)
    requires pos <= |s|
    ensures FramesAt(s, Starts(s, pos)) && Scan(s, pos).0 == ReadingsAt(s, Starts(s, pos))
    decreases |s| - pos
  {
    hide MoveAt, Reading, IsFrame, WindowAt;
    if pos + FRAME_LENGTH <= |s| {
      ReportsAreOfStarts(s, NextPos(s, pos));
      ScanHere(s, pos);
      var rest := Starts(s, NextPos(s, pos));
      hide Scan, NextPos, FramesAt, ReadingsAt;
      if IsFrame(WindowAt(s, pos)) {
        MoveAtFrame(WindowAt(s, pos));
        ReadingsCons(s, pos, rest);
      } else {
        OtherReportsNothing(WindowAt(s, pos));
        assert [] + rest == rest && [] + ReadingsAt(s, rest) == ReadingsAt(s, rest);
      }
    }
  }

  lemma {:induction false} StartsAreVisited(s: seq<Byte>, pos: nat, p: nat)
    requires pos <= |s| && p + FRAME_LENGTH <= |s|
    ensures p in Starts(s, pos) <==> Visits(s, pos, p) && IsFrame(WindowAt(s, p))
    decreases |s| - pos
  {
    hide MoveAt, IsFrame;
    if pos + FRAME_LENGTH <= |s| {
      StartsAreVisited(s, NextPos(s, pos), p);
      if p <= pos { StartsAhead(s, NextPos(s, pos), p); }
    }
  }

  lemma {:induction false} StartsAhead(s: seq<Byte>, pos: nat, p: nat)
    requires p < pos <= |s|
    ensures p !in Starts(s, pos)
    decreases |s| - pos
  {
    hide MoveAt, IsFrame;
    if pos + FRAME_LENGTH <= |s| { StartsAhead(s, NextPos(s, pos), p); }
  }

  /** No step of the scan jumps over p. */
  ghost predicate NotJumped(s: seq<Byte>, pos: nat, p: nat)
    requires pos <= |s| && p + FRAME_LENGTH <= |s|
  {
    forall q | pos <= q < p && Visits(s, pos, q) :: NextPos(s, q) <= p
  }

  lemma {:induction false} VisitedUnlessJumped(s: seq<Byte>, pos: nat, p: nat)
    requires pos <= p && p + FRAME_LENGTH <= |s|
    ensures Visits(s, pos, p) <==> NotJumped(s, pos, p)
    decreases |s| - pos
  {
    hide MoveAt;
    if pos < p {
      var next := NextPos(s, pos);
      assert Visits(s, pos, pos);
      if next <= p {
        VisitedUnlessJumped(s, next, p);
        assert forall q | next <= q < p :: Visits(s, pos, q) <==> Visits(s, next, q);
        assert forall q | pos < q < next :: !Visits(s, pos, q);
      } else {
        assert !NotJumped(s, pos, p);
      }
    }
  }

  /** At q the scanner takes the octets for the beginning of a frame and moves beyond p: it finds 0xFA
      right before p, or 0xFA, 0xF0 and, eleven octets on, 0x05, with p within these twelve. */
  predicate Hides(s: seq<Byte>, p: nat, q: nat)
    requires q < p && p + FRAME_LENGTH <= |s|
  {
    s[q] == 0xFA && (q + 1 == p || (p < q + FRAME_LENGTH && s[q + 1] == 0xF0 && s[q + 11] == 0x05))
  }

  lemma JumpsExactly(s: seq<Byte>, p: nat, q: nat)
    requires q < p && p + FRAME_LENGTH <= |s| && s[p] == 0xFA
    ensures NextPos(s, q) > p <==> Hides(s, p, q)
  {
    var f := WindowAt(s, q);
    assert f[0] == s[q] && f[1] == s[q + 1] && f[11] == s[q + 11];
    hide Sum, Reading;
  }

  /** Resynchronisation behind anything: a frame is reported exactly when at no position that the scan
      comes to before it the octets hide it. */
  lemma FrameIsReportedUnlessHidden(s: seq<Byte>, p: nat)
    requires p + FRAME_LENGTH <= |s| && IsFrame(WindowAt(s, p))
    ensures p in Starts(s, 0) <==> forall q: nat | q < p && Visits(s, 0, q) :: !Hides(s, p, q)
  {
    StartsAreVisited(s, 0, p);
    VisitedUnlessJumped(s, 0, p);
    assert s[p] == WindowAt(s, p)[0];
    hide IsFrame, NextPos, Visits, Hides;
    forall q: nat | q < p ensures NextPos(s, q) > p <==> Hides(s, p, q) { JumpsExactly(s, p, q); }
  }

  /** What a caller can see in the octets alone: a frame with no 0xFA among the eleven octets before it
      is reported, whatever comes before those. */
  lemma FrameBehindQuietOctetsIsReported(s: seq<Byte>, p: nat)
    requires p + FRAME_LENGTH <= |s| && IsFrame(WindowAt(s, p))
    requires forall q | 0 <= q < p && p < q + FRAME_LENGTH :: s[q] != 0xFA
    ensures p in Starts(s, 0)
  {
    hide IsFrame, Visits;
    FrameIsReportedUnlessHidden(s, p);
  }

  /** A single 0xFA right before a frame hides it: the scanner moves on by two octets. */
  lemma LoneStartHidesFrame(f: seq<Byte>)
    requires IsFrame(f)
    ensures WindowAt([0xFA] + f, 1) == f && 1 !in Starts([0xFA] + f, 0)
  {
    var s := [0xFA] + f;
    assert WindowAt(s, 1) == f;
    assert WindowAt(s, 0)[0] == 0xFA && WindowAt(s, 0)[1] == f[0];
    StartsAhead(s, NextPos(s, 0), 1);
  }

  // ---------- a built frame ----------

  datatype Sensors = Sensors(co2: bool, temperature: bool, humidity: bool, voc: bool)

  /** The octet that says which sensors are installed; its high four bits are spare. */
  function Installed(sensors: Sensors, spare: nat): Byte
    requires spare < 16
  {
    16 * spare + (if sensors.co2 then 8 else 0) + (if sensors.temperature then 4 else 0)
    + (if sensors.humidity then 2 else 0) + (if sensors.voc then 1 else 0)
  }

  /** A bit of a number is found by division. */
  lemma BitAt(o: Byte, weight: nat, above: nat, bit: nat, below: nat)
    requires weight > 0 && below < weight && bit <= 1 && o as int == (2 * above + bit) * weight + below
    ensures Bit(o, weight) <==> bit == 1
  {
    DivModUnique(o, 2 * above + bit, below, weight);
  }

  lemma InstalledBits(sensors: Sensors, spare: nat)
    requires spare < 16
    ensures var o := Installed(sensors, spare);
            && (Bit(o, 8) <==> sensors.co2) && (Bit(o, 4) <==> sensors.temperature)
            && (Bit(o, 2) <==> sensors.humidity) && (Bit(o, 1) <==> sensors.voc)
            && (o % 16 == 0 <==> sensors == Sensors(false, false, false, false))
  {
    hide Bit;
    var o := Installed(sensors, spare);
    var a, b, c, d := if sensors.co2 then 1 else 0, if sensors.temperature then 1 else 0,
                      if sensors.humidity then 1 else 0, if sensors.voc then 1 else 0;
    BitAt(o, 8, spare, a, 4 * b + 2 * c + d);
    BitAt(o, 4, 2 * spare + a, b, 2 * c + d);
    BitAt(o, 2, 4 * spare + 2 * a + b, c, d);
    BitAt(o, 1, 8 * spare + 4 * a + 2 * b + c, d, 0);
    DivModUnique(o, spare, 8 * a + 4 * b + 2 * c + d, 16);
  }

  /** The frame that a monitor sends. */
  function BuildFrame(address: Byte, installed: Byte, co2: int, tenths: int, humidity: Byte, level: Byte)
    : (f: seq<Byte>)
    ensures |f| == FRAME_LENGTH
  {
    var head := FrameHead(address, installed, co2, tenths, humidity, level);
    head + [Low(Sum(head)), 0x05]
  }

  function FrameHead(address: Byte, installed: Byte, co2: int, tenths: int, humidity: Byte, level: Byte)
    : (h: seq<Byte>)
    ensures |h| == 10
  {
    [0xFA, 0xF0, address, installed] + Octets2(co2) + Octets2(tenths) + [humidity, level]
  }

  lemma BuiltOctets(address: Byte, installed: Byte, co2: int, tenths: int, humidity: Byte, level: Byte)
    ensures var f, head := BuildFrame(address, installed, co2, tenths, humidity, level),
                           FrameHead(address, installed, co2, tenths, humidity, level);
            && f[..10] == head && f[10] == Low(Sum(f[..10])) && f[11] == 0x05
            && f[0] == 0xFA && f[1] == 0xF0 && f[3] == installed
            && f[4] == Low(co2 / 256) && f[5] == Low(co2) && f[6] == Low(tenths / 256) && f[7] == Low(tenths)
            && f[8] == humidity && f[9] == level
  {
    hide Low, Sum;
    var head := FrameHead(address, installed, co2, tenths, humidity, level);
    assert (head + [Low(Sum(head)), 0x05])[..10] == head;
  }

  /** What a receiver gets of each sensor: its value if it is installed, else zero. */
  predicate Measured(s: State, sensors: Sensors, co2: int, tenths: int, humidity: Byte, level: Byte) {
    && s.co2 == (if sensors.co2 then co2 else 0)
    && s.temperature * 10.0 == (if sensors.temperature then tenths as real else 0.0)
    && s.humidity * 100.0 == (if sensors.humidity then humidity as real else 0.0)
    && (s.voc == High <==> sensors.voc && level == 0x10) && (s.voc == VeryHigh <==> sensors.voc && level == 0x40)
  }

  /** A frame that any set of sensors sends is valid, and is read as the values of the installed ones; one
      without any sensor reports nothing. */
  lemma BuiltFrameIsRead(address: Byte, sensors: Sensors, spare: nat,
                         co2: Word, tenths: Word, humidity: Byte, level: Byte)
    requires spare < 16
    ensures var f := BuildFrame(address, Installed(sensors, spare), co2, tenths, humidity, level);
            && IsFrame(f)
            && |Reading(f)| == (if sensors == Sensors(false, false, false, false) then 0 else 1)
            && forall s <- Reading(f) :: Measured(s, sensors, co2, tenths, humidity, level)
  {
    hide Low, Sum, BuildFrame, Unsigned2, Bit, Installed;
    var installed := Installed(sensors, spare);
    var f := BuildFrame(address, installed, co2, tenths, humidity, level);
    BuiltOctets(address, installed, co2, tenths, humidity, level);
    InstalledBits(sensors, spare);
    LowIsRemainder(Sum(f[..10]));
    WordOctets(co2);
    WordOctets(tenths);
  }

  lemma LowIsRemainder(n: int)
    ensures Low(n) == n % 256
  {
  }

  lemma WordOctets(n: Word)
    ensures Unsigned2(Low(n / 256), Low(n)) == n
  {
    LowOctets(n);
  }

  const SAMPLE_FRAME: seq<Byte> := [0xFA, 0xF0, 0x01, 0x0F, 0x01, 0xC2, 0x00, 0xE1, 0x2D, 0x10, 0xDB, 0x05]

  /** One frame in full: CO2 450, 22.5 degrees, humidity 0.45, VOC high. */
  lemma SampleFrameIsRead()
    ensures IsFrame(SAMPLE_FRAME) && Reading(SAMPLE_FRAME) == [State(450, 22.5, 0.45, High)]
  {
    SampleSum();
    hide Sum;
  }

  lemma {:induction false} SumJoins(a: seq<Byte>, b: seq<Byte>)
    ensures Sum(a + b) == Sum(a) + Sum(b)
    decreases |b|
  {
    if b == [] {
      assert a + b == a;
    } else {
      assert (a + b)[..|a + b| - 1] == a + b[..|b| - 1];
      SumJoins(a, b[..|b| - 1]);
    }
  }

  lemma SumSnoc(s: seq<Byte>, x: Byte)
    ensures Sum(s + [x]) == Sum(s) + x && Sum([]) == 0
  {
    assert (s + [x])[..|s|] == s;
  }

  lemma SumOfFive(a: Byte, b: Byte, c: Byte, d: Byte, e: Byte)
    ensures Sum([a, b, c, d, e]) == a as int + b + c + d + e
  {
    hide Sum;
    SumSnoc([], a);
    assert [] + [a] == [a] && [a] + [b] == [a, b] && [a, b] + [c] == [a, b, c];
    assert [a, b, c] + [d] == [a, b, c, d] && [a, b, c, d] + [e] == [a, b, c, d, e];
    SumSnoc([a], b);
    SumSnoc([a, b], c);
    SumSnoc([a, b, c], d);
    SumSnoc([a, b, c, d], e);
  }

  lemma SampleSum()
    ensures Sum(SAMPLE_FRAME[..10]) == 0x3DB
  {
    hide Sum;
    SumOfFive(0xFA, 0xF0, 0x01, 0x0F, 0x01);
    SumOfFive(0xC2, 0x00, 0xE1, 0x2D, 0x10);
    SumJoins([0xFA, 0xF0, 0x01, 0x0F, 0x01], [0xC2, 0x00, 0xE1, 0x2D, 0x10]);
    assert SAMPLE_FRAME[..10] == [0xFA, 0xF0, 0x01, 0x0F, 0x01] + [0xC2, 0x00, 0xE1, 0x2D, 0x10];
  }
}
