/**
 Tunnelling frames: the group write request that the gateway sends and the decoder of the frames
 that it receives.
 */
module KnxFrame {
  import opened Arithmetic
  import opened ByteSwap
  import opened Common
  import opened KnxDpt
  import KnxFloat
  import opened KnxValues

  const HEADER_SIZE_10 := 0x06
  const VERSION_10 := 0x10
  const TUNNELLING_REQUEST := 0x0420
  const L_DATA_REQ := 0x11
  const L_DATA_CON := 0x2E
  const L_DATA_IND := 0x29
  const CONTROL_1 := 0x8C
  const CONTROL_2 := 0xE0
  const APCI_GROUP_VALUE_RES := 0x40
  const APCI_GROUP_VALUE_WRITE := 0x80

  /** sizeof(TunnelReq) on packed structures: the frame header and the connection header. */
  const TUNNEL_REQ_SIZE := 10

  function FillHeader(service: int, total: int): (h: seq<Byte>)
    ensures |h| == 6
  {
    [HEADER_SIZE_10, VERSION_10] + Octets2(service) + Octets2(total)
  }

  function FillConHead(channelId: int, counter: int, status: int): (h: seq<Byte>)
    ensures |h| == 4
  {
    [4, Low(channelId), Low(counter), Low(status)]
  }

  /** The APCI octet and the data after it. */
  function Payload(bytes: seq<Byte>, len: nat): (p: seq<Byte>)
    requires 1 <= |bytes| && len <= |bytes|
    ensures |p| == 1 + len
  {
    if len == 0 then [APCI_GROUP_VALUE_WRITE + bytes[0] % 64] else [APCI_GROUP_VALUE_WRITE] + bytes[..len]
  }

  function Cemi(addr: int, len: nat, bytes: seq<Byte>): (c: seq<Byte>)
    requires 1 <= |bytes| && len <= |bytes| && len < 255
    ensures |c| == 11 + len
  {
    [L_DATA_REQ, 0, CONTROL_1, CONTROL_2, 0, 0] + Octets2(addr) + [1 + len, 0] + Payload(bytes, len)
  }

  /** The write request for g. */
  function WriteFrame(channelId: int, counter: int, g: GroupData): seq<Byte>
    requires |g.data.txt| == TXT_DATA_SIZE && Bytes(g).Some?
  {
    var len := Length(g.dpt);
    FillHeader(TUNNELLING_REQUEST, TUNNEL_REQ_SIZE + 2 + 8 + 1 + len)
    + FillConHead(channelId, counter, 0)
    + Cemi(g.addr, len, Bytes(g).value)
  }

  datatype Decoded = Decoded(code: Byte, addr: Word, unnumbered: bool, action: int, area: Area)

  /** How much of a frame the decoder reads: it trusts the additional-information length and the
      length nibble of the frame. */
  predicate Readable(f: seq<Byte>) {
    && |f| >= 20
    && |f| >= 20 + Octet(f, 11)
    && |f| >= 20 + Octet(f, 11) + Octet(f, 18 + Octet(f, 11)) % 16
  }

  function Octet(f: seq<Byte>, i: int): int
    requires 0 <= i < |f|
  {
    f[i]
  }

  function Fill(b: seq<Byte>): seq<Byte>
    requires |b| <= TXT_DATA_SIZE
  {
    b + Zeros(TXT_DATA_SIZE - |b|)
  }

  function Decode(f: seq<Byte>, dptOf: Word -> Dpt, area: Area): Decoded
    requires Readable(f)
  {
    var p := 16 + Octet(f, 11);
    var addr: Word := Unsigned2(f[p], f[p + 1]);
    var len := f[p + 2] % 16;
    var apci := if len > 0 then f[p + 4] else 0;
    var data := if len == 0 then [] else if len == 1 then [apci % 64] else f[p + 5..p + 4 + len];
    Decoded(f[10], addr, f[p + 3] % 4 == 0, apci / 64 * 64, FromBytes(Fill(data), dptOf(addr), area))
  }

  // ---------- what a value must be to survive ----------

  predicate IsInteger(x: real, low: int, high: int) {
    x == Trunc(x) as real && low <= Trunc(x) <= high
  }

  /** Values that the wire format can carry. */
  predicate InRange(g: GroupData)
    requires |g.data.txt| == TXT_DATA_SIZE
  {
    var x := g.data.ana;
    match g.dpt
    case Boolean => 0 <= g.data.bin <= 1
    case OneBitCtrl | ThreeBitCtrl => IsInteger(x, 0, 63)
    case CharSet | UnSign8 => IsInteger(x, 0, 255)
    case Sign8 => IsInteger(x, -128, 127)
    case UnSign16 => IsInteger(x, 0, 0xFFFF)
    case Sign16 => IsInteger(x, -0x8000, 0x7FFF)
    case UnSign32 | Access => IsInteger(x, 0, 0xFFFF_FFFF)
    case Sign32 => IsInteger(x, -0x8000_0000, 0x7FFF_FFFF)
    case Time => TimeInRange(g.data.time)
    case Date => true
    case String => StrLen(g.data.txt) <= MAX_DATA_AREASIZE
    case Float16 | Unknown => false
  }

  /** The characters up to the terminator. */
  function CString(s: seq<Byte>): seq<Byte> {
    s[..StrLen(s)]
  }

  /** Equality of the part of the data area that the data point type uses. */
  predicate Same(d: Dpt, a: Area, b: Area) {
    match d
    case Boolean => a.bin == b.bin
    case Time => SameTime(a.time, b.time)
    case Date => a.time.year == b.time.year && a.time.month == b.time.month && a.time.day == b.time.day
    case String => CString(a.txt) == CString(b.txt)
    case _ => a.ana == b.ana
  }

  // ---------- octets back to numbers ----------

  lemma TimeOctetFields(weekday: int, hour: int)
    requires 0 <= weekday <= 7 && 0 <= hour <= 31
    ensures TimeOctet(weekday, hour) / 32 == weekday && TimeOctet(weekday, hour) % 32 == hour
  {
    hide TimeOctet;
    TimeOctetValue(weekday, hour);
  }

  lemma LowSmall(n: int)
    requires 0 <= n < 256
    ensures Low(n) == n
  {
  }

  /** An integer-valued result equals x exactly when x is that integer. */
  lemma RealInteger(x: real, v: int)
    ensures v as real == x <==> x == Trunc(x) as real && v == Trunc(x)
  {
  }

  /** The data octets of a frame: the low six bits of the APCI octet, or the octets after it. */
  function OnWire(g: GroupData): (b: seq<Byte>)
    requires |g.data.txt| == TXT_DATA_SIZE && Bytes(g).Some?
    ensures |b| <= TXT_DATA_SIZE
  {
    var b := Bytes(g).value;
    if Length(g.dpt) == 0 then [b[0] % 64] else b[..Length(g.dpt)]
  }

  lemma TextOnWire(g: GroupData)
    requires |g.data.txt| == TXT_DATA_SIZE && g.dpt.String?
    ensures Fill(OnWire(g)) == Padded(g.data.txt)
  {
    var p := Padded(g.data.txt);
    assert p[14] == 0 && p[15] == 0;
  }

  /** The padded text holds the string, cut after 14 characters. */
  lemma PaddedString(txt: seq<Byte>)
    requires |txt| == TXT_DATA_SIZE
    ensures CString(Padded(txt)) == CString(txt[..MAX_DATA_AREASIZE])
  {
    hide StrLen;
    var cut := txt[..MAX_DATA_AREASIZE];
    var n := StrLen(cut);
    assert Padded(txt)[..n] == cut[..n] && Padded(txt)[n] == 0;
    StrLenIs(Padded(txt), n);
  }

  lemma CutString(txt: seq<Byte>)
    requires |txt| == TXT_DATA_SIZE
    ensures CString(txt[..MAX_DATA_AREASIZE]) == CString(txt) <==> StrLen(txt) <= MAX_DATA_AREASIZE
  {
    hide StrLen;
    var cut, n := txt[..MAX_DATA_AREASIZE], StrLen(txt);
    if n <= MAX_DATA_AREASIZE {
      StrLenIs(cut, n);
      assert cut[..n] == txt[..n];
    }
  }

  lemma StrLenIs(s: seq<Byte>, n: nat)
    requires n <= |s| && (forall i | 0 <= i < n :: s[i] != 0) && (n < |s| ==> s[n] == 0)
    ensures StrLen(s) == n
  {
  }

  lemma StringSurvives(g: GroupData, area: Area)
    requires |g.data.txt| == TXT_DATA_SIZE && g.dpt.String?
    ensures Same(g.dpt, FromBytes(Fill(OnWire(g)), g.dpt, area), g.data) <==> InRange(g)
  {
    hide Fill, OnWire, Padded, CString;
    WireOctets(g);
    TextOnWire(g);
    PaddedString(g.data.txt);
    CutString(g.data.txt);
  }

  /** The decoder's data buffer begins with the octets that the encoder wrote. */
  lemma WireOctets(g: GroupData)
    requires |g.data.txt| == TXT_DATA_SIZE && Bytes(g).Some?
    ensures |Fill(OnWire(g))| == TXT_DATA_SIZE
    ensures Length(g.dpt) == 0 ==> Fill(OnWire(g))[0] == Bytes(g).value[0] % 64
    ensures forall k | 0 <= k < Length(g.dpt) :: Fill(OnWire(g))[k] == Bytes(g).value[k]
  {
    hide Bytes;
  }

  /** The integer that each analog type carries for the integer n. */
  function Carried(d: Dpt, n: int): int {
    match d
    case OneBitCtrl | ThreeBitCtrl => n % 64
    case CharSet | UnSign8 => n % 256
    case Sign8 => AsSigned(n % 256, 256)
    case UnSign16 => n % 0x1_0000
    case Sign16 => AsSigned(n % 0x1_0000, 0x1_0000)
    case Sign32 => AsSigned(n % 0x1_0000_0000, 0x1_0000_0000)
    case _ => n % 0x1_0000_0000
  }

  lemma OneOctetOnWire(g: GroupData, area: Area)
    requires |g.data.txt| == TXT_DATA_SIZE && g.dpt in {OneBitCtrl, ThreeBitCtrl, CharSet, UnSign8, Sign8}
    ensures FromBytes(Fill(OnWire(g)), g.dpt, area).ana == Carried(g.dpt, Trunc(g.data.ana)) as real
  {
    hide Trunc, Fill, OnWire, AsSigned, Low;
    WireOctets(g);
    LowBits(Trunc(g.data.ana));
  }

  lemma TwoOctetsOnWire(g: GroupData, area: Area)
    requires |g.data.txt| == TXT_DATA_SIZE && g.dpt in {UnSign16, Sign16}
    ensures FromBytes(Fill(OnWire(g)), g.dpt, area).ana == Carried(g.dpt, Trunc(g.data.ana)) as real
  {
    hide Trunc, Fill, OnWire, AsSigned, Low, Unsigned2;
    WireOctets(g);
    LowOctets(Trunc(g.data.ana));
  }

  lemma FourOctetsOnWire(g: GroupData, area: Area)
    requires |g.data.txt| == TXT_DATA_SIZE && Bytes(g).Some? && g.dpt in {UnSign32, Sign32, Access}
    ensures FromBytes(Fill(OnWire(g)), g.dpt, area).ana == Carried(g.dpt, Trunc(g.data.ana)) as real
  {
    hide Trunc, Fill, OnWire, AsSigned, Octets4, Unsigned2, AccessOk;
    WireOctets(g);
    LowOctets4(Trunc(g.data.ana));
  }

  lemma NumberOnWire(g: GroupData, area: Area)
    requires |g.data.txt| == TXT_DATA_SIZE && Bytes(g).Some? && IsNumber(g.dpt)
    ensures FromBytes(Fill(OnWire(g)), g.dpt, area).ana == Carried(g.dpt, Trunc(g.data.ana)) as real
  {
    hide FromBytes, Fill, OnWire, Carried, Trunc;
    match g.dpt
    case UnSign16 | Sign16 => TwoOctetsOnWire(g, area);
    case UnSign32 | Sign32 | Access => FourOctetsOnWire(g, area);
    case _ => OneOctetOnWire(g, area);
  }

  lemma LowBits(n: int)
    ensures Low(n) == n % 256 && Low(n) % 64 == n % 64
  {
    DivModUnique(n, 4 * (n / 256) + n % 256 / 64, n % 256 % 64, 64);
  }

  lemma UnsignedInRange(x: real, range: int)
    requires range > 0
    ensures (Trunc(x) % range) as real == x <==> IsInteger(x, 0, range - 1)
  {
    hide Trunc;
    var n := Trunc(x);
    RealInteger(x, n % range);
    if 0 <= n < range { DivModUnique(n, 0, n, range); }
  }

  lemma SignedInRange(x: real, range: int)
    requires range == 256 || range == 0x1_0000 || range == 0x1_0000_0000
    ensures AsSigned(Trunc(x) % range, range) as real == x <==> IsInteger(x, -(range / 2), range / 2 - 1)
  {
    hide Trunc, AsSigned;
    var n := Trunc(x);
    RealInteger(x, AsSigned(n % range, range));
    SignedRange(n, range);
  }

  lemma CarriedInRange(g: GroupData)
    requires |g.data.txt| == TXT_DATA_SIZE && IsNumber(g.dpt)
    ensures Carried(g.dpt, Trunc(g.data.ana)) as real == g.data.ana <==> InRange(g)
  {
    hide Trunc, AsSigned, IsInteger;
    var x := g.data.ana;
    match g.dpt
    case OneBitCtrl | ThreeBitCtrl => UnsignedInRange(x, 64);
    case CharSet | UnSign8 => UnsignedInRange(x, 256);
    case UnSign16 => UnsignedInRange(x, 0x1_0000);
    case UnSign32 | Access => UnsignedInRange(x, 0x1_0000_0000);
    case Sign8 => SignedInRange(x, 256);
    case Sign16 => SignedInRange(x, 0x1_0000);
    case Sign32 => SignedInRange(x, 0x1_0000_0000);
  }

  lemma NumberSurvives(g: GroupData, area: Area)
    requires |g.data.txt| == TXT_DATA_SIZE && Bytes(g).Some? && IsNumber(g.dpt)
    ensures Same(g.dpt, FromBytes(Fill(OnWire(g)), g.dpt, area), g.data) <==> InRange(g)
  {
    hide Bytes, FromBytes, InRange, Carried;
    NumberOnWire(g, area);
    CarriedInRange(g);
  }

  predicate SameTime(a: TimeData, b: TimeData) {
    a.hour == b.hour && a.minute == b.minute && a.second == b.second && a.weekday == b.weekday
  }

  predicate TimeInRange(t: TimeData) {
    0 <= t.weekday <= 3 && 0 <= t.hour && 0 <= t.minute && 0 <= t.second
  }

  lemma TimeFieldsSurvive(t: TimeData)
    requires TimeOk(t)
    ensures SameTime(TimeOf(TimeOctet(t.weekday, t.hour), Low(t.minute), Low(t.second)), t) <==> TimeInRange(t)
  {
    hide TimeOctet, Low;
    if TimeInRange(t) {
      TimeOctetFields(t.weekday, t.hour);
      LowSmall(t.minute);
      LowSmall(t.second);
    }
  }

  lemma TimeSurvives(g: GroupData, area: Area)
    requires |g.data.txt| == TXT_DATA_SIZE && Bytes(g).Some? && g.dpt.Time?
    ensures Same(g.dpt, FromBytes(Fill(OnWire(g)), g.dpt, area), g.data) <==> InRange(g)
  {
    hide Fill, OnWire, TimeOctet, Low, TimeOf;
    WireOctets(g);
    TimeFieldsSurvive(g.data.time);
  }

  lemma DateSurvives(g: GroupData, area: Area)
    requires |g.data.txt| == TXT_DATA_SIZE && Bytes(g).Some? && g.dpt.Date?
    ensures Same(g.dpt, FromBytes(Fill(OnWire(g)), g.dpt, area), g.data)
  {
    hide Fill, OnWire;
    WireOctets(g);
  }

  /** A value comes back from the wire exactly when it is in range.  Times with a weekday above 3 do
      not: the encoder accepts them and the decoder keeps two of the three weekday bits. */
  lemma ValueSurvives(g: GroupData, area: Area)
    requires |g.data.txt| == TXT_DATA_SIZE && Bytes(g).Some? && !g.dpt.Float16?
    ensures Same(g.dpt, FromBytes(Fill(OnWire(g)), g.dpt, area), g.data) <==> InRange(g)
  {
    hide Fill, OnWire;
    WireOctets(g);
    match g.dpt
    case Boolean =>
    case Time => TimeSurvives(g, area);
    case Date => DateSurvives(g, area);
    case String => StringSurvives(g, area);
    case _ => NumberSurvives(g, area);
  }

  /** The 2-octet float arrives rounded as KnxFloat.EncodeRoundsDown says, without its fraction. */
  lemma FloatSurvives(g: GroupData, area: Area)
    requires |g.data.txt| == TXT_DATA_SIZE && g.dpt.Float16?
    ensures FromBytes(Fill(OnWire(g)), g.dpt, area).ana == KnxFloat.Rounded(100 * Trunc(g.data.ana)) as real / 100.0
  {
    hide Trunc, Fill, OnWire, KnxFloat.Encode, KnxFloat.Decode;
    WireOctets(g);
  }

  // ---------- values read off the wire ----------

  /** The data of a frame of this type: six bits, or as many octets as the type has. */
  predicate IsData(d: Dpt, data: seq<Byte>) {
    if Length(d) == 0 then |data| == 1 && data[0] < 64 else |data| == Length(d)
  }

  lemma RealOfInteger(v: int)
    ensures Trunc(v as real) == v
  {
  }

  /** The other way round: whatever octets arrive, the value read from them is one that the encoder takes
      and that, sent again, arrives unchanged.  Access codes are left out, as the encoder may refuse one. */
  lemma ReadValueIsStable(g: GroupData, data: seq<Byte>, area: Area)
    requires |area.txt| == TXT_DATA_SIZE && IsData(g.dpt, data) && g.dpt !in {Float16, Access, Unknown}
    requires g.data == FromBytes(Fill(data), g.dpt, area)
    ensures |g.data.txt| == TXT_DATA_SIZE && Bytes(g).Some? && InRange(g)
    ensures Same(g.dpt, FromBytes(Fill(OnWire(g)), g.dpt, area), g.data)
  {
    hide Bytes, InRange, Same, OnWire;
    ReadValueInRange(g, data, area);
    ValueSurvives(g, area);
  }

  lemma ReadValueInRange(g: GroupData, data: seq<Byte>, area: Area)
    requires |area.txt| == TXT_DATA_SIZE && IsData(g.dpt, data) && g.dpt !in {Float16, Access, Unknown}
    requires g.data == FromBytes(Fill(data), g.dpt, area)
    ensures |g.data.txt| == TXT_DATA_SIZE && Bytes(g).Some? && InRange(g)
  {
    hide Trunc, TimeOctet;
    var b := Fill(data);
    RealOfInteger(b[0]);
    RealOfInteger(AsSigned(b[0], 256));
    RealOfInteger(Unsigned2(b[0], b[1]));
    RealOfInteger(AsSigned(Unsigned2(b[0], b[1]), 0x1_0000));
    RealOfInteger(Unsigned4(b));
    RealOfInteger(AsSigned(Unsigned4(b), 0x1_0000_0000));
    if g.dpt.String? {
      assert b[14] == 0;
    }
  }

  /** Fields of a received time or date that are out of range read as zero, or as the first month or day,
      and the others as they are; two of the three weekday bits are kept. */
  lemma InvalidFieldsAreReset(b: seq<Byte>, area: Area)
    requires |b| == TXT_DATA_SIZE
    ensures var t := FromBytes(b, Time, area).time;
            && t.weekday == b[0] / 32 % 4
            && t.hour == (if b[0] % 32 < 24 then b[0] % 32 else 0)
            && t.minute == (if b[1] % 64 < 60 then b[1] % 64 else 0)
            && t.second == (if b[2] % 64 < 60 then b[2] % 64 else 0)
    ensures var t := FromBytes(b, Date, area).time;
            && t.month == (if b[1] % 16 in {1, 2, 3, 4, 5, 6, 7, 8, 9, 10, 11, 12} then b[1] % 16 else 1)
            && t.day == (if b[2] % 32 != 0 then b[2] % 32 else 1)
            && t.year + (b[0] % 128) as int == if b[0] % 128 < 90 then 2089 else 1900 + 2 * (b[0] % 128) as int
  {
  }

  // ---------- the frame ----------

  /** The header's total length is the number of octets written, and the length nibble holds it. */
  lemma WriteFrameShape(channelId: int, counter: int, g: GroupData)
    requires |g.data.txt| == TXT_DATA_SIZE && Bytes(g).Some?
    ensures var f := WriteFrame(channelId, counter, g);
            && |f| == Unsigned2(f[4], f[5]) == 21 + Length(g.dpt)
            && f[11] == 0 && f[18] == 1 + Length(g.dpt) <= 15 && f[19] == 0
            && f[16] == Low(g.addr / 256) && f[17] == Low(g.addr)
            && f[20..] == Payload(Bytes(g).value, Length(g.dpt))
            && Readable(f)
  {
    hide Bytes, Low, Unsigned2, Payload;
    LowOctets(21 + Length(g.dpt));
    var f := WriteFrame(channelId, counter, g);
    assert f[10..] == Cemi(g.addr, Length(g.dpt), Bytes(g).value);
    assert f[20..] == f[10..][10..];
  }

  // ---------- frames that others send ----------

  /** The frame with its message code, its TPCI octet and the action bits of its APCI octet replaced. */
  function Altered(f: seq<Byte>, code: Byte, tpci: Byte, action: Byte): seq<Byte>
    requires |f| > 20 && action in {0, 0x40, 0x80, 0xC0}
  {
    f[10 := code][19 := tpci][20 := action + f[20] % 64]
  }

  lemma ActionBits(action: Byte, low: Byte)
    requires action in {0, 0x40, 0x80, 0xC0} && low < 64
    ensures (action + low) / 64 * 64 == action && (action + low) % 64 == low
  {
  }

  /** Whatever stands in these three places, the decoder finds the same address and the same value, the
      given action, and whether the frame is numbered. */
  lemma AlteredDecodes(channelId: int, counter: int, g: GroupData, code: Byte, tpci: Byte, action: Byte,
                       dptOf: Word -> Dpt, area: Area)
    requires |g.data.txt| == TXT_DATA_SIZE && Bytes(g).Some? && action in {0, 0x40, 0x80, 0xC0}
    ensures var f := WriteFrame(channelId, counter, g);
            && |f| > 20 && Readable(Altered(f, code, tpci, action))
            && Decode(Altered(f, code, tpci, action), dptOf, area)
               == Decoded(code, g.addr % 0x1_0000, tpci % 4 == 0, action,
                          FromBytes(Fill(OnWire(g)), dptOf(g.addr % 0x1_0000), area))
  {
    hide Bytes, FromBytes, Decode, Low, WriteFrame, Payload;
    WriteFrameShape(channelId, counter, g);
    LowOctets(g.addr);
    var f := WriteFrame(channelId, counter, g);
    var f', b, len := Altered(f, code, tpci, action), Bytes(g).value, Length(g.dpt);
    PayloadParts(f, len, b);
    ActionBits(action, f[20] % 64);
    DecodeFields(f', len, OnWire(g), tpci, action, dptOf, area);
  }

  /** The parts of a written frame's payload. */
  lemma PayloadParts(f: seq<Byte>, len: nat, b: seq<Byte>)
    requires |f| == 21 + len && 1 <= |b| && len <= |b| && f[20..] == Payload(b, len)
    ensures len == 0 ==> f[20] % 64 == b[0] % 64
    ensures f[21..] == b[..len]
  {
    assert f[20] == f[20..][0];
    assert f[21..] == f[20..][1..];
  }

  /** The decoder's view of a frame without additional information. */
  lemma DecodeFields(f: seq<Byte>, len: nat, data: seq<Byte>, tpci: Byte, action: Byte,
                     dptOf: Word -> Dpt, area: Area)
    requires |f| == 21 + len && f[11] == 0 && f[18] == 1 + len <= 15 && f[19] == tpci && f[20] / 64 * 64 == action
    requires data == if len == 0 then [f[20] % 64] else f[21..]
    ensures Readable(f)
    ensures var addr := Unsigned2(f[16], f[17]);
            Decode(f, dptOf, area) ==
              Decoded(f[10], addr, tpci % 4 == 0, action, FromBytes(Fill(data), dptOf(addr), area))
  {
    hide FromBytes, Zeros;
    assert f[21..21 + len] == f[21..];
  }

  /** Main result: a write request whose message code the bus has changed to con or ind decodes to
      the group address it was sent to, the action WRITE, and the value that is on the wire. */
  lemma WriteDecodes(channelId: int, counter: int, g: GroupData, code: Byte, dptOf: Word -> Dpt, area: Area)
    requires |g.data.txt| == TXT_DATA_SIZE && Bytes(g).Some?
    ensures var f := WriteFrame(channelId, counter, g)[10 := code];
            Readable(f) && Decode(f, dptOf, area) ==
              Decoded(code, g.addr % 0x1_0000, true, APCI_GROUP_VALUE_WRITE,
                      FromBytes(Fill(OnWire(g)), dptOf(g.addr % 0x1_0000), area))
  {
    hide Bytes, FromBytes, Decode, WriteFrame, Readable;
    WriteFrameShape(channelId, counter, g);
    AlteredDecodes(channelId, counter, g, code, 0, APCI_GROUP_VALUE_WRITE, dptOf, area);
    var f := WriteFrame(channelId, counter, g);
    PayloadAction(f, Length(g.dpt), Bytes(g).value);
    assert Altered(f, code, 0, APCI_GROUP_VALUE_WRITE) == f[10 := code];
  }

  lemma PayloadAction(f: seq<Byte>, len: nat, b: seq<Byte>)
    requires |f| == 21 + len && 1 <= |b| && len <= |b| && f[20..] == Payload(b, len)
    ensures f[20] == APCI_GROUP_VALUE_WRITE + f[20] % 64
  {
    assert f[20] == f[20..][0];
  }

  /** Sent and decoded: the same address, the action WRITE, and the same value exactly when it is in
      range; a 2-octet float as KnxFloat rounds it. */
  lemma WriteRoundTrip(channelId: int, counter: int, g: GroupData, code: Byte, dptOf: Word -> Dpt, area: Area)
    requires |g.data.txt| == TXT_DATA_SIZE && Bytes(g).Some?
    requires 0 <= g.addr < 0x1_0000 && dptOf(g.addr) == g.dpt
    ensures var f := WriteFrame(channelId, counter, g)[10 := code];
            Readable(f) && Arrives(g, Decode(f, dptOf, area), code)
  {
    hide Bytes, FromBytes, Decode, WriteFrame, InRange, Same;
    WriteDecodes(channelId, counter, g, code, dptOf, area);
    if g.dpt.Float16? { FloatSurvives(g, area); } else { ValueSurvives(g, area); }
  }

  /** What a decoded frame says of the write request it comes from. */
  predicate Arrives(g: GroupData, d: Decoded, code: Byte)
    requires |g.data.txt| == TXT_DATA_SIZE
  {
    && d.code == code && d.addr == g.addr && d.unnumbered && d.action == APCI_GROUP_VALUE_WRITE
    && if g.dpt.Float16? then d.area.ana == KnxFloat.Rounded(100 * Trunc(g.data.ana)) as real / 100.0
       else Same(g.dpt, d.area, g.data) <==> InRange(g)
  }

  // ---------- what a receiver reads in front of the value ----------

  /** The frame header and the connection header, read by the declarations of the packed structures. */
  datatype Head = Head(size: Byte, version: Byte, service: int, total: int,
                       conSize: Byte, channelId: Byte, counter: Byte, status: Byte)

  function HeadOf(f: seq<Byte>): Head
    requires |f| >= TUNNEL_REQ_SIZE
  {
    Head(f[0], f[1], Unsigned2(f[2], f[3]), Unsigned2(f[4], f[5]), f[6], f[7], f[8], f[9])
  }

  /** What precedes the destination in a cEMI frame without additional information. */
  datatype Control = Control(code: Byte, control1: Byte, control2: Byte, source: int)

  function ControlOf(f: seq<Byte>): Control
    requires |f| >= 16
  {
    Control(f[10], f[12], f[13], Unsigned2(f[14], f[15]))
  }

  /** The receiver of a write request finds the tunnelling service, the length, and the sender's channel and
      counter, each in its place; and a standard, low-priority L_Data.req to a group, from no address. */
  lemma WriteHeadIsRead(channelId: int, counter: int, g: GroupData)
    requires |g.data.txt| == TXT_DATA_SIZE && Bytes(g).Some?
    ensures var f := WriteFrame(channelId, counter, g);
            && |f| == 21 + Length(g.dpt)
            && HeadOf(f) == Head(0x06, 0x10, 0x0420, |f|, 4, Low(channelId), Low(counter), 0)
            && ControlOf(f) == Control(0x11, 0x8C, 0xE0, 0)
  {
    hide Bytes, Low, Unsigned2, Payload;
    WriteFrameShape(channelId, counter, g);
    LowOctets(0x0420);
    LowOctets(0);
    ServiceOctets();
  }

  lemma ServiceOctets()
    ensures Octets2(TUNNELLING_REQUEST) == [0x04, 0x20] && Unsigned2(0x04, 0x20) == 0x0420 && Unsigned2(0, 0) == 0
    ensures Low(0) == 0
  {
  }

  /** Additional information in front of the control fields is skipped. */
  lemma AdditionalInfoIsSkipped(f: seq<Byte>, info: seq<Byte>, dptOf: Word -> Dpt, area: Area)
    requires Readable(f) && f[11] == 0 && |info| < 256
    ensures var f' := f[..11] + ([|info|] + (info + f[12..]));
            Readable(f') && Decode(f', dptOf, area) == Decode(f, dptOf, area)
  {
    hide FromBytes, Fill;
    var n := |info|;
    var f' := f[..11] + ([n] + (info + f[12..]));
    assert f'[11] == n;
    assert forall i | 12 <= i < |f| :: f'[i + n] == f[i];
    var len := f[18] % 16;
    if len > 1 { assert f'[21 + n..20 + n + len] == f[21..20 + len]; }
  }
}
