/**
 Data point types: the octets of a value and back.  The data area of the source is a union; here it
 is a record, of which each data point type uses one part.  A conversion of a double to an integer
 type drops the fraction and keeps the low bits.
 */
module KnxDpt {
  import opened Arithmetic
  import opened Common
  import KnxFloat

  const TXT_DATA_SIZE := 16
  const MAX_DATA_AREASIZE := 14

  datatype Dpt =
    | Unknown | Boolean | OneBitCtrl | ThreeBitCtrl | CharSet | UnSign8 | Sign8
    | UnSign16 | Sign16 | Float16 | Time | Date | UnSign32 | Sign32 | Access | String

  datatype TimeData = TimeData(year: int, month: int, day: int, hour: int, minute: int, second: int, weekday: int)

  datatype Area = Area(bin: int, ana: real, txt: seq<Byte>, time: TimeData)

  datatype GroupData = GroupData(addr: int, dpt: Dpt, data: Area)

  function Trunc(x: real): int {
    if x >= 0.0 then x.Floor else -((-x).Floor)
  }

  /** The length of the C string that s begins with. */
  function StrLen(s: seq<Byte>): (n: nat)
    ensures n <= |s| && (forall i | 0 <= i < n :: s[i] != 0) && (n < |s| ==> s[n] == 0)
  {
    if s == [] || s[0] == 0 then 0 else 1 + StrLen(s[1..])
  }

  /** A string of at most 14 characters, padded with zeros to the size of the data area. */
  function Padded(txt: seq<Byte>): seq<Byte>
    requires |txt| == TXT_DATA_SIZE
  {
    var s := txt[..MAX_DATA_AREASIZE];
    s[..StrLen(s)] + Zeros(TXT_DATA_SIZE - StrLen(s))
  }

  predicate TimeOk(t: TimeData) {
    t.hour <= 23 && t.minute <= 59 && t.second <= 59 && t.weekday <= 7
  }

  predicate DateOk(t: TimeData) {
    1990 <= t.year <= 2089 && 1 <= t.month <= 12 && 1 <= t.day <= 31
  }

  /** The six leading digits of an access code are decimal. */
  predicate AccessOk(n: int) {
    && n / 0x1000_0000 % 16 <= 9 && n / 0x100_0000 % 16 <= 9 && n / 0x10_0000 % 16 <= 9
    && n / 0x1_0000 % 16 <= 9 && n / 0x1000 % 16 <= 9 && n / 0x100 % 16 <= 9
  }

  function OrThreeBits(a: nat, b: nat): (x: nat)
    ensures x < 8
  {
    assert Pow2(3) == 8;
    OrBits(a, b, 3)
  }

  /** Low octet of the weekday, shifted by five bits, or-ed with the hour. */
  function TimeOctet(weekday: int, hour: int): Byte {
    32 * OrThreeBits(weekday % 8, Low(hour) / 32) + Low(hour) % 32
  }

  function YearOctet(year: int): int {
    if year < 2000 then year - 1900 else 2089 - year
  }

  /** The octets that DPT2Byte writes, or None when it refuses the value. */
  function Bytes(g: GroupData): (r: Option<seq<Byte>>)
    requires |g.data.txt| == TXT_DATA_SIZE
    ensures r.Some? ==> Length(g.dpt) <= |r.value| <= TXT_DATA_SIZE && 1 <= |r.value|
  {
    var n := Trunc(g.data.ana);
    var t := g.data.time;
    match g.dpt
    case Boolean => Some([if g.data.bin == 1 then 1 else 0])
    case OneBitCtrl | ThreeBitCtrl | CharSet | UnSign8 | Sign8 => Some([Low(n)])
    case UnSign16 | Sign16 => Some(Octets2(n))
    case Float16 => var (hi, lo) := KnxFloat.Encode(n * 100); Some([hi, lo])
    case UnSign32 | Sign32 => Some(Octets4(n))
    case Time => if TimeOk(t) then Some([TimeOctet(t.weekday, t.hour), Low(t.minute), Low(t.second)]) else None
    case Date => if DateOk(t) then Some([YearOctet(t.year), t.month, t.day]) else None
    case Access => if AccessOk(n) then Some(Octets4(n)) else None
    case String => Some(Padded(g.data.txt))
    case Unknown => None
  }

  /** The length it reports; 0 means that the value travels in the APCI octet. */
  function Length(d: Dpt): nat {
    match d
    case CharSet | UnSign8 | Sign8 => 1
    case UnSign16 | Sign16 | Float16 => 2
    case Time | Date => 3
    case UnSign32 | Sign32 | Access => 4
    case String => MAX_DATA_AREASIZE
    case _ => 0
  }

  /** The types that carry an integer. */
  predicate IsNumber(d: Dpt) {
    d in {OneBitCtrl, ThreeBitCtrl, CharSet, UnSign8, Sign8, UnSign16, Sign16, UnSign32, Sign32, Access}
  }

  function YearOf(y: int): int {
    if y >= 90 then 1900 + y else 2089 - y
  }

  /** The decoder keeps two of the three weekday bits. */
  function TimeOf(b0: Byte, b1: Byte, b2: Byte): TimeData {
    var hour, minute, second := b0 % 32, b1 % 64, b2 % 64;
    TimeData(2000, 1, 1, if hour <= 23 then hour else 0, if minute <= 59 then minute else 0,
             if second <= 59 then second else 0, b0 / 32 % 4)
  }

  /** Byte2DPT on a data buffer. */
  function FromBytes(b: seq<Byte>, d: Dpt, area: Area): Area
    requires |b| == TXT_DATA_SIZE
  {
    var t := area.time;
    match d
    case Boolean => area.(bin := if b[0] == 1 then 1 else 0)
    case OneBitCtrl | ThreeBitCtrl | CharSet | UnSign8 => area.(ana := b[0] as real)
    case Sign8 => area.(ana := AsSigned(b[0], 256) as real)
    case UnSign16 => area.(ana := Unsigned2(b[0], b[1]) as real)
    case Sign16 => area.(ana := AsSigned(Unsigned2(b[0], b[1]), 0x1_0000) as real)
    case Float16 => area.(ana := KnxFloat.Decode(b[0], b[1]) as real / 100.0)
    case UnSign32 | Access => area.(ana := Unsigned4(b) as real)
    case Sign32 => area.(ana := AsSigned(Unsigned4(b), 0x1_0000_0000) as real)
    case Time =>
      area.(time := TimeOf(b[0], b[1], b[2]))
    case Date =>
      var month, day := b[1] % 16, b[2] % 32;
      area.(time := TimeData(YearOf(b[0] % 128),
                             if 1 <= month <= 12 then month else 1, if 1 <= day <= 31 then day else 1, 0, 0, 0, 0))
    case String => area.(txt := b)
    case Unknown => area
  }

  // ---------- DPT2Byte as it runs ----------

  /** The room that the encoder asks for before it writes. */
  function SizeNeeded(d: Dpt): nat {
    match d
    case Boolean | OneBitCtrl | ThreeBitCtrl => 1
    case _ => Length(d)
  }

  /** Writes the octets of g into a cleared data buffer of which `size` octets may be used; status -1
      refuses the value, or the room. */
  method DPT2Byte(g: GroupData, buf: array<Byte>, size: nat) returns (status: int, len: nat)
    requires buf.Length == |g.data.txt| == TXT_DATA_SIZE && forall i | 0 <= i < TXT_DATA_SIZE :: buf[i] == 0
    modifies buf
    ensures status == if Bytes(g).Some? && size >= SizeNeeded(g.dpt) then 0 else -1
    ensures status == 0 ==> len == Length(g.dpt)
    ensures status == 0 ==> buf[..] == Bytes(g).value + Zeros(TXT_DATA_SIZE - |Bytes(g).value|)
  {
    hide TimeOctet, AccessOk, Trunc, KnxFloat.Encode, Padded;
    status, len := 0, 0;
    if size < SizeNeeded(g.dpt) {
      return -1, 0;
    }
    var n := Trunc(g.data.ana);
    match g.dpt
    case Boolean =>
      buf[0] := if g.data.bin == 1 then 1 else 0;
    case OneBitCtrl | ThreeBitCtrl =>
      buf[0] := Low(n);
    case CharSet | UnSign8 | Sign8 =>
      buf[0] := Low(n);
      len := 1;
    case UnSign16 | Sign16 =>
      buf[0], buf[1] := Low(n / 256), Low(n);
      len := 2;
    case Float16 =>
      WriteFloat(n * 100, buf);
      len := 2;
    case UnSign32 | Sign32 =>
      WriteOctets4(n, buf);
      len := 4;
    case Time =>
      var t := g.data.time;
      if t.hour > 23 || t.minute > 59 || t.second > 59 || t.weekday > 7 {
        return -1, 0;
      }
      buf[0], buf[1], buf[2] := TimeOctet(t.weekday, t.hour), Low(t.minute), Low(t.second);
      len := 3;
    case Date =>
      var t := g.data.time;
      if t.year < 1990 || t.year > 2089 || t.month < 1 || t.month > 12 || t.day < 1 || t.day > 31 {
        return -1, 0;
      }
      buf[0], buf[1], buf[2] := if t.year < 2000 then t.year - 1900 else 2089 - t.year, t.month, t.day;
      len := 3;
    case Access =>
      if !AccessOk(n) {
        return -1, 0;
      }
      WriteOctets4(n, buf);
      len := 4;
    case String =>
      WriteString(g.data.txt, buf);
      len := MAX_DATA_AREASIZE;
    case Unknown =>
      return -1, 0;
  }

  method WriteOctets4(n: int, buf: array<Byte>)
    requires buf.Length >= 4
    modifies buf
    ensures buf[..] == Octets4(n) + old(buf[4..])
  {
    buf[0], buf[1], buf[2], buf[3] := Low(n / 0x100_0000), Low(n / 0x1_0000), Low(n / 256), Low(n);
  }

  /** The scaling loops of the 2-octet float, and the saturation. */
  method ScaleFloat(value: int) returns (val: int, exp: nat)
    ensures var (m, e) := KnxFloat.Shift(value, 0); val == KnxFloat.Clamp(m) && exp == e
  {
    val, exp := value, 0;
    if val >= 0 {
      while val >= 2048
        invariant exp < 15 && val >= 0
        invariant KnxFloat.Shift(val, exp) == KnxFloat.Shift(value, 0)
        decreases 15 - exp
      {
        exp := exp + 1;
        val := val / 2;
        if exp == 15 {
          break;
        }
      }
      if val >= 2048 {
        val := 2047;
      }
    } else {
      while val < -2048
        invariant exp < 15 && val < 0
        invariant KnxFloat.Shift(val, exp) == KnxFloat.Shift(value, 0)
        decreases 15 - exp
      {
        exp := exp + 1;
        val := val / 2;
        if exp == 15 {
          break;
        }
      }
      if val < -2048 {
        val := -2048;
      }
    }
  }

  method WriteFloat(value: int, buf: array<Byte>)
    requires buf.Length >= 2
    modifies buf
    ensures (buf[0], buf[1]) == KnxFloat.Encode(value) && buf[2..] == old(buf[2..])
  {
    hide KnxFloat.Shift;
    var val, exp := ScaleFloat(value);
    if val >= 0 {
      buf[0] := exp * 8 + val / 256;
    } else {
      buf[0] := exp * 8 + 0x80 + (val / 256 + 8);
    }
    buf[1] := Low(val);
  }

  /** Copies 14 characters and clears everything after the string they hold. */
  method WriteString(txt: seq<Byte>, buf: array<Byte>)
    requires buf.Length == |txt| == TXT_DATA_SIZE && buf[14] == buf[15] == 0
    modifies buf
    ensures buf[..] == Padded(txt)
  {
    forall i | 0 <= i < MAX_DATA_AREASIZE {
      buf[i] := txt[i];
    }
    assert buf[..MAX_DATA_AREASIZE] == txt[..MAX_DATA_AREASIZE];
    var len := StrLen(txt[..MAX_DATA_AREASIZE]);
    forall i | len <= i < TXT_DATA_SIZE {
      buf[i] := 0;
    }
  }
}
