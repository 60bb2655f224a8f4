/** Which values the data point encoder takes, and the octets that it writes for them. */
module KnxValues {
  import opened Arithmetic
  import opened ByteSwap
  import opened Common
  import opened KnxDpt

  /** The conversion drops the fraction: it moves towards zero by less than one. */
  lemma TruncDropsFraction(x: real)
    ensures var n := Trunc(x) as real; if x >= 0.0 then 0.0 <= n <= x < n + 1.0 else n - 1.0 < x <= n <= 0.0
  {
  }

  /** The types that the encoder never refuses. */
  predicate AlwaysTaken(d: Dpt) {
    d !in {Time, Date, Access, Unknown}
  }

  lemma OnlyFourTypesRefuse(g: GroupData)
    requires |g.data.txt| == TXT_DATA_SIZE
    ensures AlwaysTaken(g.dpt) ==> Bytes(g).Some?
    ensures g.dpt.Unknown? ==> Bytes(g).None?
  {
  }

  /** The power of 256 for n octets. */
  function OctetRange(n: nat): nat {
    Pow2(8 * n)
  }

  /** Integers are written high octet first, in one, two or four octets. */
  lemma IntegerOctets(g: GroupData)
    requires |g.data.txt| == TXT_DATA_SIZE && IsNumber(g.dpt) && Bytes(g).Some?
    ensures var b := Bytes(g).value;
            && |b| == (if Length(g.dpt) == 0 then 1 else Length(g.dpt))
            && BigEndian(b) == Trunc(g.data.ana) % OctetRange(|b|)
  {
    var n := Trunc(g.data.ana);
    IntegerBytes(g, n);
    hide Trunc, BigEndian, Bytes, Low, Octets2, Octets4, Pow2;
    RangesUsed();
    BigEndianOctets2(n);
    BigEndianOctets4(n);
    BigEndian1(Low(n));
    LowIsRemainder(n);
  }

  lemma LowIsRemainder(n: int)
    ensures Low(n) == n % 256 && |Octets2(n)| == 2 && |Octets4(n)| == 4
  {
  }

  lemma RangesUsed()
    ensures OctetRange(1) == 256 && OctetRange(2) == 0x1_0000 && OctetRange(4) == 0x1_0000_0000
  {
    assert Pow2(8) == 256;
    PowersUsed();
  }

  lemma IntegerBytes(g: GroupData, n: int)
    requires |g.data.txt| == TXT_DATA_SIZE && IsNumber(g.dpt) && Bytes(g).Some? && n == Trunc(g.data.ana)
    ensures Bytes(g).value == if Length(g.dpt) == 4 then Octets4(n)
                              else if Length(g.dpt) == 2 then Octets2(n) else [Low(n)]
    ensures Length(g.dpt) in {0, 1, 2, 4}
  {
    hide Trunc, AccessOk, Low;
  }

  lemma BigEndian1(b: Byte)
    ensures BigEndian([b]) == b as int
  {
    BigEndianSnoc([], b);
    assert [] + [b] == [b];
  }

  /** The hour, minute and second of a second of the day. */
  predicate IsTimeOfDay(t: TimeData, secondOfDay: nat) {
    secondOfDay < 86400 && t.hour == secondOfDay / 3600 && t.minute == secondOfDay / 60 % 60
    && t.second == secondOfDay % 60
  }

  /** Every time of day, with a weekday from none to Sunday, is taken, and of times without negative parts
      nothing else is.  The octets are those of DPT 10.001: weekday and hour, minute, second. */
  lemma TimesOfDayAreTaken(g: GroupData)
    requires |g.data.txt| == TXT_DATA_SIZE && g.dpt.Time?
    requires var t := g.data.time; t.hour >= 0 && t.minute >= 0 && t.second >= 0 && t.weekday >= 0
    ensures var t := g.data.time;
            && (Bytes(g).Some? <==> t.weekday <= 7 && exists n: nat :: IsTimeOfDay(t, n))
            && (Bytes(g).Some? ==> Bytes(g).value == [32 * t.weekday + t.hour, t.minute, t.second])
  {
    hide TimeOctet;
    var t := g.data.time;
    if Bytes(g).Some? {
      TimeOctetValue(t.weekday, t.hour);
      var n := (t.hour * 60 + t.minute) * 60 + t.second;
      SecondOfDay(t.hour, t.minute, t.second);
      assert IsTimeOfDay(t, n);
    }
  }

  lemma SecondOfDay(h: nat, m: nat, s: nat)
    requires h < 24 && m < 60 && s < 60
    ensures var n := (h * 60 + m) * 60 + s; n < 86400 && n / 3600 == h && n / 60 % 60 == m && n % 60 == s
  {
  }

  lemma TimeOctetValue(weekday: int, hour: int)
    requires 0 <= weekday <= 7 && 0 <= hour <= 31
    ensures TimeOctet(weekday, hour) == 32 * weekday + hour
  {
    hide OrBits;
    assert Pow2(3) == 8;
    OrBitsZero(weekday, 3);
  }

  function DaysIn(year: int, month: int): int {
    if month == 2 then if year % 4 == 0 && (year % 100 != 0 || year % 400 == 0) then 29 else 28
    else if month in {4, 6, 9, 11} then 30
    else 31
  }

  /** Every day of the calendar from 1990 to 2089 is taken, and nothing outside the years, months and days
      of the month. */
  lemma CalendarDaysAreTaken(g: GroupData)
    requires |g.data.txt| == TXT_DATA_SIZE && g.dpt.Date?
    ensures var t := g.data.time;
            && (1990 <= t.year <= 2089 && 1 <= t.month <= 12 && 1 <= t.day <= DaysIn(t.year, t.month) ==>
                  Bytes(g).Some?)
            && (Bytes(g).Some? ==> 1990 <= t.year <= 2089 && 1 <= t.month <= 12 && 1 <= t.day <= 31)
  {
  }

  /** The octets of a date: the year of the century up to 1999, from 2000 on the years left to 2089, then
      month and day.  DPT 11.001 wants the year of the century for both. */
  lemma DateOctets(g: GroupData)
    requires |g.data.txt| == TXT_DATA_SIZE && g.dpt.Date? && Bytes(g).Some?
    ensures var t := g.data.time;
            && Bytes(g).value[1..] == [t.month, t.day]
            && Bytes(g).value[0] as int + t.year == (if t.year < 2000 then 2 * t.year - 1900 else 2089)
            && (Bytes(g).value[0] as int == t.year % 100 <==> t.year < 2000)
  {
  }

  /** The number whose hexadecimal digits are the decimal ones of n. */
  function Bcd(n: nat): nat {
    if n < 10 then n else Bcd(n / 10) * 16 + n % 10
  }

  /** Access codes are taken exactly if their six leading hexadecimal digits are a decimal number. */
  lemma AccessCodesAreTaken(g: GroupData)
    requires |g.data.txt| == TXT_DATA_SIZE && g.dpt.Access?
    ensures Bytes(g).Some? <==> exists code: nat :: IsAccessCode(Trunc(g.data.ana), code)
  {
    hide AccessOk, Trunc, DecimalDigits, Bcd;
    var n := Trunc(g.data.ana);
    AccessOkDigits(n);
    assert Pow10(6) == 1_000_000;
    if AccessOk(n) {
      var code := DecimalDigitsAreBcd(n / 0x100 % 0x100_0000, 6);
      assert IsAccessCode(n, code);
    } else {
      forall code: nat ensures !IsAccessCode(n, code) {
        if IsAccessCode(n, code) { BcdHasDecimalDigits(code, 6); }
      }
    }
  }

  predicate IsAccessCode(n: int, code: nat) {
    code < 1_000_000 && n / 0x100 % 0x100_0000 == Bcd(code)
  }

  /** x has at most k hexadecimal digits, all of them decimal. */
  predicate DecimalDigits(x: nat, k: nat) {
    if k == 0 then x == 0 else x % 16 <= 9 && DecimalDigits(x / 16, k - 1)
  }

  lemma {:induction false} BcdHasDecimalDigits(code: nat, k: nat)
    requires code < Pow10(k)
    ensures DecimalDigits(Bcd(code), k)
    decreases k
  {
    if k > 0 {
      BcdHasDecimalDigits(code / 10, k - 1);
      if code < 10 { assert Bcd(code / 10) == 0; }
      DivModUnique(Bcd(code), Bcd(code / 10), code % 10, 16);
    }
  }

  lemma {:induction false} DecimalDigitsAreBcd(x: nat, k: nat) returns (code: nat)
    requires DecimalDigits(x, k)
    ensures code < Pow10(k) && Bcd(code) == x
    decreases k
  {
    code := 0;
    if k > 0 {
      var rest := DecimalDigitsAreBcd(x / 16, k - 1);
      code := rest * 10 + x % 16;
      DivModUnique(code, rest, x % 16, 10);
      if rest == 0 { assert x / 16 == 0; }
    }
  }

  /** The hexadecimal digits of m from the lowest on, one by one. */
  lemma FirstDigit(m: int, k: nat, r: nat)
    requires k > 0 && r > 0
    ensures DecimalDigits(m % (16 * r), k) <==> m % 16 <= 9 && DecimalDigits(m / 16 % r, k - 1)
  {
    NextHexDigit(m, r);
  }

  lemma AccessOkDigits(n: int)
    ensures AccessOk(n) <==> DecimalDigits(n / 0x100 % 0x100_0000, 6)
  {
    var m := n / 0x100;
    FirstDigit(m, 6, 0x10_0000);
    FirstDigit(m / 16, 5, 0x1_0000);
    FirstDigit(m / 0x100, 4, 0x1000);
    FirstDigit(m / 0x1000, 3, 0x100);
    FirstDigit(m / 0x1_0000, 2, 0x10);
    FirstDigit(m / 0x10_0000, 1, 1);
    assert DecimalDigits(m / 0x100_0000 % 1, 0);
    hide DecimalDigits;
    HexShifts(n);
  }

  lemma HexShifts(n: int)
    ensures var m := n / 0x100;
            && m / 16 / 16 == m / 0x100 && m / 0x100 / 16 == m / 0x1000 && m / 0x1000 / 16 == m / 0x1_0000
            && m / 0x1_0000 / 16 == m / 0x10_0000 && m / 0x10_0000 / 16 == m / 0x100_0000
            && n / 0x1000 == m / 16 && n / 0x1_0000 == m / 0x100 && n / 0x10_0000 == m / 0x1000
            && n / 0x100_0000 == m / 0x1_0000 && n / 0x1000_0000 == m / 0x10_0000
  {
  }

  lemma NextHexDigit(m: int, r: nat)
    requires r > 0
    ensures m % (16 * r) / 16 == m / 16 % r && m % (16 * r) % 16 == m % 16
  {
    var q, h := m / 16 / r, m / 16 % r;
    assert m / 16 == r * q + h;
    assert m == 16 * r * q + (16 * h + m % 16);
    assert 16 * h + m % 16 < 16 * r;
    DivModUnique(m, q, 16 * h + m % 16, 16 * r);
    DivModUnique(16 * h + m % 16, h, m % 16, 16);
  }
}
