/** Dotted-quad addresses: printing from 32 bits and Ip2Uint. */
module IpAddress {
  import opened Common
  import opened Arithmetic
  import opened DecimalText

  const RANGE := 0x1_0000_0000

  /** The four octets of an address, most significant first. */
  function Octet(ip: int, k: nat): (b: int)
    requires k < 4
    ensures 0 <= b < 256
  {
    (if k == 0 then ip / 0x100_0000 else if k == 1 then ip / 0x1_0000 else if k == 2 then ip / 0x100 else ip) % 256
  }

  /** A number, a separator, and the rest. */
  function Separated(n: nat, sep: Byte, rest: seq<Byte>): seq<Byte> {
    Digits(n) + ([sep] + rest)
  }

  function Dotted(n: nat, rest: seq<Byte>): seq<Byte> {
    Separated(n, DOT, rest)
  }

  /** "%d.%d.%d.%d" */
  function PrintIp(ip: int): seq<Byte> {
    Dotted(Octet(ip, 0), Dotted(Octet(ip, 1), Dotted(Octet(ip, 2), Digits(Octet(ip, 3)))))
  }

  /** Ip2Uint from some point of its loop: the text not yet read, the number being read, the result
      and the count so far.  All numbers are 32-bit unsigned. */
  function Scan(s: seq<Byte>, val: int, res: int, count: nat): (int, nat) {
    if s != [] && IsDigit(s[0]) then Scan(s[1..], (val * 10 + (s[0] - 48) as int) % RANGE, res, count)
    else
      var res' := (res * 256 + val % 256) % RANGE;
      if count + 1 >= 4 || s == [] then (res', count + 1) else Scan(s[1..], 0, res', count + 1)
  }

  /** Reads an address of at most 31 characters; the status is 0 when four numbers were found. */
  method Ip2Uint(text: seq<Byte>) returns (status: int, ip: int)
    requires |text| <= 31
    ensures var (res, count) := Scan(text, 0, 0, 0); ip == res && status == if count == 4 then 0 else -1
  {
    var res, val, count, index := 0, 0, 0, 0;
    while true
      invariant index <= |text| && count < 4
      invariant Scan(text[index..], val, res, count) == Scan(text, 0, 0, 0)
      decreases |text| - index
    {
      if index < |text| && IsDigit(text[index]) {
        val := (val * 10 + (text[index] - 48) as int) % RANGE;
      } else {
        res := (res * 256 + val % 256) % RANGE;
        count := count + 1;
        if count >= 4 || index >= |text| {
          break;
        }
        val := 0;
      }
      index := index + 1;
    }
    ip := res;
    status := if count != 4 then -1 else 0;
  }

  lemma ScanOneDigit(d: nat, rest: seq<Byte>, val: nat, res: int, count: nat)
    requires d < 10 && val * 10 + d < RANGE
    ensures Scan([(48 + d) as Byte] + rest, val, res, count) == Scan(rest, val * 10 + d, res, count)
  {
    assert ([(48 + d) as Byte] + rest)[1..] == rest;
  }

  lemma {:induction false} ScanDigits(n: nat, rest: seq<Byte>, res: int, count: nat)
    requires n < RANGE
    ensures Scan(Digits(n) + rest, 0, res, count) == Scan(rest, n, res, count)
    decreases n
  {
    hide Scan;
    var last: seq<Byte> := [48 + n % 10];
    if n < 10 {
      assert Digits(n) == last;
      ScanOneDigit(n, rest, 0, res, count);
    } else {
      assert Digits(n) + rest == Digits(n / 10) + (last + rest);
      ScanDigits(n / 10, last + rest, res, count);
      ScanOneDigit(n % 10, rest, n / 10, res, count);
    }
  }

  lemma ScanNumber(n: nat, low: nat, sep: Byte, rest: seq<Byte>, res: nat, count: nat)
    requires n < RANGE && low == n % 256 && !IsDigit(sep) && count < 3 && res * 256 + low < RANGE
    ensures Scan(Separated(n, sep, rest), 0, res, count) == Scan(rest, 0, res * 256 + low, count + 1)
  {
    hide Scan, Digits;
    ScanDigits(n, [sep] + rest, res, count);
    ScanSeparator(n, low, sep, rest, res, count);
  }

  lemma ScanSeparator(n: nat, low: nat, sep: Byte, rest: seq<Byte>, res: nat, count: nat)
    requires low == n % 256 && !IsDigit(sep) && count < 3 && res * 256 + low < RANGE
    ensures Scan([sep] + rest, n, res, count) == Scan(rest, 0, res * 256 + low, count + 1)
  {
    assert ([sep] + rest)[1..] == rest;
  }

  lemma ScanLast(n: nat, low: nat, res: nat)
    requires n < RANGE && low == n % 256 && res * 256 + low < RANGE
    ensures Scan(Digits(n), 0, res, 3) == (res * 256 + low, 4)
  {
    assert Digits(n) + [] == Digits(n);
    ScanDigits(n, [], res, 3);
  }

  /** Any four numbers of up to 32 bits with single characters that are no digits between them are read:
      each counts by its low octet. */
  lemma ScanAnyQuad(a: nat, b: nat, c: nat, d: nat, x: Byte, y: Byte, z: Byte)
    requires a < RANGE && b < RANGE && c < RANGE && d < RANGE && !IsDigit(x) && !IsDigit(y) && !IsDigit(z)
    ensures Scan(Separated(a, x, Separated(b, y, Separated(c, z, Digits(d)))), 0, 0, 0)
         == (((a % 256 * 256 + b % 256) * 256 + c % 256) * 256 + d % 256, 4)
  {
    hide Scan, Digits, Separated;
    var la, lb, lc, ld := a % 256, b % 256, c % 256, d % 256;
    ScanNumber(a, la, x, Separated(b, y, Separated(c, z, Digits(d))), 0, 0);
    ScanNumber(b, lb, y, Separated(c, z, Digits(d)), la, 1);
    ScanNumber(c, lc, z, Digits(d), la * 256 + lb, 2);
    ScanLast(d, ld, (la * 256 + lb) * 256 + lc);
  }

  /** A dotted quad is read as its four numbers in base 256. */
  lemma ScanQuad(a: nat, b: nat, c: nat, d: nat)
    requires a < 256 && b < 256 && c < 256 && d < 256
    ensures Scan(Dotted(a, Dotted(b, Dotted(c, Digits(d)))), 0, 0, 0) == (((a * 256 + b) * 256 + c) * 256 + d, 4)
  {
    hide Scan, Separated;
    ScanAnyQuad(a, b, c, d, DOT, DOT, DOT);
    assert a % 256 == a && b % 256 == b && c % 256 == c && d % 256 == d;
  }

  function NonDigits(s: seq<Byte>): nat {
    if s == [] then 0 else (if IsDigit(s[0]) then 0 else 1) + NonDigits(s[1..])
  }

  /** Four numbers are found exactly when the text has three characters that are no digits, whatever these
      are and whether digits stand between them or not. */
  lemma {:induction false} FoundFour(s: seq<Byte>, val: int, res: int, count: nat)
    requires count < 4
    ensures Scan(s, val, res, count).1 == if count + 1 + NonDigits(s) >= 4 then 4 else count + 1 + NonDigits(s)
    decreases |s|
  {
    if s != [] {
      if IsDigit(s[0]) {
        FoundFour(s[1..], (val * 10 + (s[0] - 48) as int) % RANGE, res, count);
      } else if count + 1 < 4 {
        FoundFour(s[1..], 0, (res * 256 + val % 256) % RANGE, count + 1);
      }
    }
  }

  lemma OctetsMakeAddress(ip: int)
    requires 0 <= ip < RANGE
    ensures ((Octet(ip, 0) * 256 + Octet(ip, 1)) * 256 + Octet(ip, 2)) * 256 + Octet(ip, 3) == ip
  {
    var x1 := ip / 256;
    var x2 := x1 / 256;
    var x3 := x2 / 256;
    DivModUnique(ip, x2, x1 % 256 * 256 + ip % 256, 0x1_0000);
    DivModUnique(ip, x3, x2 % 256 * 0x1_0000 + x1 % 256 * 256 + ip % 256, 0x100_0000);
  }

  /** Every 32-bit address survives being printed and read, within the 31 characters that fit. */
  lemma IpRoundTrip(ip: int)
    requires 0 <= ip < RANGE
    ensures Scan(PrintIp(ip), 0, 0, 0) == (ip, 4) && |PrintIp(ip)| <= 15
  {
    hide Scan, Octet, Digits;
    ScanQuad(Octet(ip, 0), Octet(ip, 1), Octet(ip, 2), Octet(ip, 3));
    OctetsMakeAddress(ip);
    assert Pow10(3) == 1000;
    DigitsLength(Octet(ip, 0), 3, 1000);
    DigitsLength(Octet(ip, 1), 3, 1000);
    DigitsLength(Octet(ip, 2), 3, 1000);
    DigitsLength(Octet(ip, 3), 3, 1000);
  }
}
