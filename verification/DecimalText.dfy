/** Decimal text as C prints and reads it; characters are their ASCII codes. */
module DecimalText {
  import opened Arithmetic
  import opened Common

  const MINUS: Byte := 45
  const PLUS: Byte := 43
  const DOT: Byte := 46
  const SLASH: Byte := 47

  predicate IsDigit(c: Byte) {
    48 <= c <= 57
  }

  predicate IsSpace(c: Byte) {
    c == 32 || 9 <= c <= 13
  }

  /** "%d" of a nonnegative number. */
  function Digits(n: nat): (s: seq<Byte>)
    ensures s != [] && forall c <- s :: IsDigit(c)
  {
    if n < 10 then [48 + n] else Digits(n / 10) + [48 + n % 10]
  }

  /** "%d" */
  function Print(n: int): (s: seq<Byte>)
    ensures s != [] && forall c <- s :: IsDigit(c) || c == MINUS
  {
    if n < 0 then [MINUS] + Digits(-n) else Digits(n)
  }

  /** The digits at the front of s, appended to the number acc. */
  function ReadDigits(s: seq<Byte>, acc: nat): nat {
    if s == [] || !IsDigit(s[0]) then acc else ReadDigits(s[1..], acc * 10 + (s[0] - 48) as int)
  }

  /** atoi */
  function Atoi(s: seq<Byte>): int {
    if s == [] then 0
    else if IsSpace(s[0]) then Atoi(s[1..])
    else if s[0] == MINUS then -(ReadDigits(s[1..], 0) as int)
    else if s[0] == PLUS then ReadDigits(s[1..], 0)
    else ReadDigits(s, 0)
  }

  /** Reading the digits of n leaves n and whatever follows. */
  lemma {:induction false} ReadPrinted(n: nat, rest: seq<Byte>)
    ensures ReadDigits(Digits(n) + rest, 0) == ReadDigits(rest, n)
    decreases n
  {
    hide ReadDigits;
    var last: seq<Byte> := [48 + n % 10];
    if n < 10 {
      ReadOne(n, rest, 0);
      assert Digits(n) == last;
    } else {
      assert Digits(n) + rest == Digits(n / 10) + (last + rest);
      ReadPrinted(n / 10, last + rest);
      ReadOne(n % 10, rest, n / 10);
    }
  }

  lemma ReadOne(d: nat, rest: seq<Byte>, acc: nat)
    requires d < 10
    ensures ReadDigits([(48 + d) as Byte] + rest, acc) == ReadDigits(rest, acc * 10 + d)
  {
    assert ([(48 + d) as Byte] + rest)[1..] == rest;
  }

  /** atoi of the printed number, whatever non-digit follows it. */
  lemma AtoiPrint(n: int, rest: seq<Byte>)
    requires rest == [] || !IsDigit(rest[0])
    ensures Atoi(Print(n) + rest) == n
  {
    hide ReadDigits, Digits, Atoi;
    var m := if n < 0 then -n else n;
    ReadPrinted(m, rest);
    ReadNothing(rest, m);
    assert IsDigit(Digits(m)[0]);
    if n < 0 {
      assert Print(n) + rest == [MINUS] + (Digits(m) + rest);
      AtoiMinus(Digits(m) + rest);
    } else {
      AtoiDigit(Digits(m) + rest);
    }
  }

  lemma AtoiDigit(s: seq<Byte>)
    requires s != [] && IsDigit(s[0])
    ensures Atoi(s) == ReadDigits(s, 0)
  {
  }

  lemma AtoiMinus(s: seq<Byte>)
    ensures Atoi([MINUS] + s) == -(ReadDigits(s, 0) as int)
  {
    assert ([MINUS] + s)[1..] == s;
  }

  /** A text in full, both ways: "-2047". */
  lemma KnownText()
    ensures Print(-2047) == [MINUS, 50, 48, 52, 55] && Atoi([MINUS, 50, 48, 52, 55]) == -2047
  {
    assert Digits(20) == [50, 48] && Digits(204) == [50, 48, 52];
    AtoiPrint(-2047, []);
    assert Print(-2047) + [] == Print(-2047);
  }

  /** White space in front and a plus sign are skipped, and reading ends at the first other character:
      " +12/3" is 12. */
  lemma KnownSpacedText()
    ensures Atoi([32, PLUS, 49, 50, SLASH, 51]) == 12
  {
    hide Digits;
    var rest: seq<Byte> := [SLASH, 51];
    ReadOne(1, [50] + rest, 0);
    ReadOne(2, rest, 1);
    var u: seq<Byte> := [49, 50, SLASH, 51];
    assert u == [49] + ([50] + rest);
    assert [32, PLUS, 49, 50, SLASH, 51][1..] == [PLUS] + u && ([PLUS] + u)[1..] == u;
  }

  /** atoi reads up to the terminator. */
  lemma {:induction false} AtoiStops(s: seq<Byte>, rest: seq<Byte>)
    ensures Atoi(s + ([0] + rest)) == Atoi(s)
  {
    var t := [0] + rest;
    if s != [] {
      assert (s + t)[1..] == s[1..] + t;
      ReadStops(s, rest, 0);
      ReadStops(s[1..], rest, 0);
      if IsSpace(s[0]) { AtoiStops(s[1..], rest); }
    } else {
      assert s + t == t;
    }
  }

  lemma {:induction false} ReadStops(s: seq<Byte>, rest: seq<Byte>, acc: nat)
    ensures ReadDigits(s + ([0] + rest), acc) == ReadDigits(s, acc)
  {
    var t := [0] + rest;
    if s != [] {
      assert (s + t)[1..] == s[1..] + t;
      if IsDigit(s[0]) { ReadStops(s[1..], rest, acc * 10 + (s[0] - 48) as int); }
    }
  }

  lemma ReadNothing(rest: seq<Byte>, acc: nat)
    requires rest == [] || !IsDigit(rest[0])
    ensures ReadDigits(rest, acc) == acc
  {
  }

  lemma {:induction false} DigitsLength(n: nat, k: nat, bound: nat)
    requires n < bound && k > 0 && bound == Pow10(k)
    ensures |Digits(n)| <= k
    decreases k
  {
    if n >= 10 {
      DigitsLength(n / 10, k - 1, Pow10(k - 1));
    }
  }

  /** A 32-bit signed number takes at most eleven characters, none of them a terminator. */
  lemma PrintInt32(n: int)
    requires -0x8000_0000 <= n < 0x8000_0000
    ensures 1 <= |Print(n)| <= 11
    ensures forall c <- Print(n) :: c != 0
  {
    assert Pow10(5) == 100_000;
    assert Pow10(10) == 10_000_000_000;
    DigitsLength(if n < 0 then -n else n, 10, Pow10(10));
  }
}
