/**
 The 2-octet float of KNX (section 3.10 of 03_07_02): bits M EEEE MMM MMMMMMMM, meaning
 0.01 * M * 2^E with a signed 12-bit mantissa.  Values are in hundredths here.  The encoder and the
 decoder work on bit fields that do not overlap, so their `|` and `&` are written as arithmetic.
 */
module KnxFloat {
  import opened Common
  import opened Arithmetic

  const MANTISSA_MAX := 2047
  const MANTISSA_MIN := -2048
  const EXPONENT_MAX := 15

  predicate InMantissa(m: int) {
    MANTISSA_MIN <= m <= MANTISSA_MAX
  }

  /** Halving, rounding down, until the mantissa fits or the exponent is used up. */
  function Shift(n: int, e: nat): (r: (int, nat))
    requires e <= EXPONENT_MAX
    ensures e <= r.1 <= EXPONENT_MAX && (InMantissa(r.0) || r.1 == EXPONENT_MAX)
    decreases EXPONENT_MAX - e
  {
    if InMantissa(n) || e == EXPONENT_MAX then (n, e) else Shift(n / 2, e + 1)
  }

  function Clamp(m: int): int {
    if m > MANTISSA_MAX then MANTISSA_MAX else if m < MANTISSA_MIN then MANTISSA_MIN else m
  }

  /** The two octets of a mantissa and an exponent. */
  function Pack(m: int, e: nat): (Byte, Byte)
    requires InMantissa(m) && e <= EXPONENT_MAX
  {
    (if m >= 0 then e * 8 + m / 256 else 128 + e * 8 + (m / 256 + 8), m % 256)
  }

  function Encode(n: int): (Byte, Byte) {
    var (m, e) := Shift(n, 0);
    Pack(Clamp(m), e)
  }

  function Mantissa(hi: Byte, lo: Byte): int {
    var field := hi % 8 * 256 + lo;
    if hi / 128 == 0 then field else field - 2048
  }

  function Decode(hi: Byte, lo: Byte): int {
    Mantissa(hi, lo) * Pow2(hi / 8 % 16)
  }

  ghost predicate Represents(v: int, m: int, e: nat) {
    InMantissa(m) && e <= EXPONENT_MAX && v == m * Pow2(e)
  }

  ghost predicate Representable(v: int) {
    exists m, e: nat :: Represents(v, m, e)
  }

  const LOWEST := MANTISSA_MIN * 32768
  const HIGHEST := MANTISSA_MAX * 32768

  lemma Pow2At15()
    ensures Pow2(15) == 32768
  {
    assert Pow2(5) == 32;
    assert Pow2(10) == 1024;
  }

  // ---------- the two octets hold the mantissa and the exponent ----------

  lemma PackFields(m: int, e: nat)
    requires InMantissa(m) && e <= EXPONENT_MAX
    ensures var (hi, lo) := Pack(m, e); Mantissa(hi, lo) == m && hi / 8 % 16 == e
  {
    var q := if m >= 0 then m / 256 else m / 256 + 8;
    assert 0 <= q < 8;
  }

  /** As a 16-bit word: the sign, then the exponent, then the mantissa's eleven low bits. */
  lemma PackedWord(m: int, e: nat)
    requires InMantissa(m) && e <= EXPONENT_MAX
    ensures var (hi, lo) := Pack(m, e); Unsigned2(hi, lo) == (if m < 0 then 0x8000 else 0) + 0x800 * e + m % 0x800
  {
    if m < 0 {
      DivModUnique(m, -1, m + 0x800, 0x800);
    } else {
      DivModUnique(m, 0, m, 0x800);
    }
  }

  /** Every pair of octets is the packing of one mantissa and one exponent, the decoder's. */
  lemma EveryWordIsPacked(hi: Byte, lo: Byte)
    ensures InMantissa(Mantissa(hi, lo)) && Pack(Mantissa(hi, lo), hi / 8 % 16) == (hi, lo)
    ensures Decode(hi, lo) == Mantissa(hi, lo) * Pow2(hi / 8 % 16)
  {
    var m := Mantissa(hi, lo);
    var top := hi / 128;
    assert hi == 128 * top + 8 * (hi / 8 % 16) + hi % 8;
    DivModUnique(m, if top == 0 then hi % 8 else hi % 8 - 8, lo, 256);
  }

  /** The worked examples of the data point specification: 21.00 is 0C1A, and -30.00 is 8A24. */
  lemma KnownFloats()
    ensures Encode(2100) == (0x0C, 0x1A) && Decode(0x0C, 0x1A) == 2100
    ensures Encode(-3000) == (0x8A, 0x24) && Decode(0x8A, 0x24) == -3000
  {
    ShiftOnce(2100);
    ShiftOnce(-3000);
    hide Shift;
    assert Pow2(1) == 2;
  }

  lemma ShiftOnce(n: int)
    requires !InMantissa(n) && InMantissa(n / 2)
    ensures Shift(n, 0) == (n / 2, 1)
  {
  }

  // ---------- the encoder rounds down to a representable number ----------

  /** m is n divided by 2^k, rounded down. */
  ghost predicate FloorBy(n: int, m: int, k: nat) {
    m * Pow2(k) <= n < (m + 1) * Pow2(k)
  }

  /** n does not fit the mantissa even after k halvings. */
  ghost predicate Outside(n: int, k: nat) {
    if n >= 0 then n >= 2048 * Pow2(k) else n < -2048 * Pow2(k)
  }

  lemma HalvingComposes(n: int, m: int, k: nat)
    requires FloorBy(n / 2, m, k)
    ensures FloorBy(n, m, k + 1)
  {
    var p := Pow2(k);
    assert m * (2 * p) == 2 * (m * p) && (m + 1) * (2 * p) == 2 * ((m + 1) * p);
  }

  lemma OutsideComposes(n: int, k: nat)
    requires Outside(n / 2, k)
    ensures Outside(n, k + 1)
  {
  }

  lemma {:induction false} ShiftRoundsDown(n: int, e: nat)
    requires e <= EXPONENT_MAX
    ensures var (m, x) := Shift(n, e);
            FloorBy(n, m, x - e) && (x > e ==> Outside(n, x - e - 1)) && (n >= 0 <==> m >= 0)
    decreases EXPONENT_MAX - e
  {
    if InMantissa(n) || e == EXPONENT_MAX {
      assert FloorBy(n, n, 0);
    } else {
      hide FloorBy, Outside, Pow2;
      ShiftRoundsDown(n / 2, e + 1);
      var (m, x) := Shift(n / 2, e + 1);
      HalvingComposes(n, m, x - e - 1);
      if x == e + 1 { OutsideAtOnce(n); } else { OutsideComposes(n, x - e - 2); }
    }
  }

  lemma OutsideAtOnce(n: int)
    requires !InMantissa(n)
    ensures Outside(n, 0)
  {
  }

  /** A multiple of p that is not above n is at most the rounded-down multiple. */
  lemma MultipleBelow(n: int, m: int, p: nat, k: int)
    requires n < (m + 1) * p && k * p <= n
    ensures k <= m
  {
    if k >= m + 1 { ScaleMonotone(m + 1, k, p); }
  }

  /** No representable number lies strictly between the encoded one and n. */
  lemma NothingBetween(n: int, w: int, m2: int, e2: nat)
    requires Represents(w, m2, e2) && w <= n && InMantissa(Shift(n, 0).0)
    ensures w <= Shift(n, 0).0 * Pow2(Shift(n, 0).1)
  {
    hide Shift;
    ShiftRoundsDown(n, 0);
    var (m, e) := Shift(n, 0);
    if e2 >= e {
      CoarserMultiple(n, m, m2, e, e2 - e);
    } else {
      Pow2Monotone(e2, e - 1);
      FinerMultiple(n, m, m2, Pow2(e2), Pow2(e - 1));
    }
  }

  lemma CoarserMultiple(n: int, m: int, m2: int, e: nat, d: nat)
    requires FloorBy(n, m, e) && m2 * Pow2(d + e) <= n
    ensures m2 * Pow2(d + e) <= m * Pow2(e)
  {
    hide Pow2;
    Pow2Adds(d, e);
    var p := Pow2(e);
    var k := m2 * Pow2(d);
    Regroup(m2, Pow2(d), p);
    MultipleBelow(n, m, p, k);
    ScaleMonotone(k, m, p);
  }

  lemma Regroup(a: int, b: int, c: int)
    ensures a * (b * c) == a * b * c
  {
  }

  /** With a smaller exponent, only numbers closer to zero than n can be written. */
  lemma FinerMultiple(n: int, m: int, m2: int, p2: nat, p: nat)
    requires InMantissa(m2) && 1 <= p2 <= p && m2 * p2 <= n < (m + 1) * (2 * p)
    requires if n >= 0 then n >= 2048 * p else n < -2048 * p
    ensures m2 * p2 <= m * (2 * p)
  {
    ScaleMonotone(MANTISSA_MIN, m2, p2);
    ScaleMonotone(m2, MANTISSA_MAX, p2);
    assert n >= 2048 * p;
    assert m2 * p2 <= 2047 * p;
    MultipleBelow(n, m, 2 * p, 1024);
    ScaleMonotone(1024, m, 2 * p);
  }

  lemma EncodedIsScaled(n: int)
    ensures var (m, e) := Shift(n, 0); var (hi, lo) := Encode(n);
            Decode(hi, lo) == Clamp(m) * Pow2(e) && Represents(Decode(hi, lo), Clamp(m), e)
  {
    hide Shift, Mantissa, Pow2;
    var (m, e) := Shift(n, 0);
    PackFields(Clamp(m), e);
  }

  /** When the mantissa does not fit even with the largest exponent, n is beyond every representable
      number and the result is the nearest of them. */
  lemma Saturates(n: int)
    requires !InMantissa(Shift(n, 0).0)
    ensures var v := Clamp(Shift(n, 0).0) * Pow2(Shift(n, 0).1);
            if n >= 0 then n > HIGHEST && v == HIGHEST else n < LOWEST && v == LOWEST
  {
    hide Shift;
    ShiftRoundsDown(n, 0);
    Pow2At15();
    hide Pow2, Outside;
  }

  /** Main result: decoding the encoding of n gives the largest representable number that is not
      above n, and the lowest one when n is below them all. */
  lemma EncodeRoundsDown(n: int)
    ensures var (hi, lo) := Encode(n); var v := Decode(hi, lo);
            && Representable(v)
            && (n >= LOWEST ==> v <= n && forall w :: Representable(w) && w <= n ==> w <= v)
            && (n < LOWEST ==> v == LOWEST)
            && (n >= HIGHEST ==> v == HIGHEST)
  {
    hide Shift, Encode, Decode, Pow2;
    EncodedIsScaled(n);
    var (m, e) := Shift(n, 0);
    var v := Clamp(m) * Pow2(e);
    assert Representable(v);
    RepresentableBounds(v);
    BoundsAreRepresentable();
    if InMantissa(m) {
      ShiftRoundsDown(n, 0);
      forall w | Representable(w) && w <= n ensures w <= v {
        var m2, e2: nat :| Represents(w, m2, e2);
        NothingBetween(n, w, m2, e2);
      }
    } else {
      Saturates(n);
      forall w | Representable(w) ensures LOWEST <= w <= HIGHEST { RepresentableBounds(w); }
    }
  }

  lemma BoundsAreRepresentable()
    ensures Representable(LOWEST) && Representable(HIGHEST)
  {
    Pow2At15();
    assert Represents(LOWEST, MANTISSA_MIN, 15) && Represents(HIGHEST, MANTISSA_MAX, 15);
  }

  lemma RepresentableBounds(w: int)
    requires Representable(w)
    ensures LOWEST <= w <= HIGHEST
  {
    var m, e: nat :| Represents(w, m, e);
    Pow2At15();
    Pow2Monotone(e, 15);
    ScaleMonotone(MANTISSA_MIN, m, Pow2(e));
    ScaleMonotone(m, MANTISSA_MAX, Pow2(e));
  }

  // ---------- consequences ----------

  function Rounded(n: int): int {
    var (hi, lo) := Encode(n);
    Decode(hi, lo)
  }

  lemma RoundingIsMonotone(a: int, b: int)
    requires a <= b
    ensures Rounded(a) <= Rounded(b)
  {
    hide Encode, Decode, Representable;
    EncodeRoundsDown(a);
    EncodeRoundsDown(b);
    RepresentableBounds(Rounded(b));
  }

  /** A representable number survives; in particular rounding twice is rounding once. */
  lemma RoundingIsIdempotent(n: int)
    ensures Representable(n) <==> Rounded(n) == n
    ensures Rounded(Rounded(n)) == Rounded(n)
  {
    hide Encode, Decode, Representable;
    EncodeRoundsDown(n);
    EncodeRoundsDown(Rounded(n));
    RepresentableBounds(Rounded(n));
    if Representable(n) { RepresentableBounds(n); }
  }

  lemma MantissaFits(n: int)
    requires LOWEST <= n < HIGHEST + 32768
    ensures InMantissa(Shift(n, 0).0)
  {
    hide Shift;
    ShiftRoundsDown(n, 0);
    Pow2At15();
    hide Pow2;
    var (m, e) := Shift(n, 0);
    if m >= 2048 { ScaleMonotone(2048, m, Pow2(e)); }
    if m + 1 <= -2048 { ScaleMonotone(m + 1, -2048, Pow2(e)); }
  }

  /** Inside the range the error is less than one unit of the exponent, and for nonnegative numbers
      at most a 1024th of the number. */
  lemma RoundingError(n: int)
    requires LOWEST <= n < HIGHEST + 32768
    ensures 0 <= n - Rounded(n) < Pow2(Shift(n, 0).1)
    ensures n >= 0 ==> (n - Rounded(n)) * 1024 <= n
  {
    MantissaFits(n);
    EncodedIsScaled(n);
    ShiftRoundsDown(n, 0);
    hide *;
    var (m, e) := Shift(n, 0);
    RemainderBounds(n, m, e);
  }

  lemma RemainderBounds(n: int, m: int, e: nat)
    requires FloorBy(n, m, e) && InMantissa(m) && (e > 0 ==> Outside(n, e - 1))
    ensures 0 <= n - m * Pow2(e) < Pow2(e)
    ensures n >= 0 ==> (n - m * Pow2(e)) * 1024 <= n
  {
    assert (m + 1) * Pow2(e) == m * Pow2(e) + Pow2(e);
  }
}
