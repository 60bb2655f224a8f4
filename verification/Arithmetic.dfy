/** Division facts that the components share. */
module Arithmetic {

  lemma MulAtLeast(n: int, d: int)
    requires n > 0 && d >= 1
    ensures n * d >= n
  {
  }

  /** A quotient and a remainder in range are the quotient and the remainder. */
  lemma DivModUnique(x: int, q: int, r: int, n: int)
    requires 0 <= r < n && x == n * q + r
    ensures x / n == q && x % n == r
  {
    var q', r' := x / n, x % n;
    assert x == n * q' + r';
    assert n * (q - q') == n * q - n * q';
    if q - q' >= 1 { MulAtLeast(n, q - q'); }
    if q' - q >= 1 { MulAtLeast(n, q' - q); }
  }

  /** The remainder as a name that proofs can leave folded. */
  function Mod(x: int, n: int): (r: int)
    requires n > 0
    ensures 0 <= r < n
  {
    x % n
  }

  lemma ModStep(x: int, n: int)
    requires n > 0
    ensures Mod(x + 1, n) == if Mod(x, n) + 1 == n then 0 else Mod(x, n) + 1
  {
    if x % n + 1 == n {
      assert x + 1 == n * (x / n + 1);
      DivModUnique(x + 1, x / n + 1, 0, n);
    } else {
      DivModUnique(x + 1, x / n, x % n + 1, n);
    }
  }

  function Pow2(e: nat): (p: nat)
    ensures p >= 1
  {
    if e == 0 then 1 else 2 * Pow2(e - 1)
  }

  function Pow10(k: nat): nat {
    if k == 0 then 1 else 10 * Pow10(k - 1)
  }

  lemma {:induction false} Pow2Adds(a: nat, b: nat)
    ensures Pow2(a + b) == Pow2(a) * Pow2(b)
  {
    if a > 0 { Pow2Adds(a - 1, b); }
  }

  lemma {:induction false} Pow2Monotone(a: nat, b: nat)
    requires a <= b
    ensures Pow2(a) <= Pow2(b)
  {
    if a < b { Pow2Monotone(a, b - 1); }
  }

  lemma ScaleMonotone(a: int, b: int, p: nat)
    requires a <= b
    ensures a * p <= b * p
  {
  }

  /** Bit i of a number. */
  function BitOf(x: nat, i: nat): nat {
    if i == 0 then x % 2 else BitOf(x / 2, i - 1)
  }

  /** Bitwise or of the n low bits. */
  function OrBits(a: nat, b: nat, n: nat): (x: nat)
    ensures x < Pow2(n)
  {
    if n == 0 then 0 else (if a % 2 == 0 && b % 2 == 0 then 0 else 1) + 2 * OrBits(a / 2, b / 2, n - 1)
  }

  /** Bit i of the result is set exactly if it is in one of the two. */
  lemma {:induction false} OrBitsAt(a: nat, b: nat, n: nat, i: nat)
    requires i < n
    ensures BitOf(OrBits(a, b, n), i) == 1 <==> BitOf(a, i) == 1 || BitOf(b, i) == 1
  {
    var x, y := OrBits(a, b, n), OrBits(a / 2, b / 2, n - 1);
    assert x / 2 == y && (x % 2 == 0 <==> a % 2 == 0 && b % 2 == 0);
    if i > 0 { OrBitsAt(a / 2, b / 2, n - 1, i - 1); }
  }

  /** The k low bits of x are zero. */
  predicate LowBitsClear(x: nat, k: nat) {
    k == 0 || (x % 2 == 0 && LowBitsClear(x / 2, k - 1))
  }

  lemma {:induction false} MultipleIsClear(a: nat, k: nat)
    ensures LowBitsClear(a * Pow2(k), k)
  {
    if k > 0 {
      var h := a * Pow2(k - 1);
      assert a * Pow2(k) == 2 * h;
      HalfOfDouble(h);
      MultipleIsClear(a, k - 1);
    }
  }

  lemma HalfOfDouble(h: nat)
    ensures 2 * h % 2 == 0 && 2 * h / 2 == h
  {
  }

  /** Numbers without a common bit are or-ed by adding them. */
  lemma {:induction false} OrBitsAdds(x: nat, b: nat, k: nat, n: nat)
    requires LowBitsClear(x, k) && b < Pow2(k) && x + b < Pow2(n)
    ensures OrBits(x, b, n) == x + b
    decreases n
  {
    if n > 0 {
      if k == 0 {
        OrBitsZero(x, n);
      } else {
        OrBitsAdds(x / 2, b / 2, k - 1, n - 1);
      }
    }
  }

  lemma {:induction false} OrBitsZero(a: nat, n: nat)
    requires a < Pow2(n)
    ensures OrBits(a, 0, n) == a
  {
    if n > 0 { OrBitsZero(a / 2, n - 1); }
  }
}
