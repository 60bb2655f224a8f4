/** Byte order: octets read high first, and the 64-bit swap. */
module ByteSwap {
  import opened Common
  import opened Arithmetic

  /** The unsigned number that octets spell, high octet first. */
  function BigEndian(bs: seq<Byte>): nat {
    if bs == [] then 0 else BigEndian(bs[..|bs| - 1]) * 256 + bs[|bs| - 1]
  }

  lemma {:induction false} BigEndianBound(bs: seq<Byte>)
    ensures BigEndian(bs) < Pow2(8 * |bs|)
  {
    if bs != [] {
      BigEndianBound(bs[..|bs| - 1]);
      EightMore(8 * (|bs| - 1));
    }
  }

  lemma EightMore(k: nat)
    ensures Pow2(k + 8) == 256 * Pow2(k)
  {
    Pow2Adds(k, 8);
    assert Pow2(8) == 256;
  }

  /** One round of base_swap: or-ing the next octet in place appends it to the number. */
  lemma OrAppends(value: nat, b: nat, left: nat, read: nat)
    requires value < Pow2(8 * read) && b < 256 && 8 * (read + 1 + left) <= 64
    ensures OrBits(value * Pow2(8 * (left + 1)), b * Pow2(8 * left), 64) == (value * 256 + b) * Pow2(8 * left)
  {
    hide Pow2, OrBits, LowBitsClear;
    var high, unit := Pow2(8 * (left + 1)), Pow2(8 * left);
    EightMore(8 * left);
    Regroup(value, b, unit);
    ScaleMonotone(b, 255, unit);
    AppendedBound(value, b, left, read);
    MultipleIsClear(value, 8 * (left + 1));
    OrBitsAdds(value * high, b * unit, 8 * (left + 1), 64);
  }

  lemma Regroup(value: nat, b: nat, unit: nat)
    ensures value * (256 * unit) + b * unit == (value * 256 + b) * unit
  {
  }

  lemma AppendedBound(value: nat, b: nat, left: nat, read: nat)
    requires value < Pow2(8 * read) && b < 256 && 8 * (read + 1 + left) <= 64
    ensures (value * 256 + b) * Pow2(8 * left) < Pow2(64)
  {
    hide Pow2;
    var x, unit := value * 256 + b, Pow2(8 * left);
    EightMore(8 * read);
    ScaleMonotone(x + 1, Pow2(8 * read + 8), unit);
    assert (x + 1) * unit == x * unit + unit;
    Pow2Adds(8 * read + 8, 8 * left);
    Pow2Monotone(8 * read + 8 + 8 * left, 64);
  }

  /** Or-s the octets into an accumulator, each shifted to its place; the accumulator is signed. */
  method BaseSwap(bs: seq<Byte>) returns (s: int)
    requires |bs| <= 8
    ensures s == AsSigned(BigEndian(bs), Pow2(64))
  {
    hide Pow2, OrBits;
    var acc, i := 0, 0;
    while i < |bs|
      invariant i <= |bs| && acc == BigEndian(bs[..i]) * Pow2(8 * (|bs| - i))
    {
      var t := bs[i] as int * Pow2(8 * (|bs| - 1 - i));
      BigEndianBound(bs[..i]);
      OrAppends(BigEndian(bs[..i]), bs[i], |bs| - 1 - i, i);
      assert bs[..i + 1][..i] == bs[..i];
      acc := OrBits(acc, t, 64);
      i := i + 1;
    }
    assert bs[..i] == bs && Pow2(0) == 1 by { PowersUsed(); }
    s := AsSigned(acc, Pow2(64));
  }

  lemma PowersUsed()
    ensures Pow2(0) == 1 && Pow2(16) == 0x1_0000 && Pow2(32) == 0x1_0000_0000
    ensures Pow2(64) == 0x1_0000_0000_0000_0000
  {
    assert Pow2(8) == 256;
    assert Pow2(16) == 0x1_0000;
    Pow2Adds(16, 16);
    Pow2Adds(32, 32);
  }

  lemma SignedKeepsLow(x: nat, range: nat, m: nat, factor: nat)
    requires m > 0 && range == m * factor
    ensures AsSigned(x, range) % m == x % m
  {
    if x >= range / 2 {
      assert x - range == m * (x / m - factor) + x % m;
      DivModUnique(x - range, x / m - factor, x % m, m);
    }
  }

  /** The low 32 bits, as an int. */
  method Btoi(bs: seq<Byte>) returns (n: int)
    requires |bs| <= 8
    ensures n == AsSigned(BigEndian(bs) % 0x1_0000_0000, 0x1_0000_0000)
  {
    hide Pow2;
    var s := BaseSwap(bs);
    PowersUsed();
    SignedKeepsLow(BigEndian(bs), Pow2(64), 0x1_0000_0000, 0x1_0000_0000);
    n := AsSigned(s % 0x1_0000_0000, 0x1_0000_0000);
  }

  /** The low 16 bits, as a short. */
  method Btos(bs: seq<Byte>) returns (n: int)
    requires |bs| <= 8
    ensures n == AsSigned(BigEndian(bs) % 0x1_0000, 0x1_0000)
  {
    hide Pow2;
    var s := BaseSwap(bs);
    PowersUsed();
    SignedKeepsLow(BigEndian(bs), Pow2(64), 0x1_0000, 0x1_0000_0000_0000);
    n := AsSigned(s % 0x1_0000, 0x1_0000);
  }

  lemma LowOctets(n: int)
    ensures Unsigned2(Low(n / 256), Low(n)) == n % 0x1_0000
  {
    var h := n / 256;
    DivModUnique(n, h / 256, Unsigned2(h % 256, n % 256), 0x1_0000);
  }

  lemma LowOctets4(n: int)
    ensures Unsigned4(Octets4(n)) == n % 0x1_0000_0000
  {
    var h := n / 0x1_0000;
    DivModUnique(n, h / 256, h % 256 * 0x1_0000 + n % 0x1_0000, 0x100_0000);
    LowOctets(h);
    LowOctets(n);
    DivModUnique(n, h / 0x1_0000, h % 0x1_0000 * 0x1_0000 + n % 0x1_0000, 0x1_0000_0000);
  }

  lemma SignedRange(n: int, range: int)
    requires range == 256 || range == 0x1_0000 || range == 0x1_0000_0000
    ensures AsSigned(n % range, range) == n <==> -(range / 2) <= n < range / 2
    ensures -(range / 2) <= AsSigned(n % range, range) < range / 2
  {
  }

  lemma BigEndianSnoc(s: seq<Byte>, b: Byte)
    ensures BigEndian(s + [b]) == BigEndian(s) * 256 + b && BigEndian([]) == 0
  {
    assert (s + [b])[..|s|] == s;
  }

  lemma BigEndian2(a: Byte, b: Byte)
    ensures BigEndian([a, b]) == a as int * 256 + b
  {
    hide BigEndian;
    BigEndianSnoc([], a);
    assert [] + [a] == [a];
    BigEndianSnoc([a], b);
    assert [a] + [b] == [a, b];
  }

  lemma BigEndian4(a: Byte, b: Byte, c: Byte, d: Byte)
    ensures BigEndian([a, b, c, d]) == ((a as int * 256 + b) * 256 + c) * 256 + d
  {
    hide BigEndian;
    BigEndian2(a, b);
    BigEndianSnoc([a, b], c);
    assert [a, b] + [c] == [a, b, c];
    BigEndianSnoc([a, b, c], d);
    assert [a, b, c] + [d] == [a, b, c, d];
  }

  lemma BigEndianOctets2(n: int)
    ensures BigEndian(Octets2(n)) == n % 0x1_0000
  {
    hide BigEndian, Low;
    BigEndian2(Low(n / 256), Low(n));
    LowOctets(n);
  }

  lemma BigEndianOctets4(n: int)
    ensures BigEndian(Octets4(n)) == n % 0x1_0000_0000
  {
    hide BigEndian, Low;
    BigEndian4(Low(n / 0x100_0000), Low(n / 0x1_0000), Low(n / 256), Low(n));
    LowOctets4(n);
  }

  /** Every int written high octet first comes back from Btoi. */
  lemma IntRoundTrip(n: Int32)
    ensures AsSigned(BigEndian(Octets4(n)) % 0x1_0000_0000, 0x1_0000_0000) == n
  {
    hide BigEndian, AsSigned;
    BigEndianOctets4(n);
    SignedRange(n, 0x1_0000_0000);
  }

  /** Every short written high octet first comes back from Btos. */
  lemma ShortRoundTrip(n: Int16)
    ensures AsSigned(BigEndian(Octets2(n)) % 0x1_0000, 0x1_0000) == n
  {
    hide BigEndian, AsSigned;
    BigEndianOctets2(n);
    SignedRange(n, 0x1_0000);
  }

  // ---------- the 64-bit swap ----------

  function Swap64(x: bv64): bv64 {
    (x >> 56) | ((x >> 40) & 0xff00) | ((x >> 24) & 0xff_0000) | ((x >> 8) & 0xff00_0000)
    | ((x << 8) & (0xff << 32)) | ((x << 24) & (0xff << 40)) | ((x << 40) & (0xff << 48)) | (x << 56)
  }

  /** Octet k, counted from the low end. */
  function Octet(x: bv64, k: bv64): bv64
    requires k < 8
  {
    (x >> (8 * k)) & 0xff
  }

  /** The swap reverses the octets, and undoes itself. */
  lemma SwapReverses(x: bv64, k: bv64)
    requires k < 8
    ensures Octet(Swap64(x), k) == Octet(x, 7 - k)
    ensures Swap64(Swap64(x)) == x
  {
  }
}
