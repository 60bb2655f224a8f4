/** Types and octet helpers that the components share. */
module Common {
  type Byte = x: int | 0 <= x < 256
  type Word = x: int | 0 <= x < 0x1_0000
  type Int32 = x: int | -0x8000_0000 <= x < 0x8000_0000
  type Int16 = x: int | -0x8000 <= x < 0x8000

  predicate IsInt32(x: int) {
    -0x8000_0000 <= x < 0x8000_0000
  }

  predicate IsInt16(x: int) {
    -0x8000 <= x < 0x8000
  }

  datatype Option<+T> = None | Some(value: T)

  function Low(n: int): Byte {
    n % 256
  }

  /** The low 16 bits of a number, high octet first. */
  function Octets2(n: int): seq<Byte> {
    [Low(n / 256), Low(n)]
  }

  /** The low 32 bits of a number, high octet first. */
  function Octets4(n: int): seq<Byte> {
    [Low(n / 0x100_0000), Low(n / 0x1_0000), Low(n / 256), Low(n)]
  }

  function Unsigned2(hi: int, lo: int): int {
    hi * 256 + lo
  }

  function Unsigned4(b: seq<Byte>): int
    requires |b| >= 4
  {
    0x1_0000 * Unsigned2(b[0], b[1]) + Unsigned2(b[2], b[3])
  }

  /** The signed number that a bit pattern below `range` stands for. */
  function AsSigned(n: int, range: int): int {
    if n >= range / 2 then n - range else n
  }

  function Join<T>(parts: seq<seq<T>>): seq<T> {
    if parts == [] then [] else parts[0] + Join(parts[1..])
  }

  function Zeros(n: nat): (z: seq<Byte>)
    ensures |z| == n && forall i | 0 <= i < n :: z[i] == 0
  {
    if n == 0 then [] else Zeros(n - 1) + [0]
  }
}
