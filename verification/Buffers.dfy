/** Copying octets into a buffer. */
module Buffers {
  import opened Common

  /** Copies octets to a position of the buffer and returns the position after them. */
  method Put(buf: array<Byte>, pos: nat, octets: seq<Byte>) returns (next: nat)
    requires pos + |octets| <= buf.Length
    modifies buf
    ensures next == pos + |octets| && buf[..next] == old(buf[..pos]) + octets
    ensures forall i | next <= i < buf.Length :: buf[i] == old(buf[i])
  {
    forall i | 0 <= i < |octets| {
      buf[pos + i] := octets[i];
    }
    next := pos + |octets|;
  }

  lemma Associative<T>(a: seq<T>, b: seq<T>, c: seq<T>)
    ensures a + b + c == a + (b + c)
  {
  }
}
