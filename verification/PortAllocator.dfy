/**
 The round-robin hand-out of relay ports.

 The three port fields are 16-bit unsigned.  When the range ends at 65535 the increment wraps to 0
 before it is compared with the end of the range, so the next port handed out is 0.
 */
module PortAllocator {
  import opened Arithmetic

  type Port = p: int | 0 <= p < 0x1_0000

  function Wrap(x: int): (r: Port)
    ensures 0 <= x < 0x1_0000 ==> r == x
    ensures x == 0x1_0000 ==> r == 0
  {
    x % 0x1_0000
  }

  /** The next-port field after one hand-out. */
  function Next(min: Port, max: Port, next: Port): Port {
    if Wrap(next + 1) > max then min else Wrap(next + 1)
  }

  class PortRange {
    const min: Port
    const max: Port
    var next: Port

    constructor (min: Port, max: Port)
      ensures this.min == min && this.max == max && next == min
    {
      this.min, this.max, next := min, max, min;
    }

    method TakePort() returns (port: Port)
      modifies this
      ensures port == old(next) && next == Next(min, max, old(next))
    {
      port := next;
      next := Wrap(next + 1);
      if next > max {
        next := min;
      }
    }

    /** The bind loop of create_relay: `free` tells which ports the socket can be bound to.  A failed
        attempt has still used up its port. */
    method BindPort(retries: nat, free: set<Port>) returns (bound: bool, port: Port, tries: nat)
      requires retries > 0
      modifies this
      ensures 0 < tries <= retries && (bound || tries == retries)
      ensures next == After(min, max, old(next), tries) && port == After(min, max, old(next), tries - 1)
      ensures bound == (port in free)
      ensures forall k: nat | k < tries - 1 :: After(min, max, old(next), k) !in free
    {
      bound, port, tries := false, next, 0;
      while tries < retries
        invariant tries <= retries
        invariant next == After(min, max, old(next), tries)
        invariant !bound
        invariant tries > 0 ==> port == After(min, max, old(next), tries - 1)
        invariant forall k: nat | k < tries :: After(min, max, old(next), k) !in free
      {
        port := TakePort();
        tries := tries + 1;
        if port in free {
          bound := true;
          return;
        }
      }
    }
  }

  /** The next-port field after k hand-outs, which is also the port that the k-th hand-out gives. */
  function After(min: Port, max: Port, next: Port, k: nat): Port {
    if k == 0 then next else Next(min, max, After(min, max, next, k - 1))
  }

  /** The ranges for which the rotation never leaves the range. */
  predicate Rotates(min: Port, max: Port) {
    min <= max && (max < 0xFFFF || min == 0)
  }

  /** After how many hand-outs the rotation is back at its first port.  A range that ends at 65535
      goes through all ports; an empty range stays at its first port, or runs up to `max` from 0. */
  function Period(min: Port, max: Port): (n: nat)
    ensures 0 < n <= 0x1_0000
  {
    if Rotates(min, max) then max - min + 1
    else if min <= max then 0x1_0000
    else if min < 0xFFFF then 1
    else max + 2
  }

  /** The port j places behind the first one of the rotation. */
  function PortAt(min: Port, j: nat): Port {
    Wrap(min + j)
  }

  /** Closed form, for every configuration: the k-th port, counted from the first hand-out of the
      server. */
  lemma {:induction false} PortClosedForm(min: Port, max: Port, k: nat)
    ensures After(min, max, min, k) == PortAt(min, Mod(k, Period(min, max)))
  {
    hide Mod, Next, PortAt, Period;
    ModZero(Period(min, max));
    FirstPort(min);
    if k > 0 {
      PortClosedForm(min, max, k - 1);
      ModStep(k - 1, Period(min, max));
      NextPort(min, max, Mod(k - 1, Period(min, max)));
    }
  }

  lemma FirstPort(min: Port)
    ensures PortAt(min, 0) == min
  {
  }

  lemma NextPort(min: Port, max: Port, j: nat)
    requires j < Period(min, max)
    ensures Next(min, max, PortAt(min, j)) == PortAt(min, if j + 1 == Period(min, max) then 0 else j + 1)
  {
  }

  /** Every port handed out lies in the range exactly for those ranges; a range that ends at 65535
      and does not begin at 0 sooner or later hands out port 0. */
  lemma PortsStayInRange(min: Port, max: Port)
    ensures (forall k: nat :: min <= After(min, max, min, k) <= max) <==> Rotates(min, max)
  {
    if Rotates(min, max) {
      forall k: nat ensures min <= After(min, max, min, k) <= max { PortClosedForm(min, max, k); }
    } else if min <= max {
      WrapsToZero(min, max);
    } else {
      assert After(min, max, min, 0) == min;
    }
  }

  /** The failing ranges: port 0 comes right after 65535. */
  lemma WrapsToZero(min: Port, max: Port)
    requires min <= max && !Rotates(min, max)
    ensures After(min, max, min, 0x1_0000 - min) == 0
  {
    PortClosedForm(min, max, 0x1_0000 - min);
    DivModUnique(0x1_0000 - min, 0, 0x1_0000 - min, 0x1_0000);
  }

  /** The default configuration is one of them. */
  lemma DefaultRangeHandsOutZero()
    ensures After(49152, 65535, 49152, 16384) == 0
  {
    WrapsToZero(49152, 65535);
  }

  /** The n ports handed out from the start-th hand-out on. */
  function Window(min: Port, max: Port, start: nat, n: nat): (w: seq<Port>)
    ensures |w| == n && forall i | 0 <= i < n :: w[i] == After(min, max, min, start + i)
  {
    if n == 0 then [] else Window(min, max, start, n - 1) + [After(min, max, min, start + n - 1)]
  }

  /** The ports that the rotation goes through. */
  predicate InRotation(min: Port, max: Port, p: Port) {
    if Rotates(min, max) then min <= p <= max
    else if min <= max then true
    else if min < 0xFFFF then p == min
    else p == 0xFFFF || p <= max
  }

  /** The place of a port in the rotation. */
  function PlaceOf(min: Port, p: Port): (j: nat)
    ensures j < 0x1_0000 && PortAt(min, j) == p
  {
    if p >= min then p - min else p + 0x1_0000 - min
  }

  lemma PlaceInPeriod(min: Port, max: Port, p: Port)
    ensures InRotation(min, max, p) <==> PlaceOf(min, p) < Period(min, max)
  {
  }

  lemma PortsAtDiffer(min: Port, i: nat, j: nat)
    requires i < j < 0x1_0000
    ensures PortAt(min, i) != PortAt(min, j)
  {
  }

  lemma PortsDiffer(min: Port, max: Port, x: nat, y: nat)
    requires x < y < x + Period(min, max)
    ensures After(min, max, min, x) != After(min, max, min, y)
  {
    hide Mod, After, PortAt, Period;
    var n := Period(min, max);
    PortClosedForm(min, max, x);
    PortClosedForm(min, max, y);
    var i, j := Mod(x, n), Mod(y, n);
    if i == j {
      SameResidue(x, y, n);
    } else {
      PortsAtDiffer(min, if i < j then i else j, if i < j then j else i);
    }
  }

  lemma PortOccurs(min: Port, max: Port, start: nat, p: Port) returns (i: nat)
    requires InRotation(min, max, p)
    ensures i < Period(min, max) && After(min, max, min, start + i) == p
  {
    hide Mod, After, PortAt, Period, InRotation;
    var n, j := Period(min, max), PlaceOf(min, p);
    PlaceInPeriod(min, max, p);
    i := Mod(j + n - Mod(start, n), n);
    ResidueHit(j, start, n);
    PortClosedForm(min, max, start + i);
  }

  lemma PortIsInRotation(min: Port, max: Port, k: nat)
    ensures InRotation(min, max, After(min, max, min, k))
  {
    hide Mod, After;
    PortClosedForm(min, max, k);
    var j := Mod(k, Period(min, max));
    var p := PortAt(min, j);
    var i := PlaceOf(min, p);
    if i != j { PortsAtDiffer(min, if i < j then i else j, if i < j then j else i); }
    PlaceInPeriod(min, max, p);
  }

  /** As many consecutive hand-outs as a period has, wherever they start, are each port of the rotation
      once: each port of the range for a range that rotates, every port there is for one that wraps. */
  lemma WindowIsPermutation(min: Port, max: Port, start: nat)
    ensures var w := Window(min, max, start, Period(min, max));
            && (forall i, j | 0 <= i < j < |w| :: w[i] != w[j])
            && (forall p: Port :: p in w <==> InRotation(min, max, p))
  {
    hide After, Period, InRotation;
    var w := Window(min, max, start, Period(min, max));
    forall i, j | 0 <= i < j < |w| ensures w[i] != w[j] { PortsDiffer(min, max, start + i, start + j); }
    forall p: Port | InRotation(min, max, p) ensures p in w {
      var i := PortOccurs(min, max, start, p);
      assert w[i] == p;
    }
    forall i | 0 <= i < |w| ensures InRotation(min, max, w[i]) { PortIsInRotation(min, max, start + i); }
  }

  lemma ModZero(n: int)
    requires n > 0
    ensures Mod(0, n) == 0
  {
    DivModUnique(0, 0, 0, n);
  }

  lemma SameResidue(x: nat, y: nat, n: nat)
    requires n > 0 && Mod(x, n) == Mod(y, n) && x < y
    ensures y - x >= n
  {
    if y - x < n {
      var r := x % n;
      assert y == n * (x / n) + r + (y - x);
      if r + (y - x) < n {
        DivModUnique(y, x / n, r + (y - x), n);
      } else {
        assert y == n * (x / n + 1) + (r + (y - x) - n);
        DivModUnique(y, x / n + 1, r + (y - x) - n, n);
      }
    }
  }

  lemma ResidueHit(r: nat, start: nat, n: nat)
    requires r < n
    ensures Mod(start + Mod(r + n - Mod(start, n), n), n) == r
  {
    var a := r + n - start % n;
    assert start == n * (start / n) + start % n;
    if a >= n {
      DivModUnique(a, 1, a - n, n);
      DivModUnique(start + (a - n), start / n, r, n);
    } else {
      DivModUnique(a, 0, a, n);
      assert start + a == n * (start / n + 1) + r;
      DivModUnique(start + a, start / n + 1, r, n);
    }
  }
}
