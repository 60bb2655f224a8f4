/** KNX group addresses as text in three or two parts, and the two ways of packing them in 16 bits. */
module GroupAddress {
  import opened Common
  import opened Arithmetic
  import opened DecimalText

  /** strtok with "/": skips separators, then takes everything up to the next one. */
  function NextToken(s: seq<Byte>): (r: (Option<seq<Byte>>, seq<Byte>))
    ensures r.0.Some? ==> |r.1| < |s|
  {
    var t := SkipSeparators(s);
    if t == [] then (None, [])
    else
      var n := TokenLength(t);
      (Some(t[..n]), t[n..])
  }

  function SkipSeparators(s: seq<Byte>): (t: seq<Byte>)
    ensures |t| <= |s| && (t == [] || t[0] != SLASH)
  {
    if s != [] && s[0] == SLASH then SkipSeparators(s[1..]) else s
  }

  function TokenLength(s: seq<Byte>): (n: nat)
    ensures n <= |s| && (s != [] && s[0] != SLASH ==> n > 0)
  {
    if s == [] || s[0] == SLASH then 0 else 1 + TokenLength(s[1..])
  }

  /** All tokens of a text. */
  function Tokens(s: seq<Byte>): seq<seq<Byte>>
    decreases |s|
  {
    var (token, rest) := NextToken(s);
    match token
    case None => []
    case Some(t) => [t] + Tokens(rest)
  }

  function Or16(a: int, b: int, c: int): int {
    OrBits(OrBits(a % 0x1_0000, b % 0x1_0000, 16), c % 0x1_0000, 16)
  }

  function Part(tokens: seq<seq<Byte>>, k: nat): int {
    if k < |tokens| then Atoi(tokens[k]) else 0
  }

  /** The address that a text denotes: three parts if it has a third token, else two. */
  function Packed(tokens: seq<seq<Byte>>): int {
    if |tokens| > 2 then Or16(Part(tokens, 0) * 2048, Part(tokens, 1) * 256, Part(tokens, 2))
    else Or16(Part(tokens, 0) * 2048, Part(tokens, 1), 0)
  }

  /** The tokens left to a loop that has just taken `token`, with `rest` still to read. */
  function Ahead(token: Option<seq<Byte>>, rest: seq<Byte>): seq<seq<Byte>> {
    if token.Some? then [token.value] + Tokens(rest) else []
  }

  lemma TokensAhead(s: seq<Byte>)
    ensures Tokens(s) == Ahead(NextToken(s).0, NextToken(s).1)
  {
  }

  /** Reads a group address from a text of at most fifteen characters. */
  method GetKnxGroupInfo(text: seq<Byte>) returns (addr: int)
    requires |text| <= 15
    ensures addr == Packed(Tokens(text))
  {
    hide NextToken, Tokens, Atoi, Or16;
    ghost var tokens := Tokens(text);
    TokensAhead(text);
    var (token, rest) := NextToken(text);
    var i, tmp, mainGroup, midGroup, logicGroup := 0, 0, 0, 0, 0;
    var is3 := false;
    while token.Some?
      invariant i + |Ahead(token, rest)| == |tokens| && tokens[i..] == Ahead(token, rest)
      invariant mainGroup == (if i > 0 then Part(tokens, 0) else 0)
      invariant tmp == (if i > 1 then Part(tokens, 1) else 0)
      invariant is3 == (i > 2)
      invariant logicGroup == (if i > 2 then Part(tokens, 2) else 0)
      decreases token.Some?, |rest|
    {
      assert tokens[i] == tokens[i..][0] == token.value;
      if i == 0 {
        mainGroup := Atoi(token.value);
      } else if i == 1 {
        tmp := Atoi(token.value);
      } else if i == 2 {
        is3 := true;
        logicGroup := Atoi(token.value);
      }
      TokensAhead(rest);
      assert tokens[i + 1..] == tokens[i..][1..] == Tokens(rest);
      var (next, later) := NextToken(rest);
      token, rest := next, later;
      i := i + 1;
    }
    if is3 {
      midGroup := tmp;
      addr := Or16(mainGroup * 2048, midGroup * 256, logicGroup);
    } else {
      logicGroup := tmp;
      addr := Or16(mainGroup * 2048, logicGroup, 0);
    }
  }

  // ---------- printing ----------

  function Print3(addr: int): seq<Byte> {
    Print(addr / 2048) + ([SLASH] + (Print(addr / 256 % 8) + ([SLASH] + Print(addr % 256))))
  }

  function Print2(addr: int): seq<Byte> {
    Print(addr / 2048) + ([SLASH] + Print(addr % 2048))
  }

  // ---------- round trips ----------

  lemma {:induction false} TokenEnds(t: seq<Byte>, rest: seq<Byte>)
    requires SLASH !in t
    requires rest == [] || rest[0] == SLASH
    ensures TokenLength(t + rest) == |t|
  {
    if t != [] {
      assert (t + rest)[1..] == t[1..] + rest;
      TokenEnds(t[1..], rest);
    }
  }

  lemma TokensOfFirst(t: seq<Byte>, rest: seq<Byte>)
    requires t != [] && SLASH !in t
    requires rest == [] || rest[0] == SLASH
    ensures Tokens(t + rest) == [t] + Tokens(rest)
  {
    TokenEnds(t, rest);
    assert (t + rest)[0] == t[0];
    assert (t + rest)[..|t|] == t && (t + rest)[|t|..] == rest;
  }

  lemma TokensAfterSlash(s: seq<Byte>)
    ensures Tokens([SLASH] + s) == Tokens(s)
  {
    assert ([SLASH] + s)[1..] == s;
  }

  lemma PrintedToken(n: nat)
    ensures Print(n) != [] && SLASH !in Print(n) && Atoi(Print(n)) == n
  {
    AtoiPrint(n, []);
    assert Print(n) + [] == Print(n);
  }

  lemma OneToken(n: nat)
    ensures Tokens(Print(n)) == [Print(n)]
  {
    hide Print, Tokens;
    PrintedToken(n);
    TokensOfFirst(Print(n), []);
    assert Print(n) + [] == Print(n);
    NoTokens();
  }

  lemma NoTokens()
    ensures Tokens([]) == []
  {
  }

  lemma MoreTokens(n: nat, rest: seq<Byte>)
    ensures Tokens(Print(n) + ([SLASH] + rest)) == [Print(n)] + Tokens(rest)
  {
    hide Print, Tokens;
    PrintedToken(n);
    TokensOfFirst(Print(n), [SLASH] + rest);
    TokensAfterSlash(rest);
  }

  lemma Or16Sum(a: nat, b: nat, c: nat, i: nat, j: nat)
    requires LowBitsClear(a, i) && b < Pow2(i) && LowBitsClear(a + b, j) && c < Pow2(j)
    requires a + b + c < 0x1_0000 == Pow2(16)
    ensures Or16(a, b, c) == a + b + c
  {
    hide OrBits, Pow2, LowBitsClear;
    OrBitsAdds(a, b, i, 16);
    OrBitsAdds(a + b, c, j, 16);
  }

  lemma Or16Disjoint(a: nat, b: nat, c: nat)
    requires a < 32 && b < 8 && c < 256
    ensures Or16(a * 2048, b * 256, c) == a * 2048 + b * 256 + c
  {
    hide OrBits, Pow2, LowBitsClear, Or16;
    PowersUsed();
    MultipleIsClear(a, 11);
    MultipleIsClear(a * 8 + b, 8);
    Or16Sum(a * 2048, b * 256, c, 11, 8);
  }

  lemma Or16Disjoint2(a: nat, b: nat)
    requires a < 32 && b < 2048
    ensures Or16(a * 2048, b, 0) == a * 2048 + b
  {
    hide OrBits, Pow2, LowBitsClear, Or16;
    PowersUsed();
    MultipleIsClear(a, 11);
    MultipleIsClear(a * 2048 + b, 0);
    Or16Sum(a * 2048, b, 0, 11, 0);
  }

  lemma PowersUsed()
    ensures Pow2(0) == 1 && Pow2(8) == 256 && Pow2(11) == 2048 && Pow2(16) == 0x1_0000
  {
    assert Pow2(5) == 32;
    assert Pow2(8) == 256;
    assert Pow2(13) == 8192;
  }

  /** Every 16-bit address survives being printed in three parts, or in two, and read. */
  lemma GroupRoundTrip(addr: int)
    requires 0 <= addr < 0x1_0000
    ensures Packed(Tokens(Print3(addr))) == addr && Packed(Tokens(Print2(addr))) == addr
  {
    hide Print, Tokens, Or16, Atoi;
    var a, b, c, d := addr / 2048, addr / 256 % 8, addr % 256, addr % 2048;
    MoreTokens(a, Print(b) + ([SLASH] + Print(c)));
    MoreTokens(b, Print(c));
    OneToken(c);
    PrintedToken(a);
    PrintedToken(b);
    PrintedToken(c);
    SplitThree(addr);
    Or16Disjoint(a, b, c);
    MoreTokens(a, Print(d));
    OneToken(d);
    PrintedToken(d);
    Or16Disjoint2(a, d);
  }

  lemma SplitThree(addr: int)
    requires 0 <= addr < 0x1_0000
    ensures addr == addr / 2048 * 2048 + addr / 256 % 8 * 256 + addr % 256
    ensures addr / 2048 < 32
  {
    DivModUnique(addr, addr / 256 / 8, addr / 256 % 8 * 256 + addr % 256, 2048);
  }

  /** The packing or-s the parts, each at its place, as 16-bit numbers; parts too large for their place
      run into the one above. */
  lemma PackedBits(a: int, b: int, c: int, i: nat)
    requires i < 16
    ensures BitOf(Or16(a, b, c), i) == 1 <==>
              BitOf(a % 0x1_0000, i) == 1 || BitOf(b % 0x1_0000, i) == 1 || BitOf(c % 0x1_0000, i) == 1
  {
    OrBitsAt(OrBits(a % 0x1_0000, b % 0x1_0000, 16), c % 0x1_0000, 16, i);
    OrBitsAt(a % 0x1_0000, b % 0x1_0000, 16, i);
  }

  const ADDRESS_TEXT: seq<Byte> := [49, SLASH, 50, SLASH, 51]

  lemma AddressIsPrinted()
    ensures Print3(0x0A03) == ADDRESS_TEXT && Print2(0x0802) == ADDRESS_TEXT[..3]
  {
    assert Print(1) == [49] && Print(2) == [50] && Print(3) == [51];
    hide Print;
    assert [49] + ([SLASH] + ([50] + ([SLASH] + [51]))) == ADDRESS_TEXT;
    assert [49] + ([SLASH] + [50]) == ADDRESS_TEXT[..3];
  }

  /** An address in full: "1/2/3" is 0x0A03, and "1/2" is 0x0802. */
  lemma KnownAddress()
    ensures Print3(0x0A03) == ADDRESS_TEXT && Packed(Tokens(ADDRESS_TEXT)) == 0x0A03
    ensures Print2(0x0802) == ADDRESS_TEXT[..3] && Packed(Tokens(ADDRESS_TEXT[..3])) == 0x0802
  {
    hide Tokens, Packed, Print2, Print3;
    AddressIsPrinted();
    GroupRoundTrip(0x0A03);
    GroupRoundTrip(0x0802);
  }

  // ---------- the gateway's packing ----------

  /** Word2GrpAddr for a project with three segments: the masks leave four bits for the main group. */
  function Unpack3(word: int): (int, int, int) {
    (word / 2048 % 16, word / 256 % 8, word % 256)
  }

  /** GrpAddr2Word for three segments. */
  function Pack3(parts: (int, int, int)): int {
    parts.0 % 16 * 2048 + parts.1 % 8 * 256 + parts.2 % 256
  }

  /** The same for a project with two segments. */
  function Unpack2(word: int): (int, int) {
    (word / 2048 % 16, word % 2048)
  }

  function Pack2(parts: (int, int)): int {
    parts.0 % 16 * 2048 + parts.1 % 2048
  }

  /** The gateway's own packing loses the top bit: a word survives it exactly when it is below 0x8000. */
  lemma GatewayPackingLosesTopBit(word: int)
    requires 0 <= word < 0x1_0000
    ensures Pack3(Unpack3(word)) == Pack2(Unpack2(word)) == word % 0x8000
    ensures Pack3(Unpack3(word)) == word <==> word < 0x8000
  {
    SplitThree(word);
    TopBitOff(word / 2048, word / 256 % 8 * 256 + word % 256);
    TopBitOff(word / 2048, word % 2048);
  }

  lemma TopBitOff(h: int, rest: int)
    requires 0 <= h < 32 && 0 <= rest < 2048
    ensures h % 16 * 2048 + rest == (h * 2048 + rest) % 0x8000
  {
    var q := if h < 16 then 0 else 1;
    DivModUnique(h, q, h - 16 * q, 16);
    DivModUnique(h * 2048 + rest, q, (h - 16 * q) * 2048 + rest, 0x8000);
  }
}
