/**
 Datagrams between the processes of the server: a twelve-octet header, the home id as encrypted
 decimal text behind its length, and fixed fields.  The host is little-endian.
 */
module IpcDatagram {
  import opened AesTools
  import opened Arithmetic
  import opened Buffers
  import opened ByteSwap
  import opened ChunkedCipher
  import opened Common
  import opened DecimalText

  const HEADER_SIZE := 12
  const NAME_SIZE := 31

  datatype Header = Header(start: Byte, protocol: Byte, length: Word, serial: Int32,
                           code: Byte, kind: Byte, space: (Byte, Byte))

  /** htons on a little-endian host. */
  function Htons(n: Word): Word {
    n % 256 * 256 + n / 256
  }

  /** The header as it lies in memory. */
  function HeaderBytes(h: Header): (b: seq<Byte>)
    ensures |b| == HEADER_SIZE
  {
    [h.start, h.protocol, Low(h.length), Low(h.length / 256),
     Low(h.serial), Low(h.serial / 256), Low(h.serial / 0x1_0000), Low(h.serial / 0x100_0000),
     h.code, h.kind, h.space.0, h.space.1]
  }

  // ---------- the body ----------

  /** The decimal text of the home id, encrypted, behind its length. */
  function SealedId(k: Cipher, homeId: Int32): seq<Byte> {
    PrintInt32(homeId);
    [|Print(homeId)|] + Encrypt(k, Print(homeId))
  }

  function InfLearnTail(gatewayId: int, channel: Byte, key: int, result: Byte): seq<Byte> {
    Octets4(gatewayId) + [channel] + Octets2(key) + [result]
  }

  function HostServTail(userName: seq<Byte>, cmdState: Byte): seq<Byte> {
    userName + [cmdState, 0, 0, 0]
  }

  // ---------- what a reader takes from a datagram ----------

  /** The octets that the encrypted home id takes up, for a text of len characters. */
  function SealedLength(len: nat): nat {
    BLOCK_SIZE * Count(len)
  }

  /** The position after the home id. */
  function AfterId(d: seq<Byte>): nat
    requires |d| > HEADER_SIZE
  {
    HEADER_SIZE + 1 + SealedLength(d[HEADER_SIZE])
  }

  function IdOf(k: Cipher, d: seq<Byte>): int
    requires |d| > HEADER_SIZE && |d| >= AfterId(d)
  {
    Atoi(Decrypt(k, d[HEADER_SIZE + 1..], d[HEADER_SIZE]))
  }

  function IntOf(bs: seq<Byte>): int {
    AsSigned(BigEndian(bs) % 0x1_0000_0000, 0x1_0000_0000)
  }

  function ShortOf(bs: seq<Byte>): int {
    AsSigned(BigEndian(bs) % 0x1_0000, 0x1_0000)
  }

  /** The reader checks no bound; it allocates no terminator for an empty home id text. */
  predicate InfLearnReadable(d: seq<Byte>) {
    |d| > HEADER_SIZE && d[HEADER_SIZE] > 0 && |d| >= AfterId(d) + 7
  }

  datatype InfLearnFields = InfLearnFields(homeId: int, gatewayId: int, channel: Byte, key: int)

  function InfLearnOf(k: Cipher, d: seq<Byte>): InfLearnFields
    requires InfLearnReadable(d)
  {
    var p := AfterId(d);
    InfLearnFields(IdOf(k, d), IntOf(d[p..p + 4]), d[p + 4], ShortOf(d[p + 5..p + 7]))
  }

  predicate HostServReadable(d: seq<Byte>) {
    |d| > HEADER_SIZE && |d| >= AfterId(d) + NAME_SIZE + 1
  }

  datatype HostServFields = HostServFields(homeId: int, userName: seq<Byte>, cmdState: Byte)

  function HostServOf(k: Cipher, d: seq<Byte>): HostServFields
    requires HostServReadable(d)
  {
    var p := AfterId(d);
    HostServFields(IdOf(k, d), d[p..p + NAME_SIZE], d[p + NAME_SIZE])
  }

  // ---------- round trips ----------

  /** Decryption looks only at the blocks it needs. */
  lemma {:induction false} DecryptReadsPrefix(k: Cipher, c: seq<Byte>, rest: seq<Byte>, len: nat)
    requires |c| >= BLOCK_SIZE * Count(len)
    ensures Decrypt(k, c + rest, len) == Decrypt(k, c, len)
    decreases len
  {
    hide DecryptUnit, Decrypt, Count;
    if len == 0 {
      DecryptNothing(k, c);
      DecryptNothing(k, c + rest);
    } else {
      var t := Min(len, CHUNK);
      DecryptChunk(k, c, len, t);
      DecryptChunk(k, c + rest, len, t);
      assert (c + rest)[..BLOCK_SIZE] == c[..BLOCK_SIZE];
      assert (c + rest)[BLOCK_SIZE..] == c[BLOCK_SIZE..] + rest;
      DecryptReadsPrefix(k, c[BLOCK_SIZE..], rest, len - t);
    }
  }

  /** The home id behind any header, whatever follows, is read as it was written. */
  lemma SealedIdReads(k: Cipher, h: seq<Byte>, homeId: Int32, rest: seq<Byte>)
    requires Invertible(k) && |h| == HEADER_SIZE
    ensures var d := h + (SealedId(k, homeId) + rest);
            && |d| > HEADER_SIZE && d[HEADER_SIZE] > 0
            && AfterId(d) == HEADER_SIZE + |SealedId(k, homeId)| && d[AfterId(d)..] == rest
            && IdOf(k, d) == homeId
  {
    hide Encrypt, Decrypt, Print, Atoi, Invertible, Count;
    PrintInt32(homeId);
    var text := Print(homeId);
    var d := h + (SealedId(k, homeId) + rest);
    assert d[HEADER_SIZE + 1..] == Encrypt(k, text) + rest;
    assert d[HEADER_SIZE] == |text|;
    DecryptReadsPrefix(k, Encrypt(k, text), rest, |text|);
    DecryptEncrypt(k, text);
    AtoiPrint(homeId, []);
    assert text + [] == text;
  }

  /** What follows the home id begins with the tail. */
  lemma TailAt(d: seq<Byte>, p: nat, tail: seq<Byte>, rest: seq<Byte>)
    requires p <= |d| && d[p..] == tail + rest
    ensures |d| >= p + |tail| && forall i | 0 <= i < |tail| :: d[p + i] == tail[i]
  {
    forall i | 0 <= i < |tail| ensures d[p + i] == tail[i] { assert d[p + i] == d[p..][i]; }
  }

  lemma TailParts(d: seq<Byte>, p: nat, gatewayId: int, channel: Byte, key: int, result: Byte, rest: seq<Byte>)
    requires p <= |d| && d[p..] == InfLearnTail(gatewayId, channel, key, result) + rest
    ensures |d| >= p + 8 && d[p..p + 4] == Octets4(gatewayId) && d[p + 4] == channel
    ensures d[p + 5..p + 7] == Octets2(key) && d[p + 7] == result
  {
    hide Low;
    var tail := InfLearnTail(gatewayId, channel, key, result);
    TailAt(d, p, tail, rest);
    assert d[p..p + 4] == tail[..4] && d[p + 5..p + 7] == tail[5..7];
  }

  /** Every infrared learning answer, behind any header and before anything, is read as it was written. */
  lemma InfLearnRoundTrip(k: Cipher, h: Header, f: InfLearnFields, result: Byte, rest: seq<Byte>)
    requires Invertible(k) && IsInt32(f.homeId) && IsInt32(f.gatewayId) && IsInt16(f.key)
    ensures var tail := InfLearnTail(f.gatewayId, f.channel, f.key, result);
            var d := HeaderBytes(h) + (SealedId(k, f.homeId) + (tail + rest));
            InfLearnReadable(d) && InfLearnOf(k, d) == f
  {
    hide SealedId, IdOf, AfterId, HeaderBytes, Invertible, BigEndian, AsSigned;
    var tail := InfLearnTail(f.gatewayId, f.channel, f.key, result);
    var d := HeaderBytes(h) + (SealedId(k, f.homeId) + (tail + rest));
    SealedIdReads(k, HeaderBytes(h), f.homeId, tail + rest);
    var p := AfterId(d);
    TailParts(d, p, f.gatewayId, f.channel, f.key, result, rest);
    IntRoundTrip(f.gatewayId);
    ShortRoundTrip(f.key);
  }

  /** Every host service answer is read as it was written. */
  lemma HostServRoundTrip(k: Cipher, h: Header, f: HostServFields, rest: seq<Byte>)
    requires Invertible(k) && IsInt32(f.homeId) && |f.userName| == NAME_SIZE
    ensures var d := HeaderBytes(h) + (SealedId(k, f.homeId) + (HostServTail(f.userName, f.cmdState) + rest));
            HostServReadable(d) && HostServOf(k, d) == f
  {
    hide SealedId, IdOf, AfterId, HeaderBytes, Invertible;
    var tail := HostServTail(f.userName, f.cmdState);
    var d := HeaderBytes(h) + (SealedId(k, f.homeId) + (tail + rest));
    SealedIdReads(k, HeaderBytes(h), f.homeId, tail + rest);
    var p := AfterId(d);
    TailAt(d, p, tail, rest);
    assert d[p..p + NAME_SIZE] == f.userName;
  }

  /** The length that a header announces on the wire, high octet first. */
  function Announced(d: seq<Byte>): nat
    requires |d| >= HEADER_SIZE
  {
    BigEndian(d[2..4])
  }

  /** A header set as the fill operations set it announces the octets that follow it. */
  lemma LengthAnnounced(h: Header, body: seq<Byte>)
    requires |body| < 0x1_0000 && h.length == Htons(|body|)
    ensures Announced(HeaderBytes(h) + body) == |body|
  {
    hide BigEndian;
    var n := |body|;
    SwappedOctets(n);
    BigEndian2(n / 256, n % 256);
    assert (HeaderBytes(h) + body)[2..4] == [n / 256, n % 256];
  }

  lemma SwappedOctets(n: Word)
    ensures Low(Htons(n)) == n / 256 && Low(Htons(n) / 256) == n % 256
  {
    DivModUnique(Htons(n), n % 256, n / 256, 256);
  }

  // ---------- where things lie ----------

  /** The header as the declaration of the structure lays it over a datagram, numbers low octet first. */
  function HeaderOf(d: seq<Byte>): Header
    requires |d| >= HEADER_SIZE
  {
    Header(d[0], d[1], Unsigned2(d[3], d[2]), AsSigned(Unsigned4([d[7], d[6], d[5], d[4]]), 0x1_0000_0000),
           d[8], d[9], (d[10], d[11]))
  }

  /** Every header, whatever follows it, is read back field by field. */
  lemma HeaderIsRead(h: Header, rest: seq<Byte>)
    ensures HeaderOf(HeaderBytes(h) + rest) == h
  {
    hide AsSigned, Low, Unsigned2, Unsigned4;
    var d := HeaderBytes(h) + rest;
    assert d[..HEADER_SIZE] == HeaderBytes(h);
    LowOctets(h.length);
    LowOctets4(h.serial);
    SignedRange(h.serial, 0x1_0000_0000);
  }

  /** Behind the home id of an infrared learning answer: the gateway in four octets and the key in two, high
      octet first, with the channel between them and the result at the end. */
  lemma InfLearnLayout(k: Cipher, h: Header, f: InfLearnFields, result: Byte, rest: seq<Byte>)
    requires Invertible(k) && IsInt32(f.homeId) && IsInt32(f.gatewayId) && IsInt16(f.key)
    ensures var tail := InfLearnTail(f.gatewayId, f.channel, f.key, result);
            var d := HeaderBytes(h) + (SealedId(k, f.homeId) + (tail + rest));
            && |d| > HEADER_SIZE && d[HEADER_SIZE] == |Print(f.homeId)|
            && var p := AfterId(d);
               && p == HEADER_SIZE + 1 + BLOCK_SIZE && |d| >= p + 8
               && BigEndian(d[p..p + 4]) == f.gatewayId % 0x1_0000_0000 && d[p + 4] == f.channel
               && BigEndian(d[p + 5..p + 7]) == f.key % 0x1_0000 && d[p + 7] == result
  {
    hide SealedId, AfterId, HeaderBytes, Invertible, BigEndian, AsSigned, Print;
    var tail := InfLearnTail(f.gatewayId, f.channel, f.key, result);
    var d := HeaderBytes(h) + (SealedId(k, f.homeId) + (tail + rest));
    SealedIdReads(k, HeaderBytes(h), f.homeId, tail + rest);
    SealedIdSize(k, f.homeId);
    assert d[HEADER_SIZE] == SealedId(k, f.homeId)[0];
    var p := AfterId(d);
    TailParts(d, p, f.gatewayId, f.channel, f.key, result, rest);
    BigEndianOctets4(f.gatewayId);
    BigEndianOctets2(f.key);
  }

  /** The text of a home id fits one block behind its length. */
  lemma SealedIdSize(k: Cipher, homeId: Int32)
    ensures var s := SealedId(k, homeId); |s| == 1 + BLOCK_SIZE && s[0] == |Print(homeId)|
  {
    hide Print, Encrypt;
    PrintInt32(homeId);
  }

  /** Behind the home id of a host service answer: the user name, the state and three zeros. */
  lemma HostServLayout(k: Cipher, h: Header, f: HostServFields, rest: seq<Byte>)
    requires Invertible(k) && IsInt32(f.homeId) && |f.userName| == NAME_SIZE
    ensures var d := HeaderBytes(h) + (SealedId(k, f.homeId) + (HostServTail(f.userName, f.cmdState) + rest));
            var p := HEADER_SIZE + 1 + BLOCK_SIZE;
            && |d| >= p + 35 && d[HEADER_SIZE] == |Print(f.homeId)|
            && d[p..p + 31] == f.userName && d[p + 31] == f.cmdState && d[p + 32..p + 35] == [0, 0, 0]
  {
    hide SealedId, HeaderBytes, Invertible, Print;
    var tail := HostServTail(f.userName, f.cmdState);
    var d := HeaderBytes(h) + (SealedId(k, f.homeId) + (tail + rest));
    SealedIdSize(k, f.homeId);
    var p := HEADER_SIZE + 1 + BLOCK_SIZE;
    assert d[HEADER_SIZE] == SealedId(k, f.homeId)[0];
    assert d[p..] == tail + rest;
    TailAt(d, p, tail, rest);
    assert d[p..p + 31] == tail[..31] && d[p + 32..p + 35] == tail[32..35];
  }

  // ---------- the operations ----------

  class InfLearn {
    var header: Header
    var homeId: int
    var gatewayId: int
    var channel: Byte
    var key: int
    var result: Byte
  }

  class HostServ {
    var header: Header
    var homeId: int
    var userName: seq<Byte>
    var cmdState: Byte
  }

  /** Writes the header over the first octets, behind which the buffer already holds `body`. */
  method FillHeader(buf: array<Byte>, header: Header)
    requires buf.Length >= HEADER_SIZE
    modifies buf
    ensures buf[..HEADER_SIZE] == HeaderBytes(header)
    ensures forall i | HEADER_SIZE <= i < buf.Length :: buf[i] == old(buf[i])
  {
    var p := Put(buf, 0, HeaderBytes(header));
  }

  /** Prints the home id into a text buffer and encrypts it. */
  method SealId(aes: Tools, homeId: Int32) returns (len: Byte, sealed: seq<Byte>)
    requires aes.iv.Length == BLOCK_SIZE
    modifies aes.iv
    ensures [len] + sealed == SealedId(aes.cipher, homeId) && |sealed| == SealedLength(len)
    ensures |sealed| == BLOCK_SIZE
  {
    hide Encrypt, Print;
    PrintInt32(homeId);
    var text := Print(homeId);
    var baseText := new Byte[32](_ => 0);
    forall i | 0 <= i < |text| {
      baseText[i] := text[i];
    }
    len := |text|;
    assert baseText[..len] == text;
    var n := SealedLength(len);
    var out := new Byte[n](_ => 0);
    aes.EncryptText(baseText, len, out);
    assert out[..] == out[..n];
    sealed := out[..];
  }

  /** Decrypts the home id text at a position and reads it as a decimal number. */
  method UnsealId(aes: Tools, recv: array<Byte>, pos: nat, len: Byte, spare: nat) returns (homeId: int)
    requires aes.iv.Length == BLOCK_SIZE && recv != aes.iv
    requires pos + SealedLength(len) <= recv.Length && (len > 0 || spare > 0)
    modifies aes.iv
    ensures homeId == Atoi(Decrypt(aes.cipher, recv[pos..], len))
  {
    hide Decrypt, Atoi, Count;
    var n := SealedLength(len);
    CountRoundsUp(len);
    var c := new Byte[n](_ => 0);
    forall i | 0 <= i < n {
      c[i] := recv[pos + i];
    }
    var out := new Byte[n + spare](_ => 0);
    aes.DecryptText(c, len, out);
    assert recv[pos..] == c[..] + recv[pos + n..];
    DecryptReadsPrefix(aes.cipher, c[..], recv[pos + n..], len);
    assert out[..] == out[..len] + ([0] + out[len as int + 1..]);
    AtoiStops(out[..len], out[len as int + 1..]);
    homeId := Atoi(out[..]);
  }

  /** Fills an infrared learning answer into the buffer and puts its length in the header. */
  method FillInfLearnRes(aes: Tools, buf: array<Byte>, res: InfLearn)
    requires aes.iv.Length == BLOCK_SIZE && buf != aes.iv && buf.Length >= 37
    requires IsInt32(res.homeId) && IsInt32(res.gatewayId) && IsInt16(res.key)
    modifies aes.iv, buf, res`header
    ensures var sealed := SealedId(aes.cipher, res.homeId);
            var tail := InfLearnTail(res.gatewayId, res.channel, res.key, res.result);
            var n := |sealed| + |tail|;
            && n < 0x1_0000 && HEADER_SIZE + n <= buf.Length
            && res.header == old(res.header).(length := Htons(n))
            && buf[..HEADER_SIZE + n] == HeaderBytes(res.header) + (sealed + tail)
            && forall i | HEADER_SIZE + n <= i < buf.Length :: buf[i] == old(buf[i])
  {
    hide SealedId, HeaderBytes, SealedLength, Low, Octets2, Octets4;
    OctetCounts(res.gatewayId, res.key);
    var len, sealed := SealId(aes, res.homeId);
    var index := HEADER_SIZE;
    index := Put(buf, index, [len]);
    res.header := res.header.(length := Htons(|sealed| + 1 + 4 + 3 + 1));
    FillHeader(buf, res.header);
    assert buf[..index] == HeaderBytes(res.header) + [len];
    index := Put(buf, index, sealed);
    index := Put(buf, index, Octets4(res.gatewayId));
    index := Put(buf, index, [res.channel]);
    index := Put(buf, index, Octets2(res.key));
    index := Put(buf, index, [res.result]);
    InfLearnParts(HeaderBytes(res.header), len, sealed,
                  Octets4(res.gatewayId), res.channel, Octets2(res.key), res.result);
  }

  lemma OctetCounts(a: int, b: int)
    ensures |Octets4(a)| == 4 && |Octets2(b)| == 2
  {
  }

  lemma InfLearnParts(h: seq<Byte>, len: Byte, sealed: seq<Byte>,
                      gatewayId: seq<Byte>, channel: Byte, key: seq<Byte>, result: Byte)
    ensures h + [len] + sealed + gatewayId + [channel] + key + [result]
            == h + (([len] + sealed) + (gatewayId + [channel] + key + [result]))
  {
  }

  /** Reads an infrared learning request; the result octet is not looked at. */
  method ParseInfLearnReq(aes: Tools, recv: array<Byte>, req: InfLearn)
    requires aes.iv.Length == BLOCK_SIZE && recv != aes.iv && InfLearnReadable(recv[..])
    modifies aes.iv, req`homeId, req`gatewayId, req`channel, req`key
    ensures InfLearnFields(req.homeId, req.gatewayId, req.channel, req.key) == InfLearnOf(aes.cipher, recv[..])
  {
    hide Decrypt, Atoi, BigEndian, AsSigned;
    ghost var d := recv[..];
    var index := HEADER_SIZE;
    var len := recv[index];
    index := index + 1;
    req.homeId := UnsealId(aes, recv, index, len, 0);
    index := index + SealedLength(len);
    assert recv[..] == d && index == AfterId(d);
    assert recv[index..index + 4] == d[index..index + 4] && recv[index + 5..index + 7] == d[index + 5..index + 7];
    req.gatewayId := Btoi(recv[index..index + 4]);
    index := index + 4;
    req.channel := recv[index];
    index := index + 1;
    req.key := Btos(recv[index..index + 2]);
  }

  /** Fills a host service answer into the buffer and puts its length in the header. */
  method FillHostServRes(aes: Tools, buf: array<Byte>, res: HostServ)
    requires aes.iv.Length == BLOCK_SIZE && buf != aes.iv && buf.Length >= 64
    requires IsInt32(res.homeId) && |res.userName| == NAME_SIZE
    modifies aes.iv, buf, res`header
    ensures var sealed := SealedId(aes.cipher, res.homeId);
            var tail := HostServTail(res.userName, res.cmdState);
            var n := |sealed| + |tail|;
            && n < 0x1_0000 && HEADER_SIZE + n <= buf.Length
            && res.header == old(res.header).(length := Htons(n))
            && buf[..HEADER_SIZE + n] == HeaderBytes(res.header) + (sealed + tail)
            && forall i | HEADER_SIZE + n <= i < buf.Length :: buf[i] == old(buf[i])
  {
    hide SealedId, HeaderBytes, SealedLength, Low;
    var len, sealed := SealId(aes, res.homeId);
    var index := HEADER_SIZE;
    index := Put(buf, index, [len]);
    res.header := res.header.(length := Htons(|sealed| + 1 + NAME_SIZE + 4));
    FillHeader(buf, res.header);
    assert buf[..index] == HeaderBytes(res.header) + [len];
    index := Put(buf, index, sealed);
    index := Put(buf, index, res.userName);
    index := Put(buf, index, [res.cmdState]);
    index := Put(buf, index, [0, 0, 0]);
    HostServParts(HeaderBytes(res.header), len, sealed, res.userName, res.cmdState);
  }

  lemma HostServParts(h: seq<Byte>, len: Byte, sealed: seq<Byte>, userName: seq<Byte>, cmdState: Byte)
    ensures h + [len] + sealed + userName + [cmdState] + [0, 0, 0]
            == h + (([len] + sealed) + HostServTail(userName, cmdState))
  {
  }

  /** Reads a host service request. */
  method ParseHostServReq(aes: Tools, recv: array<Byte>, req: HostServ)
    requires aes.iv.Length == BLOCK_SIZE && recv != aes.iv && HostServReadable(recv[..])
    modifies aes.iv, req`homeId, req`userName, req`cmdState
    ensures HostServFields(req.homeId, req.userName, req.cmdState) == HostServOf(aes.cipher, recv[..])
  {
    hide Decrypt, Atoi;
    ghost var d := recv[..];
    var index := HEADER_SIZE;
    var len := recv[index];
    index := index + 1;
    req.homeId := UnsealId(aes, recv, index, len, 1);
    index := index + SealedLength(len);
    assert recv[..] == d && index == AfterId(d);
    req.userName := recv[index..index + NAME_SIZE];
    assert req.userName == d[index..index + NAME_SIZE];
    index := index + NAME_SIZE;
    req.cmdState := recv[index];
  }
}
