/**
 The 15-in-16 chunking around AES.  Each chunk of up to fifteen octets is masked with an initial
 vector that holds 16 minus its length in its first octets, padded with zeros, and encrypted as one
 block.  AES is an abstract pair of block functions; CBC on a single block is the mask and the block
 function.
 */
module ChunkedCipher {
  import opened Common
  import opened Arithmetic

  const BLOCK_SIZE := 16
  const CHUNK := 15

  type Block = b: seq<Byte> | |b| == 16 witness [0, 0, 0, 0, 0, 0, 0, 0, 0, 0, 0, 0, 0, 0, 0, 0]

  datatype Cipher = Cipher(enc: Block -> Block, dec: Block -> Block)

  ghost predicate Invertible(k: Cipher) {
    forall b: Block :: k.dec(k.enc(b)) == b
  }

  /** Exclusive or of the n low bits. */
  function XorBits(a: nat, b: nat, n: nat): (x: nat)
    ensures x < Pow2(n)
  {
    if n == 0 then 0 else (if a % 2 == b % 2 then 0 else 1) + 2 * XorBits(a / 2, b / 2, n - 1)
  }

  lemma {:induction false} XorBitsCancels(a: nat, b: nat, n: nat)
    requires a < Pow2(n)
    ensures XorBits(XorBits(a, b, n), b, n) == a
  {
    if n > 0 {
      var x, y := XorBits(a, b, n), XorBits(a / 2, b / 2, n - 1);
      assert x / 2 == y && (x % 2 == 0 <==> a % 2 == b % 2);
      XorBitsCancels(a / 2, b / 2, n - 1);
    }
  }

  /** Bit i of the result is the sum of the two bits, without carry. */
  lemma {:induction false} XorBitsAt(a: nat, b: nat, n: nat, i: nat)
    requires i < n
    ensures BitOf(XorBits(a, b, n), i) == (BitOf(a, i) + BitOf(b, i)) % 2
  {
    var x, y := XorBits(a, b, n), XorBits(a / 2, b / 2, n - 1);
    assert x / 2 == y && (x % 2 == 0 <==> a % 2 == b % 2);
    if i > 0 { XorBitsAt(a / 2, b / 2, n - 1, i - 1); }
  }

  function Xor(a: Byte, b: Byte): Byte {
    assert Pow2(8) == 256;
    XorBits(a, b, 8)
  }

  lemma XorCancels(a: Byte, b: Byte)
    ensures Xor(Xor(a, b), b) == a
  {
    assert Pow2(8) == 256;
    XorBitsCancels(a, b, 8);
  }

  /** The initial vector for a chunk of t octets. */
  function Iv(t: nat): (iv: Block)
    requires t <= BLOCK_SIZE
    ensures forall i | 0 <= i < BLOCK_SIZE :: iv[i] == if i < t then BLOCK_SIZE - t else 0
  {
    Repeat(BLOCK_SIZE - t, t) + Zeros(BLOCK_SIZE - t)
  }

  function Repeat(b: Byte, n: nat): (s: seq<Byte>)
    ensures |s| == n && forall i | 0 <= i < n :: s[i] == b
  {
    if n == 0 then [] else Repeat(b, n - 1) + [b]
  }

  function XorAll(a: seq<Byte>, b: seq<Byte>): (c: seq<Byte>)
    requires |a| == |b|
    ensures |c| == |a| && forall i | 0 <= i < |a| :: c[i] == Xor(a[i], b[i])
  {
    if a == [] then [] else XorAll(a[..|a| - 1], b[..|b| - 1]) + [Xor(a[|a| - 1], b[|b| - 1])]
  }

  /** CBC on the first t octets of a buffer: octets past t count as zero. */
  function EncryptUnit(k: Cipher, buffer: seq<Byte>, t: nat): Block
    requires t <= BLOCK_SIZE && t <= |buffer|
  {
    k.enc(XorAll(buffer[..t] + Zeros(BLOCK_SIZE - t), Iv(t)))
  }

  /** CBC decryption of one block, with a zero written at position t. */
  function DecryptUnit(k: Cipher, block: Block, t: nat): (r: seq<Byte>)
    requires t <= BLOCK_SIZE
    ensures |r| == if t == BLOCK_SIZE then BLOCK_SIZE + 1 else BLOCK_SIZE
    ensures r[t] == 0
  {
    var plain := XorAll(k.dec(block), Iv(t));
    if t == BLOCK_SIZE then plain + [0] else plain[t := 0]
  }

  lemma UnitRoundTrip(k: Cipher, buffer: seq<Byte>, t: nat)
    requires Invertible(k) && t < BLOCK_SIZE && t <= |buffer|
    ensures DecryptUnit(k, EncryptUnit(k, buffer, t), t) == buffer[..t] + Zeros(BLOCK_SIZE - t)
  {
    var padded := buffer[..t] + Zeros(BLOCK_SIZE - t);
    var masked: Block := XorAll(padded, Iv(t));
    assert k.dec(k.enc(masked)) == masked;
    forall i | 0 <= i < BLOCK_SIZE ensures Xor(masked[i], Iv(t)[i]) == padded[i] { XorCancels(padded[i], Iv(t)[i]); }
  }

  /** What the block function is given: the octets, each masked with sixteen less the length of the chunk,
      and zeros. */
  lemma UnitIsMasked(k: Cipher, buffer: seq<Byte>, t: nat)
    requires Invertible(k) && t <= BLOCK_SIZE && t <= |buffer|
    ensures var plain := k.dec(EncryptUnit(k, buffer, t));
            && (forall i | 0 <= i < t :: plain[i] == Xor(buffer[i], 16 - t))
            && (forall i | t <= i < 16 :: plain[i] == 0)
  {
    hide Xor;
    var masked: Block := XorAll(buffer[..t] + Zeros(BLOCK_SIZE - t), Iv(t));
    assert k.dec(k.enc(masked)) == masked;
    XorOfZeros();
  }

  lemma XorOfZeros()
    ensures Xor(0, 0) == 0
  {
    XorCancels(0, 0);
    assert XorBits(0, 0, 4) == 0;
  }

  lemma UnitReadsPrefix(k: Cipher, a: seq<Byte>, b: seq<Byte>, t: nat)
    requires t <= BLOCK_SIZE && t <= |a| && t <= |b| && a[..t] == b[..t]
    ensures EncryptUnit(k, a, t) == EncryptUnit(k, b, t)
  {
  }

  /** at_get_count */
  function Count(len: nat): nat {
    if len % CHUNK == 0 then len / CHUNK else len / CHUNK + 1
  }

  /** at_get_count rounds up, so the chunk buffers cover the text and less than one chunk more. */
  lemma CountRoundsUp(len: nat)
    ensures len <= CHUNK * Count(len) < len + CHUNK
    ensures len > 0 ==> Count(len) >= 1
    ensures len > CHUNK ==> Count(len) == 1 + Count(len - CHUNK)
  {
  }

  function Min(a: nat, b: nat): nat {
    if a < b then a else b
  }

  // ---------- texts of any length ----------

  function Encrypt(k: Cipher, text: seq<Byte>): (c: seq<Byte>)
    ensures |c| == BLOCK_SIZE * Count(|text|)
  {
    if text == [] then []
    else if |text| <= CHUNK then EncryptUnit(k, text, |text|)
    else
      CountRoundsUp(|text|);
      EncryptUnit(k, text, CHUNK) + Encrypt(k, text[CHUNK..])
  }

  lemma EncryptChunk(k: Cipher, text: seq<Byte>, t: nat)
    requires text != [] && t == Min(|text|, CHUNK)
    ensures Encrypt(k, text) == EncryptUnit(k, text, t) + Encrypt(k, text[t..])
  {
  }

  /** Block i of an encryption is that of chunk i: fifteen octets from the fifteen-fold of i on, or what
      is left. */
  lemma {:induction false} BlockOfChunk(k: Cipher, text: seq<Byte>, i: nat)
    requires i < Count(|text|)
    ensures CHUNK * i < |text|
    ensures Encrypt(k, text)[BLOCK_SIZE * i..BLOCK_SIZE * (i + 1)]
         == EncryptUnit(k, text[CHUNK * i..], Min(|text| - CHUNK * i, CHUNK))
    decreases i
  {
    hide EncryptUnit, Encrypt;
    var t := Min(|text|, CHUNK);
    EncryptChunk(k, text, t);
    if i > 0 {
      CountRoundsUp(|text|);
      BlockOfChunk(k, text[CHUNK..], i - 1);
      var c := Encrypt(k, text[CHUNK..]);
      assert text[CHUNK..][CHUNK * (i - 1)..] == text[CHUNK * i..];
      assert Encrypt(k, text)[BLOCK_SIZE * i..BLOCK_SIZE * (i + 1)] == c[BLOCK_SIZE * (i - 1)..BLOCK_SIZE * i];
    } else {
      assert text[0..] == text;
    }
  }

  function Decrypt(k: Cipher, c: seq<Byte>, len: nat): (text: seq<Byte>)
    requires |c| >= BLOCK_SIZE * Count(len)
    ensures |text| == len
    decreases len
  {
    if len == 0 then []
    else
      CountRoundsUp(len);
      var t := Min(len, CHUNK);
      DecryptUnit(k, c[..BLOCK_SIZE], t)[..t] + Decrypt(k, c[BLOCK_SIZE..], len - t)
  }

  lemma DecryptChunk(k: Cipher, c: seq<Byte>, len: nat, t: nat)
    requires len > 0 && |c| >= BLOCK_SIZE * Count(len) && t == Min(len, CHUNK)
    ensures |c| >= BLOCK_SIZE && |c| - BLOCK_SIZE >= BLOCK_SIZE * Count(len - t)
    ensures Decrypt(k, c, len) == DecryptUnit(k, c[..BLOCK_SIZE], t)[..t] + Decrypt(k, c[BLOCK_SIZE..], len - t)
  {
    CountRoundsUp(len);
  }

  /** What is left of len octets after i chunks. */
  function Left(len: nat, i: nat): nat {
    if CHUNK * i <= len then len - CHUNK * i else 0
  }

  lemma LeftStart(len: nat)
    ensures Left(len, 0) == len
  {
  }

  lemma {:induction false} CountLeft(len: nat, i: nat)
    requires i <= Count(len)
    ensures Count(Left(len, i)) == Count(len) - i
    ensures i < Count(len) ==> Left(len, i) == len - CHUNK * i > 0
    ensures Left(len, Count(len)) == 0
  {
    CountRoundsUp(len);
    if i > 0 {
      CountLeft(len, i - 1);
      CountRoundsUp(Left(len, i - 1));
    }
  }

  /** One more block of an encryption that has got as far as `done`. */
  lemma EncryptStep(k: Cipher, text: seq<Byte>, i: nat, done: seq<Byte>, t: nat, buffer: seq<Byte>)
    requires i < Count(|text|) && Left(|text|, i) <= |text|
    requires t == if i == Count(|text|) - 1 then |text| - CHUNK * i else CHUNK
    requires done + Encrypt(k, text[|text| - Left(|text|, i)..]) == Encrypt(k, text)
    requires |buffer| == CHUNK
    requires forall j | 0 <= j < CHUNK && CHUNK * i + j < |text| :: buffer[j] == text[CHUNK * i + j]
    ensures 0 < t <= CHUNK && Left(|text|, i + 1) <= |text|
    ensures done + EncryptUnit(k, buffer, t) + Encrypt(k, text[|text| - Left(|text|, i + 1)..]) == Encrypt(k, text)
  {
    hide EncryptUnit, Encrypt, Count, Left;
    CountLeft(|text|, i);
    CountLeft(|text|, i + 1);
    CountRoundsUp(|text|);
    var rest := text[CHUNK * i..];
    assert |text| - Left(|text|, i) == CHUNK * i && t == Min(|rest|, CHUNK);
    assert |text| - Left(|text|, i + 1) == CHUNK * i + t;
    EncryptChunk(k, rest, t);
    assert buffer[..t] == rest[..t];
    UnitReadsPrefix(k, buffer, rest, t);
    assert rest[t..] == text[CHUNK * i + t..];
    hide Min;
    assert done + (EncryptUnit(k, rest, t) + Encrypt(k, rest[t..]))
        == done + EncryptUnit(k, rest, t) + Encrypt(k, rest[t..]);
  }

  /** One more block of a decryption that has got as far as `done`. */
  lemma DecryptStep(k: Cipher, c: seq<Byte>, len: nat, i: nat, done: seq<Byte>, t: nat)
    requires |c| >= BLOCK_SIZE * Count(len) && i < Count(len)
    requires t == if i == Count(len) - 1 then len - CHUNK * i else CHUNK
    requires |c[BLOCK_SIZE * i..]| >= BLOCK_SIZE * Count(Left(len, i))
    requires done + Decrypt(k, c[BLOCK_SIZE * i..], Left(len, i)) == Decrypt(k, c, len)
    ensures 0 < t <= CHUNK && Left(len, i) - t == Left(len, i + 1) && CHUNK * i + t == len - Left(len, i + 1)
    ensures |c[BLOCK_SIZE * (i + 1)..]| >= BLOCK_SIZE * Count(Left(len, i + 1))
    ensures done + DecryptUnit(k, c[BLOCK_SIZE * i..BLOCK_SIZE * (i + 1)], t)[..t]
            + Decrypt(k, c[BLOCK_SIZE * (i + 1)..], Left(len, i + 1)) == Decrypt(k, c, len)
  {
    hide DecryptUnit, Decrypt, Count;
    CountLeft(len, i);
    CountLeft(len, i + 1);
    CountRoundsUp(len);
    var rest := c[BLOCK_SIZE * i..];
    DecryptChunk(k, rest, Left(len, i), t);
    assert rest[..BLOCK_SIZE] == c[BLOCK_SIZE * i..BLOCK_SIZE * (i + 1)];
    assert rest[BLOCK_SIZE..] == c[BLOCK_SIZE * (i + 1)..];
  }

  lemma EncryptNothing(k: Cipher)
    ensures Encrypt(k, []) == []
  {
  }

  lemma DecryptNothing(k: Cipher, c: seq<Byte>)
    ensures Decrypt(k, c, 0) == []
  {
  }

  /** Main result: decryption restores every text, under any invertible block function. */
  lemma {:induction false} DecryptEncrypt(k: Cipher, text: seq<Byte>)
    requires Invertible(k)
    ensures Decrypt(k, Encrypt(k, text), |text|) == text
    decreases |text|
  {
    hide EncryptUnit, DecryptUnit, Invertible;
    if text != [] {
      var t := Min(|text|, CHUNK);
      var c := Encrypt(k, text);
      UnitRoundTrip(k, text, t);
      assert c[..BLOCK_SIZE] == EncryptUnit(k, text, t);
      assert c[BLOCK_SIZE..] == Encrypt(k, text[t..]);
      DecryptEncrypt(k, text[t..]);
      assert text == text[..t] + text[t..];
    }
  }

  // ---------- files ----------

  /** What the file version encrypts: an empty file is taken for one chunk of fifteen zeros. */
  function EncryptFile(k: Cipher, file: seq<Byte>): seq<Byte> {
    if file == [] then EncryptUnit(k, Zeros(CHUNK), CHUNK) else Encrypt(k, file)
  }

  /** The length of the last chunk, which the caller has to keep for decryption. */
  function LastRead(len: nat): nat {
    if len % CHUNK == 0 then CHUNK else len % CHUNK
  }

  function Pad(s: seq<Byte>): Block
    requires |s| <= BLOCK_SIZE
  {
    s + Zeros(BLOCK_SIZE - |s|)
  }

  /** The file version decrypts as many whole blocks as there are, at least one, and takes `last`
      octets of the last. */
  function DecryptFile(k: Cipher, file: seq<Byte>, last: nat): seq<Byte>
    requires last <= BLOCK_SIZE
    decreases |file|
  {
    if |file| < 2 * BLOCK_SIZE then DecryptUnit(k, Pad(file[..Min(|file|, BLOCK_SIZE)]), last)[..last]
    else DecryptUnit(k, file[..BLOCK_SIZE], CHUNK)[..CHUNK] + DecryptFile(k, file[BLOCK_SIZE..], last)
  }

  lemma {:induction false} FileDecryptsLikeText(k: Cipher, c: seq<Byte>, len: nat)
    requires len > 0 && |c| == BLOCK_SIZE * Count(len)
    ensures DecryptFile(k, c, LastRead(len)) == Decrypt(k, c, len)
    decreases len
  {
    hide DecryptUnit;
    CountRoundsUp(len);
    if len > CHUNK {
      FileDecryptsLikeText(k, c[BLOCK_SIZE..], len - CHUNK);
    } else {
      assert Pad(c[..BLOCK_SIZE]) == c[..BLOCK_SIZE];
    }
  }

  /** A file comes back exactly when it is not empty. */
  lemma FileRoundTrip(k: Cipher, file: seq<Byte>)
    requires Invertible(k)
    ensures DecryptFile(k, EncryptFile(k, file), LastRead(|file|)) == file <==> file != []
  {
    if file == [] {
      assert |DecryptFile(k, EncryptFile(k, file), CHUNK)| == CHUNK;
    } else {
      FileDecryptsLikeText(k, Encrypt(k, file), |file|);
      DecryptEncrypt(k, file);
    }
  }
}
