/** The buffer and file operations that carry out the chunked cipher. */
module AesTools {
  import opened Common
  import opened ChunkedCipher

  /** The tools share one buffer for the initial vector. */
  class Tools {
    const iv: array<Byte>
    const cipher: Cipher

    constructor (cipher: Cipher)
      ensures this.cipher == cipher && fresh(iv) && iv.Length == BLOCK_SIZE
    {
      this.cipher := cipher;
      iv := new Byte[BLOCK_SIZE](_ => 0);
    }

    method SetIv(t: nat)
      requires iv.Length == BLOCK_SIZE && t <= BLOCK_SIZE
      modifies iv
      ensures iv[..] == Iv(t)
    {
      forall i | 0 <= i < BLOCK_SIZE {
        iv[i] := 0;
      }
      forall i | 0 <= i < t {
        iv[i] := BLOCK_SIZE - t;
      }
    }

    /** CBC encryption of the first t octets of a buffer: the rest of the block is the vector itself. */
    method EncryptOne(buffer: seq<Byte>, t: nat) returns (block: Block)
      requires iv.Length == BLOCK_SIZE && t <= BLOCK_SIZE && t <= |buffer|
      modifies iv
      ensures block == EncryptUnit(cipher, buffer, t)
    {
      SetIv(t);
      block := cipher.enc(XorAll(buffer[..t] + Zeros(BLOCK_SIZE - t), iv[..]));
    }

    method DecryptOne(block: Block, t: nat) returns (unit: seq<Byte>)
      requires iv.Length == BLOCK_SIZE && t <= BLOCK_SIZE
      modifies iv
      ensures unit == DecryptUnit(cipher, block, t)
    {
      SetIv(t);
      unit := XorAll(cipher.dec(block), iv[..]);
      unit := if t == BLOCK_SIZE then unit + [0] else unit[t := 0];
    }

    /** Encrypts len octets.  Whole chunks are read from the text buffer, so it has to extend to a
        multiple of fifteen; what lies past len does not matter. */
    method EncryptText(text: array<Byte>, len: nat, out: array<Byte>)
      requires iv.Length == BLOCK_SIZE && text != out && iv != text && iv != out
      requires len <= text.Length && CHUNK * Count(len) <= text.Length && BLOCK_SIZE * Count(len) <= out.Length
      modifies iv, out
      ensures out[..BLOCK_SIZE * Count(len)] == Encrypt(cipher, text[..len])
      ensures out[BLOCK_SIZE * Count(len)..] == old(out[BLOCK_SIZE * Count(len)..])
    {
      hide EncryptUnit, Encrypt, Count, Left, Iv, Zeros, XorAll;
      var n := Count(len);
      CountRoundsUp(len);
      CountLeft(len, 0);
      CountLeft(len, n);
      LeftStart(len);
      var i := 0;
      ghost var s := text[..len];
      while i < n
        invariant i <= n && text[..len] == s && Left(len, i) <= len
        invariant out[..BLOCK_SIZE * i] + Encrypt(cipher, s[len - Left(len, i)..]) == Encrypt(cipher, s)
        invariant out[BLOCK_SIZE * n..] == old(out[BLOCK_SIZE * n..])
      {
        var buffer := text[CHUNK * i..CHUNK * i + CHUNK];
        var t := if i == n - 1 then len - i * CHUNK else CHUNK;
        EncryptStep(cipher, s, i, out[..BLOCK_SIZE * i], t, buffer);
        var block := EncryptOne(buffer, t);
        PutBlock(out, BLOCK_SIZE * i, block);
        i := i + 1;
      }
      EncryptNothing(cipher);
      assert out[..BLOCK_SIZE * n] + [] == out[..BLOCK_SIZE * n];
    }

    /** Decrypts len octets.  Each block writes sixteen octets, of which the next block overwrites the
        last; the final block leaves a zero right behind the text. */
    method DecryptText(c: array<Byte>, len: nat, out: array<Byte>)
      requires iv.Length == BLOCK_SIZE && c != out && iv != c && iv != out
      requires BLOCK_SIZE * Count(len) <= c.Length && (len > 0 ==> CHUNK * Count(len) + 1 <= out.Length)
      requires len <= out.Length
      modifies iv, out
      ensures out[..len] == Decrypt(cipher, c[..], len)
      ensures if len > 0 then out[len] == 0 else out[..] == old(out[..])
    {
      hide DecryptUnit, Decrypt, Count, Left, Iv, Zeros, XorAll;
      var n := Count(len);
      CountRoundsUp(len);
      CountLeft(len, 0);
      CountLeft(len, n);
      var i := 0;
      ghost var s := c[..];
      ghost var done: seq<Byte> := [];
      LeftStart(len);
      assert done + Decrypt(cipher, s, len) == Decrypt(cipher, s, len);
      while i < n
        invariant i <= n && c[..] == s
        invariant |s[BLOCK_SIZE * i..]| >= BLOCK_SIZE * Count(Left(len, i))
        invariant done + Decrypt(cipher, s[BLOCK_SIZE * i..], Left(len, i)) == Decrypt(cipher, s, len)
        invariant |done| == len - Left(len, i) && (i < n ==> |done| == CHUNK * i)
        invariant done == out[..|done|]
        invariant if i == n > 0 then out[len] == 0 else i == 0 ==> out[..] == old(out[..])
      {
        var block := c[BLOCK_SIZE * i..BLOCK_SIZE * i + BLOCK_SIZE];
        var t := if i == n - 1 then len - i * CHUNK else CHUNK;
        DecryptStep(cipher, s, len, i, done, t);
        var unit := DecryptOne(block, t);
        PutBlock(out, CHUNK * i, unit);
        done := done + unit[..t];
        i := i + 1;
      }
      DecryptNothing(cipher, s[BLOCK_SIZE * n..]);
    }

    method PutBlock(out: array<Byte>, pos: nat, block: Block)
      requires pos + BLOCK_SIZE <= out.Length
      modifies out
      ensures out[..] == old(out[..pos]) + block + old(out[pos + BLOCK_SIZE..])
    {
      forall i | 0 <= i < BLOCK_SIZE {
        out[pos + i] := block[i];
      }
    }

    /** The next octets of a file, at most n of them. */
    static function Read(file: seq<Byte>, pos: nat, n: nat): (data: seq<Byte>)
      requires pos <= |file|
      ensures |data| == Min(n, |file| - pos)
    {
      file[pos..pos + Min(n, |file| - pos)]
    }

    /** Encrypts or decrypts a whole file block by block.  Encryption reports the length of the last
        chunk in `last`; decryption takes it from there. */
    method EdFile(file: seq<Byte>, encrypting: bool, lastRead: nat) returns (result: seq<Byte>, last: nat)
      requires iv.Length == BLOCK_SIZE && (!encrypting ==> lastRead <= BLOCK_SIZE)
      modifies iv
      ensures encrypting ==> result == EncryptFile(cipher, file) && last == LastRead(|file|)
      ensures !encrypting ==> result == DecryptFile(cipher, file, lastRead) && last == lastRead
    {
      if encrypting {
        result, last := EncryptWhole(file);
      } else {
        result := DecryptWhole(file, lastRead);
        last := lastRead;
      }
    }

    method EncryptWhole(file: seq<Byte>) returns (result: seq<Byte>, last: nat)
      requires iv.Length == BLOCK_SIZE
      modifies iv
      ensures result == EncryptFile(cipher, file) && last == LastRead(|file|)
    {
      hide EncryptUnit, Encrypt;
      var counts: int := Count(|file|);
      CountRoundsUp(|file|);
      var i, pos := 0, 0;
      result := [];
      while true
        invariant i <= counts && (i > 0 ==> i < counts) && pos == CHUNK * i <= |file|
        invariant file != [] ==> result + Encrypt(cipher, file[pos..]) == Encrypt(cipher, file)
        invariant i == 0 ==> result == []
        decreases counts - i
      {
        ghost var rest := file[pos..];
        ghost var before := result;
        last := CHUNK;
        if i >= counts - 1 {
          last := |file| % CHUNK;
          if last == 0 {
            last := CHUNK;
          }
        }
        var data := Read(file, pos, last);
        var buffer := data + Zeros(BLOCK_SIZE + 1 - |data|);
        var block := EncryptOne(buffer, last);
        result := result + block;
        pos := pos + |data|;
        EncryptFileChunk(cipher, file, i, rest, last, buffer);
        assert before + (block + Encrypt(cipher, file[pos..])) == result + Encrypt(cipher, file[pos..]);
        if i >= counts - 1 {
          break;
        }
        i := i + 1;
      }
      EncryptNothing(cipher);
    }

    method DecryptWhole(file: seq<Byte>, lastRead: nat) returns (result: seq<Byte>)
      requires iv.Length == BLOCK_SIZE && lastRead <= BLOCK_SIZE
      modifies iv
      ensures result == DecryptFile(cipher, file, lastRead)
    {
      hide DecryptUnit;
      var counts: int := |file| / BLOCK_SIZE;
      var i, pos := 0, 0;
      result := [];
      while true
        invariant i <= counts && (i > 0 ==> i < counts) && pos == BLOCK_SIZE * i <= |file|
        invariant result + DecryptFile(cipher, file[pos..], lastRead) == DecryptFile(cipher, file, lastRead)
        decreases counts - i
      {
        ghost var rest := file[pos..];
        ghost var before := result;
        var lineRead := if i < counts - 1 then CHUNK else lastRead;
        var data := Read(file, pos, BLOCK_SIZE);
        assert data == rest[..Min(|rest|, BLOCK_SIZE)];
        var unit := DecryptOne(Pad(data), lineRead);
        result := result + unit[..lineRead];
        pos := pos + |data|;
        if i >= counts - 1 {
          assert DecryptFile(cipher, rest, lastRead) == unit[..lineRead];
          break;
        }
        assert Pad(data) == rest[..BLOCK_SIZE] && rest[BLOCK_SIZE..] == file[pos..];
        assert before + (unit[..CHUNK] + DecryptFile(cipher, file[pos..], lastRead))
            == result + DecryptFile(cipher, file[pos..], lastRead);
        i := i + 1;
      }
    }
  }

  /** What one round of the encryption loop does: the whole padded file when it is empty, else one chunk. */
  lemma EncryptFileChunk(k: Cipher, file: seq<Byte>, i: nat, rest: seq<Byte>, t: nat, buffer: seq<Byte>)
    requires CHUNK * i <= |file| && rest == file[CHUNK * i..] && (i == 0 || i < Count(|file|))
    requires t == if i >= Count(|file|) - 1 then LastRead(|file|) else CHUNK
    requires buffer == rest[..Min(t, |rest|)] + Zeros(BLOCK_SIZE + 1 - Min(t, |rest|))
    ensures file == [] ==> EncryptUnit(k, buffer, t) == EncryptFile(k, file)
    ensures file != [] ==>
              t == Min(|rest|, CHUNK) && Encrypt(k, rest) == EncryptUnit(k, buffer, t) + Encrypt(k, rest[t..])
  {
    hide EncryptUnit, Encrypt;
    if file == [] {
      UnitReadsPrefix(k, buffer, Zeros(CHUNK), CHUNK);
    } else {
      CountRoundsUp(|file|);
      EncryptChunk(k, rest, t);
      UnitReadsPrefix(k, buffer, rest, t);
    }
  }
}
