/** The CipherBlockChain class over BlowFish, and the one that wrote the wallets of former releases. */
module Cbc {
  import opened Bytes
  import opened BlowfishRounds
  import opened Blowfish
  import opened Chaining
  import opened Remainders

  // What the block cipher does to a run of whole blocks under the given tables.
  function Cipher(dir: Direction, order: ByteOrder, t: Tables): Perm
    requires t.Valid()
  {
    (b: seq<byte>) => if |b| % 8 == 0 then Buffer(dir, order, t, b) else b
  }

  lemma CipherInverse(dir: Direction, order: ByteOrder, t: Tables, n: nat)
    requires t.Valid() && n % 8 == 0
    ensures KeepsLength(Cipher(dir, order, t), n)
    ensures Undoes(Cipher(dir.Opposite(), order, t), Cipher(dir, order, t), n)
  {
    hide Buffer;
    var e, d := Cipher(dir, order, t), Cipher(dir.Opposite(), order, t);
    forall b | |b| == n ensures |e(b)| == n && d(e(b)) == b {
      BufferInverse(dir, order, t, b);
    }
  }

  // The buffer after encrypt() or decrypt(); a cipher without a key leaves it as it was.
  ghost function Chained(ready: bool, e: Perm, s: seq<byte>): (c: seq<byte>)
    requires |s| % 8 == 0 && KeepsLength(e, 8)
    ensures |c| == |s|
  {
    if ready then Chaining.Encrypt(e, 8, Zeros(8), s) else s
  }

  ghost function Unchained(ready: bool, d: Perm, c: seq<byte>): (s: seq<byte>)
    requires |c| % 8 == 0 && KeepsLength(d, 8)
    ensures |s| == |c|
  {
    if ready then Chaining.Decrypt(d, 8, Zeros(8), c) else c
  }

  // ---- The loops over blocks, on the contents of buffer and register ----

  // Eight bytes of a buffer change of which the rest is as it was from there on.
  lemma Advance(given: seq<byte>, s: seq<byte>, s': seq<byte>, at: nat)
    requires at + 8 <= |given| == |s| == |s'| && s[at..] == given[at..]
    requires s'[..at] == s[..at] && s'[at + 8..] == s[at + 8..]
    ensures s[at..at + 8] == given[at..at + 8] && s'[at + 8..] == given[at + 8..]
    ensures s'[..at + 8] == s[..at] + s'[at..at + 8] && given[..at + 8] == given[..at] + given[at..at + 8]
  {
    assert s[at..at + 8] == s[at..][..8] && given[at..at + 8] == given[at..][..8];
    assert given[at + 8..] == given[at..][8..] == s[at..][8..] == s[at + 8..];
  }

  // The first part is the chained encryption, the register its last block, the rest as it was.
  ghost predicate EncryptedUpTo(ready: bool, e: Perm, plain: seq<byte>, at: nat, s: seq<byte>, reg: seq<byte>)
    requires KeepsLength(e, 8)
  {
    && at % 8 == 0 && at <= |plain| == |s| && s[at..] == plain[at..]
    && s[..at] == Chained(ready, e, plain[..at])
    && reg == if ready then LastBlock(8, Zeros(8), s[..at]) else Zeros(8)
  }

  lemma EncryptedStart(ready: bool, e: Perm, plain: seq<byte>)
    requires KeepsLength(e, 8)
    ensures EncryptedUpTo(ready, e, plain, 0, plain, Zeros(8))
  {
    ChainStart(e, 8, Zeros(8));
    assert plain[..0] == [];
  }

  lemma EncryptedEnd(ready: bool, e: Perm, plain: seq<byte>, s: seq<byte>, reg: seq<byte>)
    requires KeepsLength(e, 8) && EncryptedUpTo(ready, e, plain, |plain|, s, reg)
    ensures s == Chained(ready, e, plain)
  {
    assert plain[..|plain|] == plain && s[..|plain|] == s;
  }

  lemma EncryptedNext(ready: bool, e: Perm, plain: seq<byte>, at: nat, s: seq<byte>, reg: seq<byte>, s': seq<byte>, reg': seq<byte>)
    requires KeepsLength(e, 8) && EncryptedUpTo(ready, e, plain, at, s, reg) && at + 8 <= |plain| == |s'|
    requires s'[..at] == s[..at] && s'[at + 8..] == s[at + 8..]
    requires ready ==> s'[at..at + 8] == e(Xor(s[at..at + 8], reg)) && reg' == s'[at..at + 8]
    requires !ready ==> s'[at..at + 8] == Xor(s[at..at + 8], reg) && reg' == reg
    ensures EncryptedUpTo(ready, e, plain, at + 8, s', reg')
  {
    hide Chaining.Encrypt, LastBlock;
    var p := plain[at..at + 8];
    Advance(plain, s, s', at);
    if ready {
      ChainOneMore(e, 8, Zeros(8), plain[..at], p);
      LastOf(8, s[..at], s'[at..at + 8]);
    } else {
      XorWithZeros(p);
    }
  }

  // The first part is the decryption, the register the last block received, the rest as it was.
  ghost predicate DecryptedUpTo(ready: bool, d: Perm, received: seq<byte>, at: nat, s: seq<byte>, reg: seq<byte>)
    requires KeepsLength(d, 8)
  {
    && at % 8 == 0 && at <= |received| == |s| && s[at..] == received[at..]
    && s[..at] == Unchained(ready, d, received[..at])
    && reg == LastBlock(8, Zeros(8), received[..at])
  }

  lemma DecryptedStart(ready: bool, d: Perm, received: seq<byte>)
    requires KeepsLength(d, 8)
    ensures DecryptedUpTo(ready, d, received, 0, received, Zeros(8))
  {
    ChainStart(d, 8, Zeros(8));
    assert received[..0] == [];
  }

  lemma DecryptedEnd(ready: bool, d: Perm, received: seq<byte>, s: seq<byte>, reg: seq<byte>)
    requires KeepsLength(d, 8) && DecryptedUpTo(ready, d, received, |received|, s, reg)
    ensures s == Unchained(ready, d, received)
  {
    assert received[..|received|] == received && s[..|received|] == s;
  }

  lemma DecryptedNext(ready: bool, d: Perm, received: seq<byte>, at: nat, s: seq<byte>, reg: seq<byte>, s': seq<byte>, reg': seq<byte>)
    requires KeepsLength(d, 8) && DecryptedUpTo(ready, d, received, at, s, reg) && at + 8 <= |received| == |s'|
    requires s'[..at] == s[..at] && s'[at + 8..] == s[at + 8..] && reg' == s[at..at + 8]
    requires s'[at..at + 8] == if ready then Xor(d(s[at..at + 8]), reg) else s[at..at + 8]
    ensures DecryptedUpTo(ready, d, received, at + 8, s', reg')
  {
    hide Chaining.Decrypt, LastBlock;
    var c := received[at..at + 8];
    Advance(received, s, s', at);
    LastOf(8, received[..at], c);
    if ready {
      ChainOneMore(d, 8, Zeros(8), received[..at], c);
    }
  }

  class CipherBlockChain {
    const cipher: BlowFish?
    const useECBforReading: bool
    var register: array?<byte>
    var next: array?<byte>
    var len: int
    var reader: bool
    var writer: bool
    // everything decryptECB() has been given, call after call
    ghost var received: seq<byte>

    ghost predicate Valid()
      reads this
    {
      && (cipher != null ==> cipher.Valid())
      && !(reader && writer)
      && (register != null ==> register.Length == len)
      && (register != null ==> reader || writer)
      && (register != null && (writer || !useECBforReading) ==> len == 8)
      && (next != null ==> register != null && next.Length == len && next != register)
    }

    predicate Ready()
      reads this, cipher
    {
      cipher != null && cipher.m_initialized
    }

    constructor (cipher: BlowFish?, useECBforReading: bool)
      requires cipher != null ==> cipher.Valid()
      ensures Valid() && !reader && !writer && register == null && next == null && received == []
      ensures this.cipher == cipher && this.useECBforReading == useECBforReading
    {
      this.cipher := cipher;
      this.useECBforReading := useECBforReading;
      register, next, len := null, null, -1;
      reader, writer := false, false;
      received := [];
    }

    method InitRegister()
      requires Valid() && cipher != null && (writer || (reader && !useECBforReading))
      modifies this`register, this`len, register
      ensures Valid() && register != null && register[..] == Zeros(8)
      ensures register == old(register) || fresh(register)
    {
      if register == null {
        register := new byte[8](_ => 0);
        len := 8;
      }
      forall i | 0 <= i < register.Length { register[i] := 0; }
    }

    // One pass of the loop of encrypt(): xor with the register, encipher, remember the result.
    method EncryptBlock(block: array<byte>, at: nat) returns (rc: int)
      requires Valid() && cipher != null && register != null && len == 8 && at + 8 <= block.Length
      requires block != register && block != next
      modifies block, register
      ensures block[..at] == old(block[..at]) && block[at + 8..] == old(block[at + 8..])
      ensures Ready() ==>
        && rc == 8
        && block[at..at + 8] == Cipher(Encrypting, cipher.order, cipher.View())(Xor(old(block[at..at + 8]), old(register[..])))
        && register[..] == block[at..at + 8]
      ensures !Ready() ==>
        && rc == -1 && register[..] == old(register[..])
        && block[at..at + 8] == Xor(old(block[at..at + 8]), old(register[..]))
    {
      hide Buffer;
      ghost var plain := Xor(block[at..at + 8], register[..]);
      assert cipher.m_P as object != block && cipher.m_S as object != block;
      forall i | 0 <= i < 8 { block[at + i] := block[at + i] ^ register[i]; }
      assert block[at..at + 8] == plain;
      rc := cipher.Crypt(Encrypting, block, at, 8);
      if rc != -1 {
        forall i | 0 <= i < 8 { register[i] := block[at + i]; }
      }
    }

    // The count returned is that of the last block, and undefined when there is none.
    method Encrypt(block: array<byte>) returns (rc: int)
      requires Valid() && block != register && block != next
      modifies this`register, this`len, this`writer, block, register
      ensures Valid() && (register == old(register) || fresh(register)) && block != register
      ensures cipher == null || reader ==> rc == -1 && block[..] == old(block[..]) && writer == old(writer)
      ensures cipher != null && !reader ==> writer
      ensures cipher != null && !reader && block.Length % 8 != 0 ==> rc == -1 && block[..] == old(block[..])
      ensures Ready() && !reader && block.Length % 8 == 0 ==>
        KeepsLength(Cipher(Encrypting, cipher.order, cipher.View()), 8) &&
        block[..] == Chaining.Encrypt(Cipher(Encrypting, cipher.order, cipher.View()), 8, Zeros(8), old(block[..]))
      ensures Ready() && !reader && block.Length % 8 == 0 && block.Length > 0 ==> rc == 8
      ensures !Ready() && !reader && block.Length % 8 == 0 ==>
        block[..] == old(block[..]) && (block.Length > 0 ==> rc == -1)
    {
      if cipher == null || reader {
        return -1;
      }
      writer := true;
      InitRegister();
      if block.Length % len > 0 {
        return -1;
      }
      rc := EncryptBlocks(block);
    }

    method EncryptBlocks(block: array<byte>) returns (rc: int)
      requires Valid() && cipher != null && register != null && len == 8 && block.Length % 8 == 0
      requires block != register && block != next && register[..] == Zeros(8)
      modifies block, register
      ensures Ready() ==>
        KeepsLength(Cipher(Encrypting, cipher.order, cipher.View()), 8) &&
        block[..] == Chaining.Encrypt(Cipher(Encrypting, cipher.order, cipher.View()), 8, Zeros(8), old(block[..]))
      ensures !Ready() ==> block[..] == old(block[..])
      ensures block.Length > 0 ==> rc == if Ready() then 8 else -1
    {
      hide Buffer, Cipher, Chaining.Encrypt;
      ghost var e := Cipher(Encrypting, cipher.order, cipher.View());
      CipherInverse(Encrypting, cipher.order, cipher.View(), 8);
      ChainStart(e, 8, Zeros(8));
      rc := EncryptEach(block, e);
    }

    // The loop over the blocks.
    method EncryptEach(block: array<byte>, ghost e: Perm) returns (rc: int)
      requires Valid() && cipher != null && register != null && len == 8 && block.Length % 8 == 0
      requires block != register && block != next && register[..] == Zeros(8)
      requires e == Cipher(Encrypting, cipher.order, cipher.View()) && KeepsLength(e, 8)
      requires Chained(Ready(), e, []) == []
      modifies block, register
      ensures block[..] == Chained(Ready(), e, old(block[..]))
      ensures block.Length > 0 ==> rc == if Ready() then 8 else -1
    {
      hide Buffer, Cipher, Chaining.Encrypt, EncryptedUpTo;
      rc := *;
      ghost var plain := block[..];
      EncryptedStart(Ready(), e, plain);
      var b := 0;
      while b < block.Length / len
        invariant 0 <= b <= block.Length / 8
        invariant EncryptedUpTo(Ready(), e, plain, 8 * b, block[..], register[..])
        invariant b > 0 ==> rc == if Ready() then 8 else -1
      {
        rc := EncryptOne(block, 8 * b, e, plain);
        b := b + 1;
      }
      EncryptedEnd(Ready(), e, plain, block[..], register[..]);
    }

    method EncryptOne(block: array<byte>, at: nat, ghost e: Perm, ghost plain: seq<byte>) returns (rc: int)
      requires Valid() && cipher != null && register != null && len == 8 && at + 8 <= block.Length == |plain|
      requires block != register && block != next
      requires e == Cipher(Encrypting, cipher.order, cipher.View()) && KeepsLength(e, 8)
      requires EncryptedUpTo(Ready(), e, plain, at, block[..], register[..])
      modifies block, register
      ensures EncryptedUpTo(Ready(), e, plain, at + 8, block[..], register[..])
      ensures rc == if Ready() then 8 else -1
    {
      hide Buffer, Cipher, Chaining.Encrypt, EncryptedUpTo;
      ghost var s, key := block[..], register[..];
      rc := EncryptBlock(block, at);
      EncryptedNext(Ready(), e, plain, at, s, key, block[..], register[..]);
    }

    // Makes the pair of registers ready for one more block: the second one is allocated on first use.
    method InitNext()
      requires Valid() && register != null
      modifies this`next
      ensures Valid() && next != null && (next == old(next) || (old(next) == null && fresh(next)))
    {
      if next == null {
        next := new byte[len](_ => 0);
      }
    }

    // One pass of the loop of decrypt(): keep the ciphertext, decipher, xor with the register,
    // and let the kept ciphertext become the register.
    method DecryptBlock(block: array<byte>, at: nat) returns (rc: int)
      requires Valid() && cipher != null && register != null && next != null && at + len <= block.Length
      requires block != register && block != next
      modifies this`register, this`next, block, next
      ensures Valid() && register == old(next) && next == old(register)
      ensures block[..at] == old(block[..at]) && block[at + len..] == old(block[at + len..])
      ensures register[..] == old(block[at..at + len])
      ensures Ready() && len % 8 == 0 ==> rc == len
      ensures Ready() && len % 8 == 0 ==>
        block[at..at + len] == Xor(Cipher(Decrypting, cipher.order, cipher.View())(old(block[at..at + len])), old(register[..]))
      ensures !Ready() || len % 8 != 0 ==> rc == -1 && block[at..at + len] == old(block[at..at + len])
    {
      hide Buffer, Cipher, Xor;
      ghost var ciphertext, key := block[at..at + len], register[..];
      KeepCiphertext(block, at);
      rc := DecipherPart(block, at);
      if rc != -1 {
        XorRegister(block, at, block[at..at + len], key);
      }
      register, next := next, register;
    }

    method KeepCiphertext(block: array<byte>, at: nat)
      requires Valid() && next != null && next != block && at + len <= block.Length
      modifies next
      ensures Valid() && next[..] == block[at..at + len]
    {
      forall i | 0 <= i < len { next[i] := block[at + i]; }
    }

    method DecipherPart(block: array<byte>, at: nat) returns (rc: int)
      requires Valid() && cipher != null && register != null && at + len <= block.Length && block != register && block != next
      modifies block
      ensures block[..at] == old(block[..at]) && block[at + len..] == old(block[at + len..])
      ensures Ready() && len % 8 == 0 ==>
        rc == len && block[at..at + len] == Cipher(Decrypting, cipher.order, cipher.View())(old(block[at..at + len]))
      ensures !Ready() || len % 8 != 0 ==> rc == -1 && block[at..at + len] == old(block[at..at + len])
    {
      hide Buffer;
      ghost var t, was := cipher.View(), block[..];
      assert cipher.m_P as object != block && cipher.m_S as object != block;

      rc := cipher.Crypt(Decrypting, block, at, len);

      if Ready() && len % 8 == 0 {
        ThreeParts(block[..], was[..at], Buffer(Decrypting, cipher.order, t, was[at..at + len]), was[at + len..]);
      }
    }

    // The in-place xor that ends decryption.
    method XorRegister(block: array<byte>, at: nat, ghost deciphered: seq<byte>, ghost key: seq<byte>)
      requires Valid() && register != null && register != block && at + len <= block.Length
      requires block[at..at + len] == deciphered && register[..] == key
      modifies block
      ensures |key| == |deciphered| && block[at..at + len] == Xor(deciphered, key)
      ensures block[..at] == old(block[..at]) && block[at + len..] == old(block[at + len..])
    {
      forall i | 0 <= i < len { block[at + i] := block[at + i] ^ register[i]; }
    }

    // The count returned is the number of bytes deciphered.
    method Decrypt(block: array<byte>) returns (rc: int)
      requires Valid() && block != register && block != next
      requires useECBforReading && register != null ==> len <= block.Length
      modifies this`register, this`next, this`len, this`reader, this`received, block, register, next
      ensures Valid() && block != register && block != next
      ensures cipher == null || writer ==> rc == -1 && block[..] == old(block[..]) && reader == old(reader)
      ensures cipher != null && !writer ==> reader
      ensures !useECBforReading && cipher != null && !writer && block.Length % 8 != 0 ==> rc == -1 && block[..] == old(block[..])
      ensures !useECBforReading && Ready() && !writer && block.Length % 8 == 0 ==>
        KeepsLength(Cipher(Decrypting, cipher.order, cipher.View()), 8) && rc == block.Length &&
        block[..] == Chaining.Decrypt(Cipher(Decrypting, cipher.order, cipher.View()), 8, Zeros(8), old(block[..]))
      ensures !useECBforReading && cipher != null && !Ready() && !writer && block.Length % 8 == 0 ==>
        rc == 0 && block[..] == old(block[..])
      // the first call of an instance that reads wallets of former releases
      ensures useECBforReading && cipher != null && !writer && old(register) == null && block.Length % 8 == 0 ==>
        if Ready() then rc == block.Length && block[..] == Buffer(Decrypting, cipher.order, cipher.View(), old(block[..]))
        else rc == -1 && block[..] == old(block[..])
    {
      hide Buffer;
      if useECBforReading {
        ghost var whole, first := block[..], register == null;
        if first { received := []; }
        rc := DecryptECB(block);
        if first && cipher != null && !writer && block.Length % 8 == 0 && Ready() {
          if block.Length > 0 {
            CipherInverse(Decrypting, cipher.order, cipher.View(), block.Length);
            RegisterOneMore(Cipher(Decrypting, cipher.order, cipher.View()), block.Length, [], whole);
            assert [] + whole == whole;
            XorWithZeros(Buffer(Decrypting, cipher.order, cipher.View(), whole));
          } else {
            assert block[..] == [] && whole == [];
          }
        }
        return;
      }
      if cipher == null || writer {
        return -1;
      }
      reader := true;
      InitRegister();
      if block.Length % len > 0 {
        return -1;
      }
      rc := DecryptBlocks(block);
    }

    method DecryptBlocks(block: array<byte>) returns (rc: int)
      requires Valid() && cipher != null && register != null && len == 8 && block.Length % 8 == 0
      requires block != register && block != next && register[..] == Zeros(8)
      modifies this`register, this`next, block, register, next
      ensures Valid() && block != register && block != next
      ensures Ready() ==>
        KeepsLength(Cipher(Decrypting, cipher.order, cipher.View()), 8) && rc == block.Length &&
        block[..] == Chaining.Decrypt(Cipher(Decrypting, cipher.order, cipher.View()), 8, Zeros(8), old(block[..]))
      ensures !Ready() ==> rc == 0 && block[..] == old(block[..])
    {
      hide Buffer, Cipher, Chaining.Decrypt;
      ghost var d := Cipher(Decrypting, cipher.order, cipher.View());
      CipherInverse(Decrypting, cipher.order, cipher.View(), 8);
      ChainStart(d, 8, Zeros(8));
      rc := DecryptEach(block, d);
    }

    // The loop over the blocks.
    method DecryptEach(block: array<byte>, ghost d: Perm) returns (rc: int)
      requires Valid() && cipher != null && register != null && len == 8 && block.Length % 8 == 0
      requires block != register && block != next && register[..] == Zeros(8)
      requires d == Cipher(Decrypting, cipher.order, cipher.View()) && KeepsLength(d, 8)
      requires Unchained(Ready(), d, []) == []
      modifies this`register, this`next, block, register, next
      ensures Valid() && block != register && block != next
      ensures block[..] == Unchained(Ready(), d, old(block[..]))
      ensures rc == if Ready() then block.Length else 0
    {
      hide Buffer, Cipher, Chaining.Decrypt, DecryptedUpTo;
      rc := 0;
      ghost var received := block[..];
      DecryptedStart(Ready(), d, received);
      var b := 0;
      while b < block.Length / len
        invariant 0 <= b <= block.Length / 8
        invariant Valid() && register != null && len == 8 && block != register && block != next
        invariant register == old(register) || register == old(next) || fresh(register)
        invariant next == old(register) || next == old(next) || next == null || fresh(next)
        invariant DecryptedUpTo(Ready(), d, received, 8 * b, block[..], register[..])
        invariant rc == if Ready() then 8 * b else 0
      {
        var n := DecryptOne(block, 8 * b, d, received);
        if n != -1 {
          rc := rc + n;
        }
        b := b + 1;
      }
      DecryptedEnd(Ready(), d, received, block[..], register[..]);
    }

    method DecryptOne(block: array<byte>, at: nat, ghost d: Perm, ghost received: seq<byte>) returns (rc: int)
      requires Valid() && cipher != null && register != null && len == 8 && at + 8 <= block.Length == |received|
      requires block != register && block != next
      requires d == Cipher(Decrypting, cipher.order, cipher.View()) && KeepsLength(d, 8)
      requires DecryptedUpTo(Ready(), d, received, at, block[..], register[..])
      modifies this`register, this`next, block, next
      ensures Valid() && register != null && block != register && block != next
      ensures next == old(register) && (register == old(next) || fresh(register))
      ensures DecryptedUpTo(Ready(), d, received, at + 8, block[..], register[..])
      ensures rc == if Ready() then 8 else -1
    {
      hide Buffer, Cipher, Chaining.Decrypt, DecryptedUpTo;
      ghost var s, key := block[..], register[..];
      InitNext();
      rc := DecryptBlock(block, at);
      DecryptedNext(Ready(), d, received, at, s, key, block[..], register[..]);
    }

    // After whole-buffer calls, the register holds the last buffer received.
    ghost predicate InStep()
      requires Valid()
      reads this, register
    {
      if register == null then received == [] else HoldsLast()
    }

    ghost predicate HoldsLast()
      requires Valid() && register != null
      reads this, register
    {
      len > 0 && |received| % len == 0 && register[..] == LastBlock(len, Zeros(len), received)
    }

    // A whole buffer counts as one block, whose size the first call fixes.
    method DecryptECB(block: array<byte>) returns (rc: int)
      requires Valid() && block != register && block != next && useECBforReading
      requires register != null ==> len <= block.Length
      modifies this`register, this`next, this`len, this`reader, this`received, block, register, next
      ensures Valid() && block != register && block != next
      ensures register == old(register) || register == old(next) || (register != null && fresh(register))
      ensures next == old(register) || next == old(next) || next == null || fresh(next)
      ensures cipher == null || writer ==> rc == -1 && block[..] == old(block[..]) && reader == old(reader)
      ensures cipher != null && !writer ==> reader
      ensures cipher != null && !writer && old(register) != null && block.Length > old(len) ==>
        rc == -1 && block[..] == old(block[..]) && received == old(received)
      ensures cipher != null && !writer && (old(register) == null || block.Length == old(len)) ==>
        && len == block.Length && received == old(received) + old(block[..])
        && (block.Length > 0 && old(InStep()) ==> InStep())
      ensures cipher != null && !writer && (old(register) == null || block.Length == old(len)) && (!Ready() || block.Length % 8 != 0) ==>
        rc == -1 && block[..] == old(block[..])
      ensures Ready() && !writer && (old(register) == null || block.Length == old(len)) && block.Length % 8 == 0 ==>
        rc == block.Length
      ensures Ready() && !writer && old(InStep()) && len == block.Length > 0 && block.Length % 8 == 0 &&
              (old(register) == null || block.Length == old(len)) ==>
        && KeepsLength(Cipher(Decrypting, cipher.order, cipher.View()), len) && |received| % len == 0
        && block[..] == LastBlock(len, Zeros(len),
                          Chaining.Decrypt(Cipher(Decrypting, cipher.order, cipher.View()), len, Zeros(len), received))
    {
      hide Buffer, Cipher, Chaining.Decrypt, LastBlock;
      rc := -1;
      if cipher != null && !writer {
        reader := true;
        SizeRegister(block.Length);
        if block.Length <= len {
          InitNext();
          rc := DecryptWhole(block);
        }
      }
    }

    // On the first call, a register of the size of the buffer, all zeros.
    method SizeRegister(n: nat)
      requires Valid() && reader && useECBforReading
      modifies this`register, this`len
      ensures Valid() && register != null
      ensures old(register) != null ==> register == old(register) && len == old(len)
      ensures old(register) == null ==> fresh(register) && len == n
      ensures n > 0 && old(InStep()) ==> HoldsLast()
    {
      if register == null {
        register := new byte[n](_ => 0);
        len := n;
        assert register[..] == Zeros(len);
      }
    }

    // The rest of decryptECB(), with both registers in place.
    method DecryptWhole(block: array<byte>) returns (rc: int)
      requires Valid() && cipher != null && reader && register != null && next != null
      requires block != register && block != next && len == block.Length
      modifies this`register, this`next, this`received, block, next
      ensures Valid() && block != register && block != next
      ensures register == old(next) && next == old(register)
      ensures register != null && received == old(received) + old(block[..])
      ensures !Ready() || len % 8 != 0 ==> rc == -1 && block[..] == old(block[..])
      ensures old(HoldsLast()) ==> HoldsLast()
      ensures Ready() && len % 8 == 0 ==> rc == len
      ensures Ready() && len % 8 == 0 && old(HoldsLast()) ==>
        && KeepsLength(Cipher(Decrypting, cipher.order, cipher.View()), len)
        && block[..] == LastBlock(len, Zeros(len),
                          Chaining.Decrypt(Cipher(Decrypting, cipher.order, cipher.View()), len, Zeros(len), received))
    {
      hide Buffer, Cipher, Chaining.Decrypt, LastBlock, KeepsLength;
      ghost var d, earlier, buffer, key := Cipher(Decrypting, cipher.order, cipher.View()), received, block[..], register[..];
      assert block[0..0 + len] == buffer;
      rc := DecryptBlock(block, 0);
      assert block[0..0 + len] == block[..];
      received := received + buffer;
      if old(HoldsLast()) {
        LastOf(len, earlier, buffer);
        Longer(|earlier|, len);
        if len % 8 == 0 {
          CipherInverse(Decrypting, cipher.order, cipher.View(), len);
          RegisterOneMore(d, len, earlier, buffer);
        }
      }
    }
  }

  // The class of former releases, whose encrypt() takes a whole buffer as one block.
  class LegacyCipherBlockChain {
    const cipher: BlowFish?
    var register: array?<byte>
    var len: int
    var reader: bool
    var writer: bool
    // everything encrypt() has been given, call after call
    ghost var sent: seq<byte>

    ghost predicate Valid()
      reads this
    {
      (cipher != null ==> cipher.Valid()) && (register != null ==> register.Length == len)
    }

    predicate Ready()
      reads this, cipher
    {
      cipher != null && cipher.m_initialized
    }

    constructor (cipher: BlowFish?)
      requires cipher != null ==> cipher.Valid()
      ensures Valid() && !reader && !writer && register == null && sent == [] && this.cipher == cipher
    {
      this.cipher := cipher;
      register, len := null, -1;
      reader, writer := false, false;
      sent := [];
    }

    // The register holds the last buffer of the chain over everything sent.
    ghost predicate InStep()
      requires Valid()
      reads this, register, cipher, if cipher == null then {} else {cipher.m_P, cipher.m_S}
    {
      if register == null then sent == [] else HoldsLast()
    }

    ghost predicate HoldsLast()
      requires Valid() && register != null
      reads this, register, cipher, if cipher == null then {} else {cipher.m_P, cipher.m_S}
    {
        && cipher != null && len > 0 && len % 8 == 0 && |sent| % len == 0
        && KeepsLength(Cipher(Encrypting, cipher.order, cipher.View()), len)
        && register[..] == LastBlock(len, Zeros(len),
             Chaining.Encrypt(Cipher(Encrypting, cipher.order, cipher.View()), len, Zeros(len), sent))
    }

    method Encrypt(block: array<byte>) returns (rc: int)
      requires Valid() && block != register
      modifies this`register, this`len, this`writer, this`sent, block, register
      ensures Valid() && block != register
      ensures register == old(register) || (register != null && fresh(register))
      ensures cipher == null || reader ==> rc == -1 && block[..] == old(block[..])
      ensures cipher != null && !reader ==> writer
      ensures cipher != null && !reader && old(register) != null && block.Length > old(len) ==> rc == -1 && block[..] == old(block[..])
      ensures Ready() && !reader && old(InStep()) && block.Length > 0 && block.Length % 8 == 0 &&
              (old(register) == null || block.Length == old(len)) ==>
        && rc == block.Length == len && sent == old(sent) + old(block[..]) && InStep()
        && block[..] == register[..]
    {
      hide Buffer, Chaining.Encrypt;
      rc := -1;
      if cipher != null && !reader {
        writer := true;
        SizeRegister(block.Length);
        if block.Length <= len {
          rc := EncryptWhole(block);
        }
      }
    }

    // On the first call, a register of the size of the buffer, all zeros.
    method SizeRegister(n: nat)
      requires Valid() && cipher != null
      modifies this`register, this`len
      ensures Valid() && register != null
      ensures old(register) != null ==> register == old(register) && len == old(len)
      ensures old(register) == null ==> fresh(register) && len == n
      ensures n > 0 && n % 8 == 0 && old(InStep()) ==> HoldsLast()
    {
      hide Buffer, Chaining.Encrypt, Cipher, LastBlock, KeepsLength;
      if register == null {
        register := new byte[n](_ => 0);
        len := n;
        assert register[..] == Zeros(len);
        if len > 0 && len % 8 == 0 {
          ghost var e := Cipher(Encrypting, cipher.order, cipher.View());
          CipherInverse(Encrypting, cipher.order, cipher.View(), len);
          ChainStart(e, len, Zeros(len));
          NothingBefore(len);
          assert old(InStep()) ==> sent == [];
        }
      }
    }

    // The rest of encrypt(), with the register in place.
    method EncryptWhole(block: array<byte>) returns (rc: int)
      requires Valid() && cipher != null && register != null && block != register && block.Length <= len
      modifies this`sent, block, register
      ensures Ready() && block.Length % 8 == 0 ==> rc == block.Length
      ensures Ready() && old(HoldsLast()) && block.Length == len ==>
        sent == old(sent) + old(block[..]) && HoldsLast() && block[..] == register[..]
    {
      hide Buffer, Chaining.Encrypt, LastBlock, Cipher;
      ghost var earlier, buffer, t, key := sent, block[..], cipher.View(), register[..];
      assert cipher.m_P as object != block && cipher.m_S as object != block;
      assert cipher.m_P as object != register && cipher.m_S as object != register;
      rc := EncipherMixed(block);
      ghost var out := block[..];
      if rc != -1 {
        forall i | 0 <= i < block.Length { register[i] := block[i]; }
      }
      sent := sent + buffer;
      if Ready() && old(HoldsLast()) && block.Length == len {
        assert register[..] == out && block[..] == out && cipher.View() == t && key[..len] == key;
        RegisterOneMore(Cipher(Encrypting, cipher.order, t), len, earlier, buffer);
      }
    }

    method EncipherMixed(block: array<byte>) returns (rc: int)
      requires Valid() && cipher != null && register != null && block != register && block.Length <= len
      modifies block
      ensures Ready() && block.Length % 8 == 0 ==>
        && rc == block.Length
        && block[..] == Cipher(Encrypting, cipher.order, cipher.View())(Xor(old(block[..]), register[..block.Length]))
      ensures !Ready() || block.Length % 8 != 0 ==> rc == -1
    {
      hide Buffer, Xor;
      assert cipher.m_P as object != block && cipher.m_S as object != block;
      MixRegister(block);
      ghost var mixed := block[..];
      rc := cipher.Crypt(Encrypting, block, 0, block.Length);
      Whole(mixed);
      if Ready() && block.Length % 8 == 0 {
        Whole(Buffer(Encrypting, cipher.order, cipher.View(), mixed));
      }
    }

    method MixRegister(block: array<byte>)
      requires Valid() && register != null && block != register && block.Length <= len
      modifies block
      ensures block[..] == Xor(old(block[..]), register[..block.Length])
    {
      forall i | 0 <= i < block.Length { block[i] := block[i] ^ register[i]; }
    }
  }

  lemma Whole(s: seq<byte>)
    ensures s[0..0 + |s|] == s && s[..0] + s + s[0 + |s|..] == s && [] + s + [] == s
  {
  }

  lemma LastOf(n: nat, s: seq<byte>, b: seq<byte>)
    requires |b| == n > 0
    ensures LastBlock(n, Zeros(n), s + b) == b
  {
  }

  lemma NothingBefore(n: nat)
    requires n > 0
    ensures LastBlock(n, Zeros(n), []) == Zeros(n)
  {
  }

  // The first call, and so a wallet written in one call, is plain block-by-block encryption.
  lemma FirstLegacyCall(order: ByteOrder, t: Tables, plain: seq<byte>)
    requires t.Valid() && |plain| > 0 && |plain| % 8 == 0
    ensures KeepsLength(Cipher(Encrypting, order, t), |plain|) && |plain| % |plain| == 0
    ensures Chaining.Encrypt(Cipher(Encrypting, order, t), |plain|, Zeros(|plain|), plain) == Buffer(Encrypting, order, t, plain)
  {
    hide Buffer;
    var n := |plain|;
    var e := Cipher(Encrypting, order, t);
    CipherInverse(Encrypting, order, t, n);
    ChainStart(e, n, Zeros(n));
    ChainOneMore(e, n, Zeros(n), [], plain);
    XorWithZeros(plain);
    assert [] + plain == plain && [] + e(plain) == e(plain);
  }

  // The current class: what it encrypts, a fresh instance with the same key decrypts, and the reverse.
  lemma CurrentRoundTrip(order: ByteOrder, t: Tables, s: seq<byte>)
    requires t.Valid() && |s| % 8 == 0
    ensures KeepsLength(Cipher(Encrypting, order, t), 8) && KeepsLength(Cipher(Decrypting, order, t), 8)
    ensures
      var e, d := Cipher(Encrypting, order, t), Cipher(Decrypting, order, t);
      && Chaining.Decrypt(d, 8, Zeros(8), Chaining.Encrypt(e, 8, Zeros(8), s)) == s
      && Chaining.Encrypt(e, 8, Zeros(8), Chaining.Decrypt(d, 8, Zeros(8), s)) == s
  {
    hide Cipher, Buffer;
    var e, d := Cipher(Encrypting, order, t), Cipher(Decrypting, order, t);
    CipherInverse(Encrypting, order, t, 8);
    CipherInverse(Decrypting, order, t, 8);
    DecryptEncrypt(e, d, 8, Zeros(8), s);
    EncryptDecrypt(e, d, 8, Zeros(8), s);
  }

  lemma XorWithZeros(p: seq<byte>)
    ensures Xor(p, Zeros(|p|)) == p
  {
    forall i | 0 <= i < |p| ensures Xor(p, Zeros(|p|))[i] == p[i] {
      assert p[i] ^ 0 == p[i];
    }
  }
}
