/** What former releases have encrypted with the legacy class, the current one gets back. */
module LegacyBuffers {
  import opened Bytes
  import opened Blowfish
  import opened Chaining
  import opened Cbc

  // The first i buffers, one behind the other.
  function Joined(bs: seq<seq<byte>>, i: nat): seq<byte>
    requires i <= |bs|
  {
    if i == 0 then [] else Joined(bs, i - 1) + bs[i - 1]
  }

  predicate Sized(bs: seq<seq<byte>>, n: nat)
  {
    forall k :: 0 <= k < |bs| ==> |bs[k]| == n
  }

  lemma SizedAt(bs: seq<seq<byte>>, n: nat, i: nat)
    requires Sized(bs, n) && i < |bs|
    ensures |bs[i]| == n
  {
  }

  // What a call of the legacy class returns continues what the calls before have returned, and a
  // decryptECB() instance that is given it next returns the buffer of that call.
  lemma LegacyStep(e: Perm, d: Perm, n: nat, s: seq<byte>, b: seq<byte>)
    requires |b| == n > 0 && |s| % n == 0 && KeepsLength(e, n) && KeepsLength(d, n) && Undoes(d, e, n)
    ensures |s + b| % n == 0
    ensures
      var before, all := Chaining.Encrypt(e, n, Zeros(n), s), Chaining.Encrypt(e, n, Zeros(n), s + b);
      var c := LastBlock(n, Zeros(n), all);
      && |c| == n && before + c == all
      && LastBlock(n, Zeros(n), Chaining.Decrypt(d, n, Zeros(n), all)) == b
  {
    hide Chaining.Decrypt;
    ChainOneMore(e, n, Zeros(n), s, b);
    DecryptEncrypt(e, d, n, Zeros(n), s + b);
    LastOf(n, s, b);
  }

  // The buffers a legacy instance has returned for the first ones of plain, call by call.
  ghost predicate Returned(e: Perm, n: nat, plain: seq<seq<byte>>, cs: seq<seq<byte>>)
    requires n > 0 && KeepsLength(e, n)
  {
    |cs| <= |plain| && forall i :: 0 <= i < |cs| ==> ReturnedAt(e, n, plain, cs[i], i)
  }

  ghost predicate ReturnedAt(e: Perm, n: nat, plain: seq<seq<byte>>, c: seq<byte>, i: nat)
    requires n > 0 && KeepsLength(e, n) && i < |plain|
  {
    && |Joined(plain, i + 1)| % n == 0
    && c == LastBlock(n, Zeros(n), Chaining.Encrypt(e, n, Zeros(n), Joined(plain, i + 1)))
  }

  lemma NothingReturned(e: Perm, n: nat, plain: seq<seq<byte>>)
    requires n > 0 && KeepsLength(e, n)
    ensures Returned(e, n, plain, [])
  {
  }

  lemma ReturnedOneMore(e: Perm, n: nat, plain: seq<seq<byte>>, cs: seq<seq<byte>>, c: seq<byte>)
    requires n > 0 && KeepsLength(e, n) && Returned(e, n, plain, cs) && |cs| < |plain| && ReturnedAt(e, n, plain, c, |cs|)
    ensures Returned(e, n, plain, cs + [c])
  {
    hide ReturnedAt, KeepsLength;
  }

  // They join to the chain over everything sent.
  lemma {:induction false} ReturnedJoin(e: Perm, d: Perm, n: nat, plain: seq<seq<byte>>, cs: seq<seq<byte>>, i: nat)
    requires n > 0 && KeepsLength(e, n) && KeepsLength(d, n) && Undoes(d, e, n) && Returned(e, n, plain, cs)
    requires i <= |cs| <= |plain|
    requires Sized(plain, n)
    ensures |Joined(plain, i)| % n == 0 && Joined(cs, i) == Chaining.Encrypt(e, n, Zeros(n), Joined(plain, i))
  {
    hide LastBlock, Chaining.Encrypt, KeepsLength, Undoes, Returned, ReturnedAt, Sized;
    if i == 0 {
      ChainStart(e, n, Zeros(n));
    } else {
      hide Joined;
      ReturnedEach(e, n, plain, cs, i - 1);
      SizedAt(plain, n, i - 1);
      ReturnedJoin(e, d, n, plain, cs, i - 1);
      JoinStep(e, d, n, plain, cs, i - 1);
    }
  }

  lemma ReturnedEach(e: Perm, n: nat, plain: seq<seq<byte>>, cs: seq<seq<byte>>, i: nat)
    requires n > 0 && KeepsLength(e, n) && Returned(e, n, plain, cs) && i < |cs|
    ensures i < |plain| && ReturnedAt(e, n, plain, cs[i], i)
  {
    hide ReturnedAt, KeepsLength;
  }

  lemma JoinStep(e: Perm, d: Perm, n: nat, plain: seq<seq<byte>>, cs: seq<seq<byte>>, i: nat)
    requires n > 0 && KeepsLength(e, n) && KeepsLength(d, n) && Undoes(d, e, n)
    requires i < |cs| && i < |plain| && |plain[i]| == n && ReturnedAt(e, n, plain, cs[i], i)
    requires |Joined(plain, i)| % n == 0 && Joined(cs, i) == Chaining.Encrypt(e, n, Zeros(n), Joined(plain, i))
    ensures |Joined(plain, i + 1)| % n == 0
    ensures Joined(cs, i + 1) == Chaining.Encrypt(e, n, Zeros(n), Joined(plain, i + 1))
  {
    hide LastBlock, Chaining.Encrypt, Chaining.Decrypt, KeepsLength, Undoes;
    LegacyStep(e, d, n, Joined(plain, i), plain[i]);
  }

  // Buffer i comes back when the first i have been received.
  lemma RecoverOne(e: Perm, d: Perm, n: nat, plain: seq<seq<byte>>, cs: seq<seq<byte>>, i: nat)
    requires n > 0 && KeepsLength(e, n) && KeepsLength(d, n) && Undoes(d, e, n) && Returned(e, n, plain, cs) && i < |cs|
    requires Sized(plain, n)
    ensures |cs[i]| == n && |Joined(cs, i + 1)| % n == 0 && Joined(cs, i + 1) == Joined(cs, i) + cs[i]
    ensures LastBlock(n, Zeros(n), Chaining.Decrypt(d, n, Zeros(n), Joined(cs, i + 1))) == plain[i]
  {
    ReturnedEach(e, n, plain, cs, i);
    SizedAt(plain, n, i);
    hide LastBlock, Chaining.Encrypt, Chaining.Decrypt, KeepsLength, Undoes, Returned, Sized;
    ReturnedJoin(e, d, n, plain, cs, i);
    ReturnedJoin(e, d, n, plain, cs, i + 1);
    LegacyStep(e, d, n, Joined(plain, i), plain[i]);
  }

  // Any number of buffers of one size go through a legacy instance, and what it returns through a fresh
  // instance of the current class that reads such data: every buffer comes back.
  method LegacyRecovered(cipher: BlowFish, n: nat, buffers: seq<seq<byte>>) returns (recovered: seq<seq<byte>>)
    requires cipher.Valid() && cipher.m_initialized && n > 0 && n % 8 == 0
    requires Sized(buffers, n)
    ensures recovered == buffers
  {
    ghost var e, d := Cipher(Encrypting, cipher.order, cipher.View()), Cipher(Decrypting, cipher.order, cipher.View());
    CipherInverse(Encrypting, cipher.order, cipher.View(), n);
    CipherInverse(Decrypting, cipher.order, cipher.View(), n);
    NothingReturned(e, n, buffers);
    hide Cipher, Returned, KeepsLength, Undoes;
    var writer := new LegacyCipherBlockChain(cipher);
    var enciphered := EncryptRest(writer, n, e, buffers, []);
    var reader := new CipherBlockChain(cipher, true);
    recovered := DecryptRest(reader, n, e, d, buffers, enciphered, []);
  }

  method EncryptRest(writer: LegacyCipherBlockChain, n: nat, ghost e: Perm, buffers: seq<seq<byte>>, cs: seq<seq<byte>>)
    returns (all: seq<seq<byte>>)
    requires writer.Valid() && writer.Ready() && !writer.reader && writer.InStep() && n > 0 && n % 8 == 0
    requires Sized(buffers, n) && (writer.register != null ==> writer.len == n)
    requires e == Cipher(Encrypting, writer.cipher.order, writer.cipher.View()) && KeepsLength(e, n)
    requires Returned(e, n, buffers, cs) && writer.sent == Joined(buffers, |cs|)
    modifies writer, writer.register
    decreases |buffers| - |cs|
    ensures |all| == |buffers| && Returned(e, n, buffers, all) && writer.cipher.View() == old(writer.cipher.View())
  {
    if |cs| == |buffers| {
      return cs;
    }
    hide Cipher, KeepsLength, ReturnedAt, Returned, LegacyCipherBlockChain.InStep, Joined, Sized;
    SizedAt(buffers, n, |cs|);
    var c := EncryptNext(writer, n, e, buffers, |cs|);
    ReturnedOneMore(e, n, buffers, cs, c);
    all := EncryptRest(writer, n, e, buffers, cs + [c]);
  }

  method EncryptNext(writer: LegacyCipherBlockChain, n: nat, ghost e: Perm, buffers: seq<seq<byte>>, i: nat)
    returns (c: seq<byte>)
    requires writer.Valid() && writer.Ready() && !writer.reader && writer.InStep() && n > 0 && n % 8 == 0
    requires i < |buffers| && |buffers[i]| == n && (writer.register != null ==> writer.len == n)
    requires e == Cipher(Encrypting, writer.cipher.order, writer.cipher.View()) && KeepsLength(e, n)
    requires writer.sent == Joined(buffers, i)
    modifies writer, writer.register
    ensures writer.Valid() && writer.Ready() && !writer.reader && writer.InStep()
    ensures writer.register != null && writer.len == n && (writer.register == old(writer.register) || fresh(writer.register))
    ensures writer.cipher.View() == old(writer.cipher.View())
    ensures writer.sent == Joined(buffers, i + 1) && ReturnedAt(e, n, buffers, c, i)
  {
    hide Cipher, Chaining.Encrypt, LastBlock, KeepsLength;
    var block := new byte[n](k requires 0 <= k < n => buffers[i][k]);
    assert block[..] == buffers[i];
    var rc := writer.Encrypt(block);
    c := block[..];
  }

  lemma PrefixOneMore(plain: seq<seq<byte>>, done: seq<seq<byte>>, p: seq<byte>)
    requires |done| < |plain| && done == plain[..|done|] && p == plain[|done|]
    ensures done + [p] == plain[..|done| + 1]
  {
  }

  method DecryptRest(reader: CipherBlockChain, n: nat, ghost e: Perm, ghost d: Perm, ghost plain: seq<seq<byte>>,
                     cs: seq<seq<byte>>, done: seq<seq<byte>>)
    returns (all: seq<seq<byte>>)
    requires reader.Valid() && reader.Ready() && !reader.writer && reader.useECBforReading && reader.InStep()
    requires n > 0 && n % 8 == 0 && (reader.register != null ==> reader.len == n)
    requires Sized(plain, n)
    requires d == Cipher(Decrypting, reader.cipher.order, reader.cipher.View())
    requires KeepsLength(e, n) && KeepsLength(d, n) && Undoes(d, e, n) && Returned(e, n, plain, cs) && |cs| == |plain|
    requires |done| <= |cs| && reader.received == Joined(cs, |done|) && done == plain[..|done|]
    modifies reader, reader.register, reader.next
    decreases |cs| - |done|
    ensures all == plain
  {
    if |done| == |cs| {
      return done;
    }
    hide Cipher, KeepsLength, Undoes, Returned, CipherBlockChain.InStep, Joined, Sized;
    var p := DecryptNext(reader, n, e, d, plain, cs, |done|);
    PrefixOneMore(plain, done, p);
    all := DecryptRest(reader, n, e, d, plain, cs, done + [p]);
  }

  method DecryptNext(reader: CipherBlockChain, n: nat, ghost e: Perm, ghost d: Perm, ghost plain: seq<seq<byte>>,
                     cs: seq<seq<byte>>, i: nat)
    returns (p: seq<byte>)
    requires reader.Valid() && reader.Ready() && !reader.writer && reader.useECBforReading && reader.InStep()
    requires n > 0 && n % 8 == 0 && i < |cs| && (reader.register != null ==> reader.len == n)
    requires Sized(plain, n)
    requires d == Cipher(Decrypting, reader.cipher.order, reader.cipher.View())
    requires KeepsLength(e, n) && KeepsLength(d, n) && Undoes(d, e, n) && Returned(e, n, plain, cs)
    requires reader.received == Joined(cs, i)
    modifies reader, reader.register, reader.next
    ensures reader.Valid() && reader.Ready() && !reader.writer && reader.InStep()
    ensures reader.register != null && reader.len == n
    ensures reader.register == old(reader.register) || reader.register == old(reader.next) || fresh(reader.register)
    ensures reader.next == null || reader.next == old(reader.register) || reader.next == old(reader.next) || fresh(reader.next)
    ensures reader.cipher.View() == old(reader.cipher.View())
    ensures reader.received == Joined(cs, i + 1) && p == plain[i]
  {
    hide Cipher, Chaining.Encrypt, Chaining.Decrypt, LastBlock, Returned, KeepsLength, Undoes, Joined;
    RecoverOne(e, d, n, plain, cs, i);
    p := DecryptOne(reader, cs[i], d);
  }

  method DecryptOne(reader: CipherBlockChain, c: seq<byte>, ghost d: Perm) returns (p: seq<byte>)
    requires reader.Valid() && reader.Ready() && !reader.writer && reader.useECBforReading && reader.InStep()
    requires |c| > 0 && |c| % 8 == 0 && (reader.register != null ==> reader.len == |c|)
    requires d == Cipher(Decrypting, reader.cipher.order, reader.cipher.View()) && KeepsLength(d, |c|)
    modifies reader, reader.register, reader.next
    ensures reader.Valid() && reader.Ready() && !reader.writer && reader.InStep()
    ensures reader.register != null && reader.len == |c|
    ensures reader.register == old(reader.register) || reader.register == old(reader.next) || fresh(reader.register)
    ensures reader.next == null || reader.next == old(reader.register) || reader.next == old(reader.next) || fresh(reader.next)
    ensures reader.cipher.View() == old(reader.cipher.View())
    ensures reader.received == old(reader.received) + c && |reader.received| % |c| == 0
    ensures p == LastBlock(|c|, Zeros(|c|), Chaining.Decrypt(d, |c|, Zeros(|c|), reader.received))
  {
    hide Cipher, Chaining.Decrypt, LastBlock, KeepsLength;
    var block := new byte[|c|](k requires 0 <= k < |c| => c[k]);
    assert block[..] == c;
    var rc := reader.DecryptECB(block);
    p := block[..];
  }
}
