/** Cipher block chaining (section 6.2 of NIST SP 800-38A) over any permutation of blocks. */
module Chaining {
  import opened Bytes
  import opened Remainders

  type Perm = seq<byte> -> seq<byte>

  ghost predicate KeepsLength(e: Perm, n: nat)
  {
    forall b {:trigger e(b)} :: |b| == n ==> |e(b)| == n
  }

  // d takes back what e does to blocks of n bytes.
  ghost predicate Undoes(d: Perm, e: Perm, n: nat)
  {
    forall b {:trigger e(b)} :: |b| == n ==> d(e(b)) == b
  }

  // The last block of n bytes of s, or the initialisation vector when there is none.
  function LastBlock(n: nat, iv: seq<byte>, s: seq<byte>): (b: seq<byte>)
    requires |iv| == n
    ensures |b| == n
  {
    if |s| < n then iv else s[|s| - n..]
  }

  // Each plaintext block is xored with the ciphertext block before it and then enciphered.
  ghost function Encrypt(e: Perm, n: nat, iv: seq<byte>, s: seq<byte>): (c: seq<byte>)
    requires n > 0 && |iv| == n && |s| % n == 0 && KeepsLength(e, n)
    ensures |c| == |s|
  {
    if |s| < n then [] + s
    else
      var k := |s| - n;
      Shorter(|s|, n);
      var c := Encrypt(e, n, iv, s[..k]);
      c + e(Xor(s[k..], LastBlock(n, iv, c)))
  }

  // Each ciphertext block is deciphered and xored with the ciphertext block before it.
  ghost function Decrypt(d: Perm, n: nat, iv: seq<byte>, c: seq<byte>): (s: seq<byte>)
    requires n > 0 && |iv| == n && |c| % n == 0 && KeepsLength(d, n)
    ensures |s| == |c|
  {
    if |c| < n then [] + c
    else
      var k := |c| - n;
      Shorter(|c|, n);
      Decrypt(d, n, iv, c[..k]) + Xor(d(c[k..]), LastBlock(n, iv, c[..k]))
  }

  lemma ChainStart(e: Perm, n: nat, iv: seq<byte>)
    requires n > 0 && |iv| == n && KeepsLength(e, n)
    ensures Encrypt(e, n, iv, []) == [] && Decrypt(e, n, iv, []) == []
  {
  }

  lemma ChainOneMore(e: Perm, n: nat, iv: seq<byte>, s: seq<byte>, b: seq<byte>)
    requires n > 0 && |iv| == n && |s| % n == 0 && |b| == n && KeepsLength(e, n)
    ensures (|s| + n) % n == 0
    ensures
      var c := Encrypt(e, n, iv, s);
      Encrypt(e, n, iv, s + b) == c + e(Xor(b, LastBlock(n, iv, c)))
    ensures Decrypt(e, n, iv, s + b) == Decrypt(e, n, iv, s) + Xor(e(b), LastBlock(n, iv, s))
  {
    Longer(|s|, n);
    assert (s + b)[..|s|] == s && (s + b)[|s|..] == b;
  }

  // The register of either direction after one block more, and what that block becomes.
  lemma RegisterOneMore(e: Perm, n: nat, s: seq<byte>, b: seq<byte>)
    requires n > 0 && |s| % n == 0 && |b| == n && KeepsLength(e, n)
    ensures |s + b| % n == 0
    ensures LastBlock(n, Zeros(n), s + b) == b
    ensures
      var key := LastBlock(n, Zeros(n), Encrypt(e, n, Zeros(n), s));
      LastBlock(n, Zeros(n), Encrypt(e, n, Zeros(n), s + b)) == e(Xor(b, key))
    ensures LastBlock(n, Zeros(n), Decrypt(e, n, Zeros(n), s + b)) == Xor(e(b), LastBlock(n, Zeros(n), s))
  {
    hide Encrypt, Decrypt;
    Longer(|s|, n);
    ChainOneMore(e, n, Zeros(n), s, b);
  }

  lemma {:induction false} DecryptEncrypt(e: Perm, d: Perm, n: nat, iv: seq<byte>, s: seq<byte>)
    requires n > 0 && |iv| == n && |s| % n == 0
    requires KeepsLength(e, n) && KeepsLength(d, n) && Undoes(d, e, n)
    ensures Decrypt(d, n, iv, Encrypt(e, n, iv, s)) == s
  {
    hide LastBlock, Xor;
    if |s| < n {
      RemainderUnique(|s|, n, 0, |s|);
    } else {
      var k := |s| - n;
      Shorter(|s|, n);
      var c := Encrypt(e, n, iv, s[..k]);
      var chained := LastBlock(n, iv, c);
      var block := Xor(s[k..], chained);
      var all := Encrypt(e, n, iv, s);
      assert all[..k] == c && all[k..] == e(block);
      DecryptEncrypt(e, d, n, iv, s[..k]);
      XorTwice(s[k..], chained);
      assert s == s[..k] + s[k..];
    }
  }

  lemma {:induction false} EncryptDecrypt(e: Perm, d: Perm, n: nat, iv: seq<byte>, c: seq<byte>)
    requires n > 0 && |iv| == n && |c| % n == 0
    requires KeepsLength(e, n) && KeepsLength(d, n) && Undoes(e, d, n)
    ensures Encrypt(e, n, iv, Decrypt(d, n, iv, c)) == c
  {
    hide LastBlock, Xor;
    if |c| < n {
      RemainderUnique(|c|, n, 0, |c|);
    } else {
      var k := |c| - n;
      Shorter(|c|, n);
      var s := Decrypt(d, n, iv, c[..k]);
      var chained := LastBlock(n, iv, c[..k]);
      var all := Decrypt(d, n, iv, c);
      assert all[..k] == s && all[k..] == Xor(d(c[k..]), chained);
      EncryptDecrypt(e, d, n, iv, c[..k]);
      XorTwice(d(c[k..]), chained);
      assert c == c[..k] + c[k..];
    }
  }

  function BlockAt(n: nat, s: seq<byte>, at: nat): (b: seq<byte>)
    requires at + n <= |s|
    ensures |b| == n
  {
    s[at..at + n]
  }

  // The equations of the standard: every block of the result is the enciphered xor of that block of
  // the message with the block of the result before it, or with the initialisation vector.
  lemma {:induction false} EncryptBlocks(e: Perm, n: nat, iv: seq<byte>, s: seq<byte>, at: nat)
    requires n > 0 && |iv| == n && |s| % n == 0 && KeepsLength(e, n) && at % n == 0 && at + n <= |s|
    ensures
      var c := Encrypt(e, n, iv, s);
      BlockAt(n, c, at) == e(Xor(BlockAt(n, s, at), LastBlock(n, iv, c[..at])))
  {
    var k := |s| - n;
    Shorter(|s|, n);
    var c, all := Encrypt(e, n, iv, s[..k]), Encrypt(e, n, iv, s);
    assert all[..k] == c;
    if at == k {
      assert BlockAt(n, s, at) == s[k..] && BlockAt(n, all, at) == all[k..];
    } else {
      BlocksApart(n, at, k);
      EncryptBlocks(e, n, iv, s[..k], at);
      assert BlockAt(n, s[..k], at) == BlockAt(n, s, at) && BlockAt(n, c, at) == BlockAt(n, all, at);
      assert c[..at] == all[..at];
    }
  }

  // Two multiples of n are at least n apart.
  lemma BlocksApart(n: nat, at: nat, k: nat)
    requires n > 0 && at % n == 0 && k % n == 0 && at < k
    ensures at + n <= k
  {
    var p, q := at / n, k / n;
    assert at == n * p && k == n * q;
    if q <= p {
      ProductGrows(n, q, p);
    }
    ProductGrows(n, p + 1, q);
    assert n * (p + 1) == n * p + n;
  }
}
