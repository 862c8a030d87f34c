/** password2hash(): the key of wallets of former releases. */
module PasswordHash {
  import opened Bytes
  import opened Sha1

  const ITERATIONS: nat := 2000

  // The digest of the digest ... of msg, n times.
  function Iterated(order: ByteOrder, n: nat, msg: seq<byte>): (r: seq<byte>)
    ensures n > 0 ==> |r| == 20
  {
    if n == 0 then msg else DigestOn(order, Iterated(order, n - 1, msg))
  }

  function Stretched(order: ByteOrder, chunk: seq<byte>): (r: seq<byte>)
    ensures |r| == 20
  {
    Iterated(order, ITERATIONS, chunk)
  }

  // Up to four chunks of the password; the first three take sixteen bytes, the fourth the rest.
  function Chunks(password: seq<byte>): (cs: seq<seq<byte>>)
    ensures 1 <= |cs| <= 4
  {
    var n := |password|;
    if n <= 16 then [password]
    else if n <= 32 then [password[..16], password[16..]]
    else if n <= 48 then [password[..16], password[16..32], password[32..]]
    else [password[..16], password[16..32], password[32..48], password[48..]]
  }

  // How much of the digest of each chunk goes into the key: 20, 20 + 20, 20 + 20 + 16, or four times 14.
  function Share(chunks: nat, i: nat): (n: nat)
    ensures n <= 20
  {
    if chunks == 4 then 14 else if i == 2 then 16 else 20
  }

  function KeyFrom(order: ByteOrder, cs: seq<seq<byte>>, i: nat): seq<byte>
    requires i <= |cs|
  {
    if i == 0 then [] else KeyFrom(order, cs, i - 1) + Stretched(order, cs[i - 1])[..Share(|cs|, i - 1)]
  }

  function Key(order: ByteOrder, password: seq<byte>): seq<byte>
  {
    KeyFrom(order, Chunks(password), |Chunks(password)|)
  }

  function Joined(cs: seq<seq<byte>>): seq<byte>
  {
    if cs == [] then [] else cs[0] + Joined(cs[1..])
  }

  // The whole password goes into the key, chunk after chunk.
  lemma ChunksJoin(password: seq<byte>)
    ensures Joined(Chunks(password)) == password
  {
    var cs := Chunks(password);
    assert Joined(cs[|cs|..]) == [];
    if |cs| == 1 {
    } else if |cs| == 2 {
      assert cs[1..] == [cs[1]];
    } else if |cs| == 3 {
      assert cs[1..] == [cs[1], cs[2]] && cs[1..][1..] == [cs[2]];
      assert Joined(cs[1..]) == cs[1] + Joined([cs[2]]);
    } else {
      assert cs[1..] == [cs[1], cs[2], cs[3]] && cs[1..][1..] == [cs[2], cs[3]] && cs[1..][1..][1..] == [cs[3]];
      assert Joined([cs[2], cs[3]]) == cs[2] + Joined([cs[3]]);
    }
  }

  // The key has 20, 40 or 56 bytes, so the cipher never refuses its length.
  lemma KeySize(order: ByteOrder, password: seq<byte>)
    ensures |Key(order, password)| == if |password| <= 16 then 20 else if |password| <= 32 then 40 else 56
  {
    hide Stretched;
    var cs := Chunks(password);
    assert |KeyFrom(order, cs, 0)| == 0;
    assert |KeyFrom(order, cs, 1)| == Share(|cs|, 0);
    if |cs| > 1 {
      assert |KeyFrom(order, cs, 2)| == |KeyFrom(order, cs, 1)| + Share(|cs|, 1);
    }
    if |cs| > 2 {
      assert |KeyFrom(order, cs, 3)| == |KeyFrom(order, cs, 2)| + Share(|cs|, 2);
    }
    if |cs| > 3 {
      assert |KeyFrom(order, cs, 4)| == |KeyFrom(order, cs, 3)| + Share(|cs|, 3);
    }
  }

  // n digests, one of the other: whatever the chain of values that leads to it.
  lemma {:induction false} IteratedChain(order: ByteOrder, n: nat, chain: seq<seq<byte>>)
    requires |chain| == n + 1 && forall i :: 0 <= i < n ==> chain[i + 1] == DigestOn(order, chain[i])
    ensures Iterated(order, n, chain[0]) == chain[n]
  {
    hide DigestOn;
    if n > 0 {
      IteratedChain(order, n - 1, chain[..n]);
    }
  }

  // The key, piece by piece: 2000 digests of each chunk, and how much of each of them goes in.
  lemma KeyExact(order: ByteOrder, p: seq<byte>)
    ensures |p| <= 16 ==> Key(order, p) == Iterated(order, 2000, p)[..20]
    ensures 16 < |p| <= 32 ==> Key(order, p) == Iterated(order, 2000, p[..16])[..20] + Iterated(order, 2000, p[16..])[..20]
    ensures 32 < |p| <= 48 ==>
      Key(order, p) == Iterated(order, 2000, p[..16])[..20] + Iterated(order, 2000, p[16..32])[..20] + Iterated(order, 2000, p[32..])[..16]
    ensures 48 < |p| ==>
      Key(order, p) == Iterated(order, 2000, p[..16])[..14] + Iterated(order, 2000, p[16..32])[..14]
        + Iterated(order, 2000, p[32..48])[..14] + Iterated(order, 2000, p[48..])[..14]
  {
    hide Iterated;
    var cs := Chunks(p);
    assert KeyFrom(order, cs, 0) == [];
    assert KeyFrom(order, cs, 1) == Stretched(order, cs[0])[..Share(|cs|, 0)];
    if |cs| > 1 {
      assert KeyFrom(order, cs, 2) == KeyFrom(order, cs, 1) + Stretched(order, cs[1])[..Share(|cs|, 1)];
    }
    if |cs| > 2 {
      assert KeyFrom(order, cs, 3) == KeyFrom(order, cs, 2) + Stretched(order, cs[2])[..Share(|cs|, 2)];
    }
  }

  // The loop that makes guessing slow; the object is left reset.
  method Stretch(sha: SHA1, data: seq<byte>) returns (block: seq<byte>)
    requires sha.Valid() && sha.init && sha.Message() == []
    modifies sha, sha.buf
    ensures sha.Valid() && sha.init && sha.Message() == []
    ensures block == Iterated(sha.order, 2000, data)
  {
    hide DigestOn;
    block := Zeros(20);
    var n := sha.Process(data);
    assert [] + data == data;
    for i := 0 to ITERATIONS
      invariant sha.Valid() && sha.init
      invariant sha.Message() == Iterated(sha.order, i, data)
      invariant i > 0 ==> block == Iterated(sha.order, i, data)
    {
      block := sha.Hash();
      sha.Reset();
      n := sha.Process(block);
      assert [] + block == block;
    }
    sha.Reset();
  }

  method Password2hash(order: ByteOrder, password: seq<byte>) returns (hash: seq<byte>)
    ensures hash == Key(order, password)
    ensures |password| <= 16 ==> hash == Iterated(order, 2000, password)
    ensures 16 < |password| <= 32 ==> hash == Iterated(order, 2000, password[..16]) + Iterated(order, 2000, password[16..])
    ensures 32 < |password| <= 48 ==>
      hash == Iterated(order, 2000, password[..16]) + Iterated(order, 2000, password[16..32]) + Iterated(order, 2000, password[32..])[..16]
    ensures 48 < |password| ==>
      hash == Iterated(order, 2000, password[..16])[..14] + Iterated(order, 2000, password[16..32])[..14]
      + Iterated(order, 2000, password[32..48])[..14] + Iterated(order, 2000, password[48..])[..14]
  {
    KeyExact(order, password);
    hide Key, Iterated;
    var sha := new SHA1(order);
    var block1 := Stretch(sha, password[..Min(|password|, 16)]);
    if |password| > 16 {
      var block2 := Stretch(sha, password[16..16 + Min(|password| - 16, 16)]);
      if |password| > 32 {
        var block3 := Stretch(sha, password[32..32 + Min(|password| - 32, 16)]);
        if |password| > 48 {
          var block4 := Stretch(sha, password[48..]);
          hash := block1[..14] + block2[..14] + block3[..14] + block4[..14];
        } else {
          assert password[32..32 + Min(|password| - 32, 16)] == password[32..];
          hash := block1[..20] + block2[..20] + block3[..16];
        }
      } else {
        assert password[16..16 + Min(|password| - 16, 16)] == password[16..];
        hash := block1[..20] + block2[..20];
      }
    } else {
      assert password[..Min(|password|, 16)] == password;
      hash := block1[..20];
    }
  }

  function Min(a: int, b: int): int
  {
    if a < b then a else b
  }
}
