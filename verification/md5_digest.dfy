/** The order of MD5Digest, by which the index map finds its keys. Whether a char is signed is left
    open: any injective ranking of the bytes will do. */
module Md5Digest {
  import opened Bytes
  import opened WalletFormat

  ghost predicate Injective(rank: byte -> int)
  {
    forall x, y :: rank(x) == rank(y) ==> x == y
  }

  ghost predicate SameBelow(l: Digest, r: Digest, i: nat)
    requires i <= 16
  {
    forall j :: 0 <= j < i ==> l[j] == r[j]
  }

  // The first byte in which they differ decides.
  ghost predicate LessAt(rank: byte -> int, l: Digest, r: Digest, i: nat)
  {
    i < 16 && SameBelow(l, r, i) && rank(l[i]) < rank(r[i])
  }

  ghost predicate Less(rank: byte -> int, l: Digest, r: Digest)
  {
    exists i: nat :: LessAt(rank, l, r, i)
  }

  method LessThan(rank: byte -> int, l: Digest, r: Digest) returns (less: bool)
    requires Injective(rank)
    ensures less <==> Less(rank, l, r)
  {
    var i := 0;
    while i < 16
      invariant 0 <= i <= 16 && SameBelow(l, r, i)
    {
      if rank(l[i]) != rank(r[i]) {
        break;
      }
      i := i + 1;
    }
    less := i < 16 && rank(l[i]) < rank(r[i]);
    if less {
      assert LessAt(rank, l, r, i);
    }
  }

  lemma LessTransitive(rank: byte -> int, a: Digest, b: Digest, c: Digest)
    requires Less(rank, a, b) && Less(rank, b, c)
    ensures Less(rank, a, c)
  {
    var i: nat :| LessAt(rank, a, b, i);
    var k: nat :| LessAt(rank, b, c, k);
    assert LessAt(rank, a, c, if i < k then i else k);
  }

  // One of two digests is less exactly when they differ: the index takes no two keys for one, and finds
  // each key again.
  lemma LessTotal(rank: byte -> int, a: Digest, b: Digest)
    requires Injective(rank)
    ensures Less(rank, a, b) || Less(rank, b, a) <==> a != b
  {
    if a != b {
      var i := FirstDifference(a, b);
      assert LessAt(rank, a, b, i) || LessAt(rank, b, a, i);
    }
  }

  lemma FirstDifference(a: Digest, b: Digest) returns (i: nat)
    requires a != b
    ensures i < 16 && SameBelow(a, b, i) && a[i] != b[i]
  {
    i := 0;
    while i < 16 && a[i] == b[i]
      invariant i <= 16 && SameBelow(a, b, i)
    {
      i := i + 1;
    }
  }
}
