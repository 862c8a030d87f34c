/** How the padding of SHA1::hash() relates to section 5.1.1 of FIPS 180-4. */
module Sha1Padding {
  import opened Bytes
  import opened Sha1Standard
  import opened Sha1

  // The carry test after the multiplication by eight, which is meant to see an overflow, sees none.
  predicate NoFalseCarry(n: nat)
  {
    n < 0x1_0000_0000 && 8 * n % 0x1_0000_0000 >= n
  }

  lemma U32Injective(a: nat, b: nat)
    requires a < 0x1_0000_0000 && b < 0x1_0000_0000
    ensures U32(a) == U32(b) ==> a == b
  {
    hide U32, FromU32;
    FromU32OfU32(a);
    FromU32OfU32(b);
  }

  lemma FieldsEqual(a: nat, b: nat, c: nat, d: nat)
    requires a < 0x1_0000_0000 && b < 0x1_0000_0000 && c < 0x1_0000_0000 && d < 0x1_0000_0000
    ensures U32(a) + U32(b) == U32(c) + U32(d) <==> a == c && b == d
  {
    U32Injective(a, c);
    U32Injective(b, d);
    if U32(a) + U32(b) == U32(c) + U32(d) {
      assert U32(a) == (U32(a) + U32(b))[..4] && U32(b) == (U32(a) + U32(b))[4..];
      assert U32(c) == (U32(c) + U32(d))[..4] && U32(d) == (U32(c) + U32(d))[4..];
    }
  }

  // The three unsigned sums of hash(), when the number of blocks fits an unsigned int.
  lemma Words(nb: nat, c: nat, q: nat, r: nat)
    requires nb < 0x1_0000_0000 && c < 64 && nb == 0x400_0000 * q + r && r < 0x400_0000
    ensures var y := 64 * r + c;
            LengthWords(nb, c) ==
            ((if 64 * r < nb then 1 else 0) + q + (if 8 * y % 0x1_0000_0000 < y then 1 else 0) + y / 0x2000_0000,
             8 * y % 0x1_0000_0000)
  {
    hide LengthWords;
    assert nb * 64 % 0x1_0000_0000 == 64 * r by {
      RemainderOfSum(q, 64 * r);
      assert nb * 64 == 0x1_0000_0000 * q + 64 * r;
    }
    BlocksBehind(q, r);
    SumsOf(nb, c, 64 * r, q);
  }

  lemma BlocksBehind(q: nat, r: nat)
    requires r < 0x400_0000
    ensures (0x400_0000 * q + r) / 0x400_0000 == q
  {
  }

  lemma SumsOf(nb: nat, c: nat, low: nat, q: nat)
    requires nb < 0x1_0000_0000 && low + c < 0x1_0000_0000
    requires nb * 64 % 0x1_0000_0000 == low && nb / 0x400_0000 == q
    ensures var y := low + c;
            LengthWords(nb, c) ==
            ((if low < nb then 1 else 0) + q + (if 8 * y % 0x1_0000_0000 < y then 1 else 0) + y / 0x2000_0000,
             8 * y % 0x1_0000_0000)
  {
    assert nb % 0x1_0000_0000 == nb;
    assert (low + c) % 0x1_0000_0000 == low + c;
  }

  // Nothing overflows but the last shift.
  lemma ShortWords(nb: nat, c: nat)
    requires nb < 0x400_0000 && c < 64
    ensures var n := 64 * nb + c;
            LengthWords(nb, c) ==
            ((if 8 * n % 0x1_0000_0000 < n then 1 else 0) + n / 0x2000_0000, 8 * n % 0x1_0000_0000)
  {
    hide LengthWords;
    Words(nb, c, 0, nb);
  }

  // With q times 2^32 bytes behind it, msb holds about q where the standard wants 8 * q.
  lemma LongWords(nb: nat, c: nat)
    requires 0x400_0000 <= nb < 0x1_0000_0000 && c < 64
    ensures LengthWords(nb, c).0 < (64 * nb + c) / 0x2000_0000
  {
    hide LengthWords;
    var q, r := nb / 0x400_0000, nb % 0x400_0000;
    var y := 64 * r + c;
    Words(nb, c, q, r);
    QuotientOfSum(q, y);
    assert 64 * nb + c == 0x1_0000_0000 * q + y;
  }

  lemma RemainderOfSum(q: nat, y: nat)
    requires y < 0x1_0000_0000
    ensures (0x1_0000_0000 * q + y) % 0x1_0000_0000 == y
  {
  }

  lemma QuotientOfSum(q: nat, y: nat)
    ensures (0x1_0000_0000 * q + y) / 0x2000_0000 == 8 * q + y / 0x2000_0000
  {
    assert 0x1_0000_0000 * q + y == 0x2000_0000 * (8 * q + y / 0x2000_0000) + y % 0x2000_0000;
  }

  // With more blocks than an unsigned int counts, msb is a small number and the standard's is not.
  lemma VeryLongWords(nb: nat, c: nat)
    requires 0x1_0000_0000 <= nb && c < 64
    ensures LengthWords(nb, c).0 < (64 * nb + c) / 0x2000_0000
  {
    assert (64 * nb + c) / 0x2000_0000 >= 512;
  }

  // For every message the standard admits, the length field is right exactly when the test sees no carry.
  lemma LengthFieldExact(n: nat)
    requires n < 0x2000_0000_0000_0000
    ensures LengthField(n) == BitLength(n) <==> NoFalseCarry(n)
  {
    hide LengthWords, U32;
    var (msb, lsb) := LengthWords(n / 64, n % 64);
    var high := n / 0x2000_0000;
    assert high == 8 * n / 0x1_0000_0000 && high < 0x1_0000_0000;
    U32OfRemainder(8 * n);
    if n < 0x1_0000_0000 {
      ShortWords(n / 64, n % 64);
      assert 64 * (n / 64) + n % 64 == n;
    } else if n / 64 < 0x1_0000_0000 {
      LongWords(n / 64, n % 64);
    } else {
      VeryLongWords(n / 64, n % 64);
    }
    FieldsEqual(msb, lsb, high, 8 * n % 0x1_0000_0000);
  }

  lemma U32OfRemainder(n: nat)
    ensures U32(n) == U32(n % 0x1_0000_0000)
  {
    hide U32, FromU32;
    FromU32OfU32(n);
    FromU32OfU32(n % 0x1_0000_0000);
    FromU32Injective(U32(n), U32(n % 0x1_0000_0000));
  }

  // Below 2^29 bytes the field is always right; at 2^29 it is wrong for the first time.
  lemma LengthFieldBound(n: nat)
    requires n <= 0x2000_0000
    ensures LengthField(n) == BitLength(n) <==> n < 0x2000_0000
  {
    hide LengthField, BitLength;
    LengthFieldExact(n);
  }

  // The padded messages agree exactly when the length field is right and the message length is not 55 modulo 64.
  lemma PaddedIsPad(msg: seq<byte>)
    requires |msg| < 0x2000_0000_0000_0000
    ensures Padded(msg) == Pad(msg) <==> NoFalseCarry(|msg|) && |msg| % 64 != 55
  {
    hide LengthField, BitLength;
    var n := |msg|;
    LengthFieldExact(n);
    var p, s := Padded(msg), Pad(msg);
    assert p[|p| - 8..] == LengthField(n) && s[|s| - 8..] == BitLength(n);
    if n % 64 == 55 {
      assert |p| == |s| + 64;
    } else {
      assert ZeroCount(n) == ZeroBytes(n);
    }
  }

  // On a big-endian host, such messages get the digest of the standard.
  lemma DigestIsStandard(msg: seq<byte>)
    requires |msg| < 0x2000_0000_0000_0000 && NoFalseCarry(|msg|) && |msg| % 64 != 55
    ensures DigestOn(BigEndian, msg) == Digest(msg)
  {
    PaddedIsPad(msg);
  }

  lemma PaddedInjective(m1: seq<byte>, m2: seq<byte>)
    requires |m1| < 0x2000_0000 && |m2| < 0x2000_0000
    requires Padded(m1) == Padded(m2)
    ensures m1 == m2
  {
    hide LengthField, BitLength;
    var p := Padded(m1);
    assert p[|p| - 8..] == LengthField(|m1|) && p[|p| - 8..] == LengthField(|m2|);
    LengthFieldExact(|m1|);
    LengthFieldExact(|m2|);
    BitLengthInjective(|m1|, |m2|);
    assert p[..|m1|] == m1 && p[..|m2|] == m2;
  }

  lemma BitLengthInjective(a: nat, b: nat)
    requires a < 0x2000_0000 && b < 0x2000_0000 && BitLength(a) == BitLength(b)
    ensures a == b
  {
    hide U32;
    FieldsEqual(8 * a / 0x1_0000_0000, 8 * a, 8 * b / 0x1_0000_0000, 8 * b);
  }
}
