/** Bytes and 32-bit words, the byte order of the host, and the conversions between
    small numbers and bytes that every file layout of the wallet needs. */
module Bytes {
  type byte = bv8
  type word = bv32

  // The byte order of the machine: the sources load and store words with plain memory copies.
  datatype ByteOrder = LittleEndian | BigEndian

  // Addition modulo 2^32.
  function Add(x: word, y: word): word { x + y }

  function XorWord(x: word, y: word): word { x ^ y }

  // Sums wrap around, and exclusive or is bit by bit.
  lemma WordArithmetic()
    ensures Add(0xffff_ffff, 3) == 2 && Add(5, 2) == 7
    ensures XorWord(0xf0f0_00ff, 0xff00_0ff0) == 0x0ff0_0f0f
  {
  }

  // The first of four bytes is the uppermost.
  lemma JoinOrder()
    ensures Join(0x01, 0x02, 0x03, 0x04) == 0x0102_0304
    ensures LoadWord(BigEndian, [0x01, 0x02, 0x03, 0x04]) == 0x0102_0304
    ensures LoadWord(LittleEndian, [0x01, 0x02, 0x03, 0x04]) == 0x0403_0201
  {
  }

  // Four bytes of a number, the first the uppermost.
  lemma U32Order(n: nat)
    requires n < 0x1_0000_0000
    ensures
      var s := U32(n);
      |s| == 4 && n == NatOf(s[0]) * 0x100_0000 + NatOf(s[1]) * 0x1_0000 + NatOf(s[2]) * 0x100 + NatOf(s[3])
  {
    hide NatOf, U32;
    FromU32OfU32(n);
  }

  function ByteOf(n: nat): byte
    requires n < 0x100
  {
    n as bv8
  }

  function NatOf(b: byte): (n: nat)
    ensures n < 0x100
  {
    b as int
  }

  lemma ByteOfNatOf(b: byte)
    ensures ByteOf(NatOf(b)) == b
  {
  }

  lemma NatOfNext(b: byte)
    requires NatOf(b) < 0xff
    ensures NatOf(b + 1) == NatOf(b) + 1
  {
  }

  lemma NatOfZero()
    ensures NatOf(0) == 0
  {
  }

  // Counting up from zero reaches every byte.
  lemma {:induction false} ByteThere(n: nat) returns (b: byte)
    requires n < 0x100
    ensures NatOf(b) == n
  {
    hide NatOf;
    if n == 0 {
      NatOfZero();
      b := 0;
    } else {
      b := ByteThere(n - 1);
      NatOfNext(b);
      b := b + 1;
    }
  }

  lemma NatOfByteOf(n: nat)
    requires n < 0x100
    ensures NatOf(ByteOf(n)) == n
  {
    hide NatOf, ByteOf;
    var b := ByteThere(n);
    ByteOfNatOf(b);
  }

  // The byte a C cast to unsigned char leaves of a number.
  function Truncated(n: nat): byte
  {
    ByteOf(n % 0x100)
  }

  lemma NatOfTruncated(n: nat)
    ensures NatOf(Truncated(n)) == n % 0x100
  {
    NatOfByteOf(n % 0x100);
  }

  // A number below 2^32 as four bytes, most significant first.
  function U32(n: nat): (s: seq<byte>)
    ensures |s| == 4
  {
    [Truncated(n / 0x100_0000), Truncated(n / 0x1_0000), Truncated(n / 0x100), Truncated(n)]
  }

  function FromU32(s: seq<byte>): (n: nat)
    requires |s| == 4
    ensures n < 0x1_0000_0000
  {
    NatOf(s[0]) * 0x100_0000 + NatOf(s[1]) * 0x1_0000 + NatOf(s[2]) * 0x100 + NatOf(s[3])
  }

  lemma Digits(n: nat)
    ensures n / 0x100_0000 % 0x100 * 0x100_0000 + n / 0x1_0000 % 0x100 * 0x1_0000 + n / 0x100 % 0x100 * 0x100 + n % 0x100
            == n % 0x1_0000_0000
  {
    var q1, q2, q3 := n / 0x100, n / 0x1_0000, n / 0x100_0000;
    assert q2 == q1 / 0x100 && q3 == q2 / 0x100;
    DigitsOf(n, q1, q2, q3, q3 / 0x100);
  }

  // Linear once the quotients have names.
  lemma DigitsOf(n: nat, q1: nat, q2: nat, q3: nat, q4: nat)
    requires q1 == n / 0x100 && q2 == q1 / 0x100 && q3 == q2 / 0x100 && q4 == q3 / 0x100
    ensures q3 % 0x100 * 0x100_0000 + q2 % 0x100 * 0x1_0000 + q1 % 0x100 * 0x100 + n % 0x100 == n % 0x1_0000_0000
  {
    var a, b, c, d := n - 0x100 * q1, q1 - 0x100 * q2, q2 - 0x100 * q3, q3 - 0x100 * q4;
    assert n % 0x100 == a && q1 % 0x100 == b && q2 % 0x100 == c && q3 % 0x100 == d;
    assert n == 0x1_0000_0000 * q4 + (d * 0x100_0000 + c * 0x1_0000 + b * 0x100 + a);
    Low32(n, q4, d * 0x100_0000 + c * 0x1_0000 + b * 0x100 + a);
  }

  lemma Low32(n: nat, q: nat, r: nat)
    requires n == 0x1_0000_0000 * q + r && r < 0x1_0000_0000
    ensures n % 0x1_0000_0000 == r
  {
  }

  lemma FromU32OfU32(n: nat)
    ensures FromU32(U32(n)) == n % 0x1_0000_0000
  {
    NatOfTruncated(n / 0x100_0000);
    NatOfTruncated(n / 0x1_0000);
    NatOfTruncated(n / 0x100);
    NatOfTruncated(n);
    Digits(n);
  }

  lemma FromU32Injective(s: seq<byte>, t: seq<byte>)
    requires |s| == 4 && |t| == 4 && FromU32(s) == FromU32(t)
    ensures s == t
  {
    hide NatOf, ByteOf;
    DigitsUnique(NatOf(s[0]), NatOf(s[1]), NatOf(s[2]), NatOf(s[3]), NatOf(t[0]), NatOf(t[1]), NatOf(t[2]), NatOf(t[3]));
    forall i | 0 <= i < 4 ensures s[i] == t[i] {
      ByteOfNatOf(s[i]);
      ByteOfNatOf(t[i]);
    }
  }

  lemma DigitsUnique(a: nat, b: nat, c: nat, d: nat, e: nat, f: nat, g: nat, h: nat)
    requires a < 0x100 && b < 0x100 && c < 0x100 && d < 0x100 && e < 0x100 && f < 0x100 && g < 0x100 && h < 0x100
    requires a * 0x100_0000 + b * 0x1_0000 + c * 0x100 + d == e * 0x100_0000 + f * 0x1_0000 + g * 0x100 + h
    ensures a == e && b == f && c == g && d == h
  {
  }

  // A word from its bytes, most significant first, and each byte of a word.
  function Join(a: byte, b: byte, c: byte, d: byte): word
  {
    (a as word << 24) | (b as word << 16) | (c as word << 8) | (d as word)
  }

  function Byte3(w: word): byte { (w >> 24) as byte }
  function Byte2(w: word): byte { ((w >> 16) & 0xff) as byte }
  function Byte1(w: word): byte { ((w >> 8) & 0xff) as byte }
  function Byte0(w: word): byte { (w & 0xff) as byte }

  lemma JoinOfBytes(w: word)
    ensures Join(Byte3(w), Byte2(w), Byte1(w), Byte0(w)) == w
  {
  }

  lemma BytesOfJoin(a: byte, b: byte, c: byte, d: byte)
    ensures Byte3(Join(a, b, c, d)) == a && Byte2(Join(a, b, c, d)) == b
    ensures Byte1(Join(a, b, c, d)) == c && Byte0(Join(a, b, c, d)) == d
  {
  }

  // One word from four bytes in memory.
  function LoadWord(order: ByteOrder, s: seq<byte>): word
    requires |s| == 4
  {
    match order
    case BigEndian => Join(s[0], s[1], s[2], s[3])
    case LittleEndian => Join(s[3], s[2], s[1], s[0])
  }

  // A word as it lies in memory.
  function StoreWord(order: ByteOrder, w: word): (s: seq<byte>)
    ensures |s| == 4
  {
    match order
    case BigEndian => [Byte3(w), Byte2(w), Byte1(w), Byte0(w)]
    case LittleEndian => [Byte0(w), Byte1(w), Byte2(w), Byte3(w)]
  }

  lemma LoadOfStore(order: ByteOrder, w: word)
    ensures LoadWord(order, StoreWord(order, w)) == w
  {
    JoinOfBytes(w);
  }

  lemma StoreOfLoad(order: ByteOrder, s: seq<byte>)
    requires |s| == 4
    ensures StoreWord(order, LoadWord(order, s)) == s
  {
    BytesOfJoin(s[0], s[1], s[2], s[3]);
    BytesOfJoin(s[3], s[2], s[1], s[0]);
  }

  function Xor(a: seq<byte>, b: seq<byte>): (r: seq<byte>)
    requires |a| == |b|
    ensures |r| == |a|
    ensures forall i :: 0 <= i < |r| ==> r[i] == a[i] ^ b[i]
  {
    seq(|a|, i requires 0 <= i < |a| => a[i] ^ b[i])
  }

  lemma XorTwice(a: seq<byte>, b: seq<byte>)
    requires |a| == |b|
    ensures Xor(Xor(a, b), b) == a
  {
    forall i | 0 <= i < |a| ensures Xor(Xor(a, b), b)[i] == a[i] {
      assert (a[i] ^ b[i]) ^ b[i] == a[i];
    }
  }

  function Zeros(n: nat): (s: seq<byte>)
    ensures |s| == n
    ensures forall i :: 0 <= i < n ==> s[i] == 0
  {
    seq(n, _ => 0 as byte)
  }
}
