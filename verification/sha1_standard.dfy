/** SHA-1 as the standard states it (FIPS 180-4, sections 4.1.1, 4.2.1, 5.1.1 and 6.1.2):
    the reference the class in module Sha1 is compared with. */
module Sha1Standard {
  import opened Bytes

  // The five working variables, or the five words of a chaining value.
  datatype Chain = Chain(a: word, b: word, c: word, d: word, e: word)

  const INITIAL := Chain(0x67452301, 0xefcdab89, 0x98badcfe, 0x10325476, 0xc3d2e1f0)

  // The circular left shifts (section 3.2) of the amounts that occur.
  function Rotl1(x: word): word { x.RotateLeft(1) }
  function Rotl5(x: word): word { x.RotateLeft(5) }
  function Rotl30(x: word): word { x.RotateLeft(30) }

  function Ch(x: word, y: word, z: word): word { (x & y) ^ (!x & z) }
  function Parity(x: word, y: word, z: word): word { x ^ y ^ z }
  function Maj(x: word, y: word, z: word): word { (x & y) ^ (x & z) ^ (y & z) }

  // Section 4.1.1
  function Ft(t: nat, x: word, y: word, z: word): word
  {
    if t < 20 then Ch(x, y, z) else if t < 40 then Parity(x, y, z) else if t < 60 then Maj(x, y, z) else Parity(x, y, z)
  }

  // Section 4.2.1
  function Kt(t: nat): word
  {
    if t < 20 then 0x5a827999 else if t < 40 then 0x6ed9eba1 else if t < 60 then 0x8f1bbcdc else 0xca62c1d6
  }

  function Xor4(x: word, y: word, z: word, v: word): word { x ^ y ^ z ^ v }

  // The message schedule, step 1 of section 6.1.2.
  function W(m: seq<word>, t: nat): word
    requires |m| == 16
  {
    if t < 16 then m[t] else Rotl1(Xor4(W(m, t - 3), W(m, t - 8), W(m, t - 14), W(m, t - 16)))
  }

  const ROUNDS: nat := 80

  // The schedule of all eighty words.
  function Schedule(m: seq<word>): (w: seq<word>)
    requires |m| == 16
    ensures |w| == ROUNDS
    ensures forall t :: 0 <= t < ROUNDS ==> w[t] == W(m, t)
  {
    seq(ROUNDS, t requires 0 <= t < ROUNDS => W(m, t))
  }

  // One iteration of step 3 of section 6.1.2.
  function Iteration(v: Chain, t: nat, w: word): Chain
  {
    Chain(Sum5(Rotl5(v.a), Ft(t, v.b, v.c, v.d), v.e, Kt(t), w), v.a, Rotl30(v.b), v.c, v.d)
  }

  function Sum5(a: word, b: word, c: word, d: word, e: word): word { a + b + c + d + e }

  // The working variables after the first t iterations.
  function Rounds(h: Chain, w: seq<word>, t: nat): Chain
    requires t <= |w|
  {
    if t == 0 then h else Iteration(Rounds(h, w, t - 1), t - 1, w[t - 1])
  }

  function Sum(h: Chain, v: Chain): Chain
  {
    Chain(Add(h.a, v.a), Add(h.b, v.b), Add(h.c, v.c), Add(h.d, v.d), Add(h.e, v.e))
  }

  // The intermediate hash value after one block.
  function Compress(h: Chain, m: seq<word>): Chain
    requires |m| == 16
  {
    Sum(h, Rounds(h, Schedule(m), ROUNDS))
  }

  function LoadBlock(order: ByteOrder, s: seq<byte>): (m: seq<word>)
    requires |s| == 64
    ensures |m| == 16
  {
    seq(16, i requires 0 <= i < 16 => LoadWord(order, s[4 * i..4 * i + 4]))
  }

  // The chaining value after all blocks of s.
  function Fold(order: ByteOrder, s: seq<byte>): Chain
    requires |s| % 64 == 0
  {
    if s == [] then INITIAL
    else Compress(Fold(order, s[..|s| - 64]), LoadBlock(order, s[|s| - 64..]))
  }

  function StoreChain(order: ByteOrder, h: Chain): (s: seq<byte>)
    ensures |s| == 20
  {
    StoreWord(order, h.a) + StoreWord(order, h.b) + StoreWord(order, h.c) + StoreWord(order, h.d) + StoreWord(order, h.e)
  }

  // The bit length of a message of n bytes as 64 bits, most significant byte first.
  function BitLength(n: nat): (s: seq<byte>)
    ensures |s| == 8
  {
    U32(8 * n / 0x1_0000_0000) + U32(8 * n)
  }

  // The least number of zero bytes after which the length field ends a block.
  function ZeroBytes(n: nat): (z: nat)
    ensures z < 64 && (n + 1 + z + 8) % 64 == 0
  {
    var q, r := n / 64, n % 64;
    var z := if r < 56 then 55 - r else 119 - r;
    assert n + 1 + z + 8 == 64 * (if r < 56 then q + 1 else q + 2);
    z
  }

  // Section 5.1.1: one bit, then the least number of zero bits, then the length.
  function Pad(msg: seq<byte>): (s: seq<byte>)
    ensures |s| % 64 == 0
  {
    msg + [0x80] + Zeros(ZeroBytes(|msg|)) + BitLength(|msg|)
  }

  // The message digest; the standard reads words most significant byte first.
  function Digest(msg: seq<byte>): (s: seq<byte>)
    ensures |s| == 20
  {
    StoreChain(BigEndian, Fold(BigEndian, Pad(msg)))
  }
}
