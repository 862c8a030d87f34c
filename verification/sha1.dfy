/** The SHA1 class: block compression, buffered absorption and padding. */
module Sha1 {
  import opened Bytes
  import opened Sha1Standard

  // ---- The macros F1, F2 and F3; F4 is F2 again ----

  function F1(x: word, y: word, z: word): word { z ^ (x & (y ^ z)) }
  function F2(x: word, y: word, z: word): word { x ^ y ^ z }
  function F3(x: word, y: word, z: word): word { (x & y) | (z & (x | y)) }

  lemma F1IsCh(x: word, y: word, z: word)
    ensures F1(x, y, z) == Ch(x, y, z)
  {
    ChooseBits(x, y, z);
  }

  lemma ChooseBits(x: word, y: word, z: word)
    ensures z ^ (x & (y ^ z)) == (x & y) ^ (!x & z)
  {
  }

  lemma F3IsMaj(x: word, y: word, z: word)
    ensures F3(x, y, z) == Maj(x, y, z)
  {
    MajorityBits(x, y, z);
  }

  lemma MajorityBits(x: word, y: word, z: word)
    ensures ((x & y) | (z & (x | y))) == (x & y) ^ (x & z) ^ (y & z)
  {
  }

  // The function the macro call of round t names.
  function RoundFunction(t: nat, x: word, y: word, z: word): word
  {
    if t < 20 then F1(x, y, z) else if t < 40 then F2(x, y, z) else if t < 60 then F3(x, y, z) else F2(x, y, z)
  }

  lemma RoundFunctionIsFt(t: nat, x: word, y: word, z: word)
    ensures RoundFunction(t, x, y, z) == Ft(t, x, y, z)
  {
    if t < 20 {
      F1IsCh(x, y, z);
    } else if t < 40 {
    } else if t < 60 {
      F3IsMaj(x, y, z);
    }
  }

  // ---- The macro rol and the constants K1 to K4 ----

  function Rol1(x: word): word { (x << 1) | (x >> 31) }
  function Rol5(x: word): word { (x << 5) | (x >> 27) }
  function Rol30(x: word): word { (x << 30) | (x >> 2) }

  lemma RolIsRotl(x: word)
    ensures Rol1(x) == Rotl1(x) && Rol5(x) == Rotl5(x) && Rol30(x) == Rotl30(x)
  {
  }

  const K1: word := 0x5a827999
  const K2: word := 0x6ed9eba1
  const K3: word := 0x8f1bbcdc
  const K4: word := 0xca62c1d6

  function RoundConstant(t: nat): word
  {
    if t < 20 then K1 else if t < 40 then K2 else if t < 60 then K3 else K4
  }

  lemma RoundConstantIsKt(t: nat)
    ensures RoundConstant(t) == Kt(t)
  {
  }

  // What the macro R adds to e, in its own order.
  function AddedTo(e: word, p: word, f: word, k: word, m: word): word { e + (p + f + k + m) }

  lemma AddedToIsSum5(e: word, p: word, f: word, k: word, m: word)
    ensures AddedTo(e, p, f, k, m) == Sum5(p, f, e, k, m)
  {
    assert p + f + e == e + (p + f);
  }

  // The macro R: e and b are updated, the other registers only read.
  method R(t: nat, a: word, b: word, c: word, d: word, e: word, m: word) returns (e': word, b': word)
    ensures Iteration(Chain(a, b, c, d, e), t, m) == Chain(e', a, b', c, d)
  {
    RoundFunctionIsFt(t, b, c, d);
    RoundConstantIsKt(t);
    RolIsRotl(a);
    RolIsRotl(b);
    hide Rol5, Rol30, Rotl5, Rotl30, RoundConstant, Kt, RoundFunction, Ft, AddedTo, Sum5;
    e' := AddedTo(e, Rol5(a), RoundFunction(t, b, c, d), RoundConstant(t), m);
    b' := Rol30(b);
    AddedToIsSum5(e, Rol5(a), RoundFunction(t, b, c, d), RoundConstant(t), m);
  }

  // Before round t, the slots of x hold the last sixteen words of the message schedule.
  ghost predicate Window(x: seq<word>, m: seq<word>, t: nat)
  {
    && |x| == 16 && |m| == 16
    && forall k: nat {:trigger Slot(x, k)} :: t <= k + 16 && (k < t || k < 16) ==> Slot(x, k) == W(m, k)
  }

  function Slot(x: seq<word>, k: nat): word
    requires |x| == 16
  {
    x[k % 16]
  }

  // The word of round t: x[t] for the first sixteen, the macro M(t) after that.
  method ScheduleWord(x: array<word>, t: nat, ghost m: seq<word>) returns (w: word)
    requires x.Length == 16 && |m| == 16 && Window(x[..], m, t)
    modifies x
    ensures w == W(m, t) && Window(x[..], m, t + 1)
  {
    hide Rol1, Rotl1, Xor4;
    if t < 16 {
      w := x[t];
      assert Slot(x[..], t) == W(m, t);
    } else {
      assert Slot(x[..], t - 16) == W(m, t - 16) && Slot(x[..], t - 14) == W(m, t - 14);
      assert Slot(x[..], t - 8) == W(m, t - 8) && Slot(x[..], t - 3) == W(m, t - 3);
      ghost var before := x[..];
      var tm := Xor4(x[t % 16], x[(t - 14) % 16], x[(t - 8) % 16], x[(t - 3) % 16]);
      RolIsRotl(tm);
      w := Rol1(tm);
      x[t % 16] := w;
      XorOrder(W(m, t - 3), W(m, t - 8), W(m, t - 14), W(m, t - 16));
      assert w == W(m, t);
      forall k: nat | t + 1 <= k + 16 && (k < t + 1 || k < 16) ensures Slot(x[..], k) == W(m, k) {
        if k != t {
          assert Slot(before, k) == W(m, k);
          assert k % 16 != t % 16;
        }
      }
    }
  }

  // One macro call with its word: round t of the standard, on registers whose roles are permuted.
  method Round(x: array<word>, t: nat, a: word, b: word, c: word, d: word, e: word,
               ghost h: Chain, ghost m: seq<word>, ghost ws: seq<word>)
      returns (e': word, b': word)
    requires t < ROUNDS && |m| == 16 && ws == Schedule(m)
    requires x.Length == 16 && Window(x[..], m, t)
    requires Chain(a, b, c, d, e) == Rounds(h, ws, t)
    modifies x
    ensures Chain(e', a, b', c, d) == Rounds(h, ws, t + 1) && Window(x[..], m, t + 1)
  {
    var w := ScheduleWord(x, t, m);
    e', b' := R(t, a, b, c, d, e, w);
  }

  lemma BeforeRounds(h: Chain, m: seq<word>)
    requires |m| == 16
    ensures Rounds(h, Schedule(m), 0) == h && Window(m, m, 0)
  {
  }

  // Five macro calls, after which the registers have their roles back.
  method FiveRounds(x: array<word>, t: nat, v: Chain, ghost h: Chain, ghost m: seq<word>, ghost ws: seq<word>)
      returns (v': Chain)
    requires t + 5 <= ROUNDS && |m| == 16 && ws == Schedule(m)
    requires x.Length == 16 && Window(x[..], m, t)
    requires v == Rounds(h, ws, t)
    modifies x
    ensures v' == Rounds(h, ws, t + 5) && Window(x[..], m, t + 5)
  {
    var a, b, c, d, e := v.a, v.b, v.c, v.d, v.e;
    e, b := Round(x, t, a, b, c, d, e, h, m, ws);
    d, a := Round(x, t + 1, e, a, b, c, d, h, m, ws);
    c, e := Round(x, t + 2, d, e, a, b, c, h, m, ws);
    b, d := Round(x, t + 3, c, d, e, a, b, h, m, ws);
    a, c := Round(x, t + 4, b, c, d, e, a, h, m, ws);
    v' := Chain(a, b, c, d, e);
  }

  lemma XorOrder(a: word, b: word, c: word, d: word)
    ensures Xor4(a, b, c, d) == Xor4(d, c, b, a)
  {
  }

  // ---- The chaining words, which the source keeps in longs ----

  // A long that only grows by 32-bit summands: the part above 2^32, and the low 32 bits.
  datatype Long = Long(hi: nat, lo: word) {
    function Plus(a: word): (r: Long)
      ensures r.lo == Add(lo, a) && hi <= r.hi <= hi + 1
    {
      Long(if Add(lo, a) < a then hi + 1 else hi, Add(lo, a))
    }
  }

  // ---- Padding as hash() performs it, on unsigned ints ----

  // The words msb and lsb after nblocks blocks and count further bytes.
  function LengthWords(nblocks: nat, count: nat): (r: (nat, nat))
    ensures r.1 < 0x1_0000_0000
  {
    var t := nblocks % 0x1_0000_0000;
    var lsb := t * 64 % 0x1_0000_0000;
    var msb := (if lsb < t then 1 else 0) + t / 0x400_0000;
    var t1 := lsb;
    var lsb1 := (t1 + count) % 0x1_0000_0000;
    var msb1 := msb + (if lsb1 < t1 then 1 else 0);
    var lsb2 := lsb1 * 8 % 0x1_0000_0000;
    (msb1 + (if lsb2 < lsb1 then 1 else 0) + lsb1 / 0x2000_0000, lsb2)
  }

  // What hash() writes behind a message of n bytes in place of the bit length.
  function LengthField(n: nat): (s: seq<byte>)
    ensures |s| == 8
  {
    var (msb, lsb) := LengthWords(n / 64, n % 64);
    U32(msb) + U32(lsb)
  }

  // The number of zero bytes hash() appends; it tests the count after the byte 0x80.
  function ZeroCount(n: nat): (z: nat)
    ensures (n + 1 + z + 8) % 64 == 0
  {
    var q, r := n / 64, n % 64;
    var z := if r + 1 < 56 then 55 - r else (63 - r) + 56;
    assert n + 1 + z + 8 == 64 * (if r + 1 < 56 then q + 1 else q + 2);
    z
  }

  // The whole input of the compression, as hash() completes it.
  function Padded(msg: seq<byte>): (s: seq<byte>)
    ensures |s| % 64 == 0
  {
    msg + [0x80] + Zeros(ZeroCount(|msg|)) + LengthField(|msg|)
  }

  // The twenty bytes hash() returns on a host of the given byte order.
  function DigestOn(order: ByteOrder, msg: seq<byte>): (s: seq<byte>)
    ensures |s| == 20
  {
    StoreChain(order, Fold(order, Padded(msg)))
  }

  class SHA1 {
    const order: ByteOrder
    const buf: array<byte>
    var init: bool
    var h0: Long
    var h1: Long
    var h2: Long
    var h3: Long
    var h4: Long
    var nblocks: nat
    var count: nat
    // the whole blocks compressed since the last reset
    ghost var done: seq<byte>

    function Chaining(): Chain
      reads this
    {
      Chain(h0.lo, h1.lo, h2.lo, h3.lo, h4.lo)
    }

    // The longs never reach 2^32 times more than one plus the number of blocks.
    ghost predicate Bounded(n: nat)
      reads this
    {
      h0.hi <= n && h1.hi <= n && h2.hi <= n && h3.hi <= n && h4.hi <= n
    }

    ghost predicate Absorbed()
      reads this, buf
    {
      && buf.Length == 64
      && count <= 64
      && 64 * nblocks == |done|
      && Bounded(nblocks)
      && Chaining() == Fold(order, done)
    }

    // Everything absorbed since the last reset.
    ghost function Message(): seq<byte>
      reads this, buf
      requires count <= buf.Length
    {
      done + buf[..count]
    }

    ghost predicate Valid()
      reads this, buf
    {
      buf.Length == 64 && (init ==> Absorbed() && count < 64)
    }

    constructor (order: ByteOrder)
      ensures Valid() && init && Message() == [] && this.order == order && fresh(buf)
    {
      this.order := order;
      buf := new byte[64](_ => 0);
      init := false;
      h0, h1, h2, h3, h4 := Long(0, 0), Long(0, 0), Long(0, 0), Long(0, 0), Long(0, 0);
      nblocks, count, done := 0, 0, [];
      new;
      Reset();
    }

    method Reset()
      requires Valid()
      modifies this, buf
      ensures Valid() && init && Message() == []
    {
      h0 := Long(0, 0x67452301);
      h1 := Long(0, 0xefcdab89);
      h2 := Long(0, 0x98badcfe);
      h3 := Long(0, 0x10325476);
      h4 := Long(0, 0xc3d2e1f0);
      nblocks, count := 0, 0;
      forall i | 0 <= i < 56 { buf[i] := 0; }
      init := true;
      done := [];
    }

    // All rounds on one block.
    method EightyRounds(m: seq<word>, h: Chain) returns (v: Chain)
      requires |m| == 16
      ensures v == Rounds(h, Schedule(m), ROUNDS)
    {
      hide Window, Rounds, Schedule;
      v := h;
      var x := new word[16](i requires 0 <= i < 16 => m[i]);
      assert x[..] == m;
      BeforeRounds(h, m);
      var t := 0;
      while t < ROUNDS
        invariant 0 <= t <= ROUNDS && t % 5 == 0
        invariant v == Rounds(h, Schedule(m), t)
        invariant Window(x[..], m, t)
      {
        v := FiveRounds(x, t, v, h, m, Schedule(m));
        t := t + 5;
      }
    }

    method Transform(data: seq<byte>)
      requires |data| == 64
      modifies this`h0, this`h1, this`h2, this`h3, this`h4
      ensures Chaining() == Compress(old(Chaining()), LoadBlock(order, data))
      ensures forall n: nat :: old(Bounded(n)) ==> Bounded(n + 1)
    {
      var v := EightyRounds(LoadBlock(order, data), Chaining());
      h0 := h0.Plus(v.a);
      h1 := h1.Plus(v.b);
      h2 := h2.Plus(v.c);
      h3 := h3.Plus(v.d);
      h4 := h4.Plus(v.e);
    }

    // The three ways the state takes in data: a byte into the buffer, the full buffer, a whole block.
    method PutByte(b: byte)
      requires Absorbed() && count < 64
      modifies this`count, buf
      ensures Absorbed() && count == old(count) + 1
      ensures Message() == old(Message()) + [b]
    {
      buf[count] := b;
      count := count + 1;
      assert buf[..count] == old(buf[..count]) + [b];
    }

    // process() with a null block
    method Flush()
      requires Absorbed()
      modifies this`h0, this`h1, this`h2, this`h3, this`h4, this`count, this`nblocks, this`done
      ensures Absorbed() && Message() == old(Message())
      ensures old(count) < 64 ==> count == old(count) && done == old(done)
      ensures old(count) == 64 ==> count == 0
    {
      hide Fold, Compress, LoadBlock;
      if count == 64 {
        var data := buf[..];
        FoldOneMore(order, done, data);
        Transform(data);
        count := 0;
        nblocks := nblocks + 1;
        done := done + data;
      }
    }

    method PutBlock(data: seq<byte>)
      requires Absorbed() && count == 0 && |data| == 64
      modifies this`h0, this`h1, this`h2, this`h3, this`h4, this`nblocks, this`done
      ensures Absorbed() && done == old(done) + data
    {
      hide Fold, Compress, LoadBlock;
      FoldOneMore(order, done, data);
      Transform(data);
      nblocks := nblocks + 1;
      done := done + data;
    }

    // The copying loop of process(): bytes of block from position cnt, until it or the buffer ends.
    method FillBuffer(block: seq<byte>, from: nat) returns (cnt: nat)
      requires from <= |block| && Absorbed()
      modifies this`count, buf
      ensures Absorbed() && from <= cnt <= |block|
      ensures Message() == old(Message()) + block[from..cnt] && count == old(count) + (cnt - from)
      ensures cnt == |block| || count == 64
    {
      hide Fold;
      cnt := from;
      while cnt < |block| && count < 64
        invariant Absorbed() && from <= cnt <= |block|
        invariant Message() == old(Message()) + block[from..cnt] && count == old(count) + (cnt - from)
      {
        PutByte(block[cnt]);
        assert block[from..cnt + 1] == block[from..cnt] + [block[cnt]];
        cnt := cnt + 1;
      }
    }

    // The loop of process() over whole blocks.
    method PutBlocks(block: seq<byte>, from: nat) returns (cnt: nat)
      requires from <= |block| && Absorbed() && count == 0
      modifies this`h0, this`h1, this`h2, this`h3, this`h4, this`nblocks, this`done
      ensures Absorbed() && from <= cnt <= |block| < cnt + 64
      ensures done == old(done) + block[from..cnt]
    {
      hide Fold;
      cnt := from;
      while |block| - cnt >= 64
        invariant Absorbed() && from <= cnt <= |block| && done == old(done) + block[from..cnt]
      {
        PutBlock(block[cnt..cnt + 64]);
        assert block[from..cnt + 64] == block[from..cnt] + block[cnt..cnt + 64];
        cnt := cnt + 64;
      }
    }

    // process() with data
    method Process(block: seq<byte>) returns (cnt: int)
      requires Valid()
      modifies this`h0, this`h1, this`h2, this`h3, this`h4, this`count, this`nblocks, this`done, buf
      ensures Valid()
      ensures !init ==> cnt == -1 && count == old(count) && done == old(done) && buf[..] == old(buf[..])
      ensures init ==> cnt == |block| && Message() == old(Message()) + block
    {
      if !init {
        return -1;
      }
      hide Fold, Message;
      Flush();
      cnt := TopUp(block);
      TwoSlices(old(Message()), block, cnt);
      if count == 0 {
        cnt := TakeRest(block, cnt);
      }
    }

    // process() from a block boundary on: whole blocks are compressed, what is left goes into the buffer.
    method TakeRest(block: seq<byte>, from: nat) returns (cnt: int)
      requires Absorbed() && count == 0 && from <= |block|
      modifies this`h0, this`h1, this`h2, this`h3, this`h4, this`count, this`nblocks, this`done, buf
      ensures Absorbed() && count < 64 && cnt == |block| && Message() == old(Message()) + block[from..]
    {
      hide Fold;
      ghost var start := Message();
      assert done == start;
      var second := PutBlocks(block, from);
      assert done == Message();
      cnt := FillBuffer(block, second);
      assert block[from..] == block[from..second] + block[second..];
    }

    // process() while the buffer is not empty: fills it up and flushes it.
    method TopUp(block: seq<byte>) returns (cnt: nat)
      requires Absorbed() && count < 64
      modifies this`h0, this`h1, this`h2, this`h3, this`h4, this`count, this`nblocks, this`done, buf
      ensures Absorbed() && count < 64 && cnt <= |block|
      ensures Message() == old(Message()) + block[..cnt]
      ensures count == 0 || cnt == |block|
    {
      hide Fold;
      cnt := 0;
      if count != 0 {
        cnt := FillBuffer(block, 0);
        Flush();
      }
    }

    // msb and lsb as hash() computes them, in unsigned ints.
    method BitCount() returns (msb: nat, lsb: nat)
      ensures (msb, lsb) == LengthWords(nblocks, count)
    {
      msb := 0;
      var t := nblocks % 0x1_0000_0000;
      lsb := t * 64 % 0x1_0000_0000;
      if lsb < t {
        msb := msb + 1;
      }
      msb := msb + t / 0x400_0000;
      t := lsb;
      lsb := (t + count) % 0x1_0000_0000;
      if lsb < t {
        msb := msb + 1;
      }
      t := lsb;
      lsb := t * 8 % 0x1_0000_0000;
      if lsb < t {
        msb := msb + 1;
      }
      msb := msb + t / 0x2000_0000;
    }

    // A run of zero bytes up to the given count.
    method PutZeros(upto: nat)
      requires Absorbed() && count <= upto <= 64
      modifies this`count, buf
      ensures Absorbed() && count == upto && Message() == old(Message()) + Zeros(upto - old(count))
    {
      hide Fold;
      while count < upto
        invariant Absorbed() && old(count) <= count <= upto
        invariant Message() == old(Message()) + Zeros(count - old(count))
      {
        PutByte(0);
      }
    }

    // The padding: 0x80, then zeros up to the length field of this block or of the next.
    method PadToField()
      requires Valid() && init
      modifies this`h0, this`h1, this`h2, this`h3, this`h4, this`count, this`nblocks, this`done, buf
      ensures Absorbed()
      ensures done + buf[..56] == old(Message()) + [0x80] + Zeros(ZeroCount(|old(Message())|))
    {
      hide Fold, Message, ZeroCount;
      ghost var start := Message();
      PutByte(0x80);
      Left(|start|);
      if count < 56 {
        PutZeros(56);
        FieldNext();
      } else {
        PadNextBlock();
      }
    }

    // What is missing after 0x80: the count follows from the length.
    lemma Left(n: nat)
      requires Absorbed() && |Message()| == n + 1
      ensures ZeroCount(n) == if count < 56 then 56 - count else 64 - count + 56
    {
      hide Fold;
    }

    // With 56 bytes in the buffer the length field comes next.
    lemma FieldNext()
      requires Absorbed() && count == 56
      ensures Message() == done + buf[..56]
    {
    }

    // There is no room for the length field in this block.
    method PadNextBlock()
      requires Absorbed()
      modifies this`h0, this`h1, this`h2, this`h3, this`h4, this`count, this`nblocks, this`done, buf
      ensures Absorbed()
      ensures done + buf[..56] == old(Message()) + Zeros(64 - old(count) + 56)
    {
      hide Fold;
      ghost var open, k := Message(), 64 - count;
      PutZeros(64);
      Flush();
      assert done == Message() == open + Zeros(k);
      forall i | 0 <= i < 56 { buf[i] := 0; }
      assert buf[..56] == Zeros(56);
      ZerosJoin(open, k, 56);
    }

    method CompleteBlock(field: seq<byte>)
      requires Valid() && init && field == LengthField(|Message()|)
      modifies this`h0, this`h1, this`h2, this`h3, this`h4, this`count, this`nblocks, this`done, buf
      ensures Chaining() == Fold(order, Padded(old(Message())))
    {
      hide Fold, LengthField, LengthWords;
      ghost var msg := Message();
      PadToField();
      FinishBlock(field, Padded(msg));
    }

    // The last eight bytes and the last compression.
    method FinishBlock(field: seq<byte>, ghost padded: seq<byte>)
      requires Absorbed() && |field| == 8
      requires padded == done + buf[..56] + field
      modifies this`h0, this`h1, this`h2, this`h3, this`h4, buf
      ensures |padded| % 64 == 0 && Chaining() == Fold(order, padded)
    {
      hide Fold;
      forall i | 0 <= i < 8 { buf[56 + i] := field[i]; }
      var data := buf[..];
      assert data == old(buf[..56]) + field;
      assert done + data == padded;
      FoldOneMore(order, done, data);
      Transform(data);
    }

    // Pads and finishes; the digest is left in the buffer, and a second call returns it again.
    method Hash() returns (digest: seq<byte>)
      requires Valid()
      modifies this`h0, this`h1, this`h2, this`h3, this`h4, this`count, this`nblocks, this`init, this`done, buf
      ensures Valid() && !init && buf[..20] == digest
      ensures old(init) ==> digest == DigestOn(order, old(Message()))
      ensures !old(init) ==> digest == old(buf[..20])
    {
      hide Fold, Message, LengthField, Padded;
      if !init {
        return buf[..20];
      }
      Flush();
      var field := LengthBytes();
      CompleteBlock(field);
      digest := StoreChain(order, Chaining());
      PutDigest(digest);
      init := false;
    }

    method LengthBytes() returns (field: seq<byte>)
      requires Absorbed() && count < 64
      ensures field == LengthField(|Message()|)
    {
      hide Fold, LengthWords;
      var msb, lsb := BitCount();
      assert nblocks == |Message()| / 64 && count == |Message()| % 64;
      field := U32(msb) + U32(lsb);
    }

    method PutDigest(digest: seq<byte>)
      requires buf.Length == 64 && |digest| == 20
      modifies buf
      ensures buf[..20] == digest
    {
      forall i | 0 <= i < 20 { buf[i] := digest[i]; }
    }
  }

  lemma TwoSlices(start: seq<byte>, s: seq<byte>, i: nat)
    requires i <= |s|
    ensures start + s[..i] + s[i..] == start + s && s[..|s|] == s
  {
  }

  lemma ZerosJoin(s: seq<byte>, m: nat, n: nat)
    ensures s + Zeros(m) + Zeros(n) == s + Zeros(m + n)
  {
    assert Zeros(m) + Zeros(n) == Zeros(m + n);
  }

  lemma FoldOneMore(order: ByteOrder, s: seq<byte>, b: seq<byte>)
    requires |s| % 64 == 0 && |b| == 64
    ensures Fold(order, s + b) == Compress(Fold(order, s), LoadBlock(order, b))
  {
    assert (s + b)[..|s|] == s && (s + b)[|s|..] == b;
  }
}
