/** The BlowFish class: key schedule, and encryption of byte buffers in place. */
module Blowfish {
  import opened Bytes
  import opened Remainders
  import opened BlowfishRounds

  // ---- Bytes of a block ----

  // The macro shuffle, which reverses the bytes of a word.
  function Shuffle(w: word): word
  {
    Join(Byte0(w), Byte1(w), Byte2(w), Byte3(w))
  }

  lemma ShuffleTwice(w: word)
    ensures Shuffle(Shuffle(w)) == w
  {
    BytesOfJoin(Byte0(w), Byte1(w), Byte2(w), Byte3(w));
    JoinOfBytes(w);
  }

  // Half a block as encipher() gets it, and as it goes back to memory.
  function Fetch(order: ByteOrder, b: seq<byte>): word
    requires |b| == 4
  {
    Shuffle(LoadWord(order, b))
  }

  function Put(order: ByteOrder, w: word): (b: seq<byte>)
    ensures |b| == 4
  {
    StoreWord(order, Shuffle(w))
  }

  lemma FetchPut(order: ByteOrder, w: word)
    ensures Fetch(order, Put(order, w)) == w
  {
    hide Shuffle, LoadWord, StoreWord;
    LoadOfStore(order, Shuffle(w));
    ShuffleTwice(w);
  }

  lemma PutFetch(order: ByteOrder, b: seq<byte>)
    requires |b| == 4
    ensures Put(order, Fetch(order, b)) == b
  {
    hide Shuffle, LoadWord, StoreWord;
    ShuffleTwice(LoadWord(order, b));
    StoreOfLoad(order, b);
  }

  datatype Direction = Encrypting | Decrypting {
    function Opposite(): Direction
    {
      if this == Encrypting then Decrypting else Encrypting
    }
  }

  function Apply(dir: Direction, t: Tables, l: word, r: word): (word, word)
    requires t.Valid()
  {
    if dir == Encrypting then Encipher(t, l, r) else Decipher(t, l, r)
  }

  // One block of eight bytes.
  function Block(dir: Direction, order: ByteOrder, t: Tables, b: seq<byte>): (c: seq<byte>)
    requires t.Valid() && |b| == 8
    ensures |c| == 8
  {
    var (l, r) := Apply(dir, t, Fetch(order, b[..4]), Fetch(order, b[4..]));
    Put(order, l) + Put(order, r)
  }

  lemma BlockInverse(dir: Direction, order: ByteOrder, t: Tables, b: seq<byte>)
    requires t.Valid() && |b| == 8
    ensures Block(dir.Opposite(), order, t, Block(dir, order, t, b)) == b
  {
    hide Encipher, Decipher, Fetch, Put;
    var l, r := Fetch(order, b[..4]), Fetch(order, b[4..]);
    var (u, v) := Apply(dir, t, l, r);
    var c := Block(dir, order, t, b);
    assert c[..4] == Put(order, u) && c[4..] == Put(order, v);
    FetchPut(order, u);
    FetchPut(order, v);
    DecipherEncipher(t, l, r);
    EncipherDecipher(t, l, r);
    PutFetch(order, b[..4]);
    PutFetch(order, b[4..]);
    assert b == b[..4] + b[4..];
  }

  // A buffer of whole blocks, block by block.
  function Buffer(dir: Direction, order: ByteOrder, t: Tables, s: seq<byte>): (c: seq<byte>)
    requires t.Valid() && |s| % 8 == 0
    ensures |c| == |s|
  {
    if s == [] then [] else Block(dir, order, t, s[..8]) + Buffer(dir, order, t, s[8..])
  }

  lemma {:induction false} BufferInverse(dir: Direction, order: ByteOrder, t: Tables, s: seq<byte>)
    requires t.Valid() && |s| % 8 == 0
    ensures Buffer(dir.Opposite(), order, t, Buffer(dir, order, t, s)) == s
  {
    hide Block;
    if s != [] {
      var c := Buffer(dir, order, t, s);
      assert c[..8] == Block(dir, order, t, s[..8]) && c[8..] == Buffer(dir, order, t, s[8..]);
      BlockInverse(dir, order, t, s[..8]);
      BufferInverse(dir, order, t, s[8..]);
      assert s == s[..8] + s[8..];
    }
  }

  // ---- Key schedule ----

  function Push(data: word, b: byte): word
  {
    (data << 8) | (b as word)
  }

  // The four key bytes for subkey i; the key is repeated as often as needed.
  function KeyWord(key: seq<byte>, i: nat): word
    requires key != []
  {
    KeyPrefix(key, i, 4)
  }

  // The word after k of its four bytes.
  function KeyPrefix(key: seq<byte>, i: nat, k: nat): word
    requires key != []
  {
    if k == 0 then 0 else Push(KeyPrefix(key, i, k - 1), key[(4 * i + k - 1) % |key|])
  }

  function Keyed(t: Tables, key: seq<byte>): Tables
    requires t.Valid() && key != []
    ensures Keyed(t, key).Valid()
  {
    Tables(seq(18, i requires 0 <= i < 18 => XorWord(t.p[i], KeyWord(key, i))), t.s)
  }

  // The two words that step n of the expansion replaces: first the subkeys, then the S-boxes in order.
  function Replace(t: Tables, n: nat, l: word, r: word): Tables
    requires t.Valid() && n < 521
    ensures Replace(t, n, l, r).Valid()
  {
    if n < 9 then Tables(t.p[2 * n := l][2 * n + 1 := r], t.s)
    else Tables(t.p, t.s[2 * (n - 9) := l][2 * (n - 9) + 1 := r])
  }

  // Tables and last ciphertext after n steps, each of which enciphers the last ciphertext.
  function Expand(t: Tables, n: nat): (r: (Tables, word, word))
    requires t.Valid() && n <= 521
    ensures r.0.Valid()
  {
    if n == 0 then (t, 0, 0)
    else
      var (u, l, r) := Expand(t, n - 1);
      var (l', r') := Encipher(u, l, r);
      (Replace(u, n - 1, l', r'), l', r')
  }

  // The tables a key leads to.
  function Schedule(t: Tables, key: seq<byte>): Tables
    requires t.Valid() && key != []
    ensures Schedule(t, key).Valid()
  {
    Expand(Keyed(t, key), 521).0
  }

  // Two equal words in one S-box make a key weak.
  predicate Repeats(s: seq<word>, i: nat, j: nat)
    requires |s| == 1024 && i < 256 && j < 256
  {
    s[i] == s[j] || s[256 + i] == s[256 + j] || s[512 + i] == s[512 + j] || s[768 + i] == s[768 + j]
  }

  ghost predicate Weak(s: seq<word>)
    requires |s| == 1024
  {
    exists i: nat, j: nat :: i < j < 256 && Repeats(s, i, j)
  }

  class BlowFish {
    const order: ByteOrder
    // the fixed starting tables
    const initial: Tables
    const m_S: array<word>
    const m_P: array<word>
    var m_key: seq<byte>
    var m_keylen: int
    var m_initialized: bool

    ghost predicate Valid()
    {
      initial.Valid() && m_P.Length == 18 && m_S.Length == 1024
    }

    ghost function View(): Tables
      requires Valid()
      reads m_P, m_S
      ensures View().Valid()
    {
      Tables(m_P[..], m_S[..])
    }

    constructor (order: ByteOrder, initial: Tables)
      requires initial.Valid()
      ensures Valid() && !m_initialized && this.order == order && this.initial == initial
      ensures fresh(m_P) && fresh(m_S)
    {
      this.order := order;
      this.initial := initial;
      m_S := new word[1024](_ => 0);
      m_P := new word[18](_ => 0);
      m_key, m_keylen, m_initialized := [], 0, false;
    }

    method Encipher(l: word, r: word) returns (l': word, r': word)
      requires Valid()
      ensures (l', r') == BlowfishRounds.Encipher(View(), l, r)
    {
      hide BlowfishRounds.F;
      l', r' := l, r;
      for i := 0 to 16
        invariant (l', r') == BlowfishRounds.Rounds(View(), i, l, r)
      {
        l' := XorWord(l', m_P[i]);
        var f := F(l');
        r' := XorWord(r', f);
        l', r' := r', l';
      }
      l', r' := r', l';
      r' := XorWord(r', m_P[16]);
      l' := XorWord(l', m_P[17]);
    }

    method Decipher(l: word, r: word) returns (l': word, r': word)
      requires Valid()
      ensures (l', r') == BlowfishRounds.Decipher(View(), l, r)
    {
      hide BlowfishRounds.F;
      l', r' := l, r;
      var i := 17;
      while i > 1
        invariant 1 <= i <= 17
        invariant (l', r') == BlowfishRounds.RoundsDown(View(), 17 - i, l, r)
      {
        l' := XorWord(l', m_P[i]);
        var f := F(l');
        r' := XorWord(r', f);
        l', r' := r', l';
        i := i - 1;
      }
      l', r' := r', l';
      r' := XorWord(r', m_P[1]);
      l' := XorWord(l', m_P[0]);
    }

    method F(x: word) returns (y: word)
      requires Valid()
      ensures y == BlowfishRounds.F(View().s, x)
    {
      hide NatOf, Byte0, Byte1, Byte2, Byte3, Add, XorWord;
      var a, b, c, d := ShiftOut(x);
      y := Add(m_S[NatOf(a)], m_S[256 + NatOf(b)]);
      y := XorWord(y, m_S[512 + NatOf(c)]);
      y := Add(y, m_S[768 + NatOf(d)]);
    }

    // The four bytes are shifted out one by one, the lowest first.
    static method ShiftOut(x: word) returns (a: byte, b: byte, c: byte, d: byte)
      ensures a == Byte3(x) && b == Byte2(x) && c == Byte1(x) && d == Byte0(x)
    {
      var rest := x;
      d := (rest & 0xff) as byte;
      rest := rest >> 8;
      c := (rest & 0xff) as byte;
      rest := rest >> 8;
      b := (rest & 0xff) as byte;
      rest := rest >> 8;
      a := (rest & 0xff) as byte;
    }

    method CopyBoxes()
      requires Valid()
      modifies m_S
      ensures m_S[..] == initial.s
    {
      for i := 0 to 256
        invariant forall k :: 0 <= k < i || 256 <= k < 256 + i || 512 <= k < 512 + i || 768 <= k < 768 + i ==>
            m_S[k] == initial.s[k]
      {
        m_S[i] := initial.s[i];
        m_S[256 + i] := initial.s[256 + i];
        m_S[512 + i] := initial.s[512 + i];
        m_S[768 + i] := initial.s[768 + i];
      }
    }

    // The subkeys xored with the repeated key.
    method MixKey()
      requires Valid() && m_keylen == 8 * |m_key| && m_key != []
      modifies m_P
      ensures m_P[..] == Keyed(initial, m_key).p
    {
      hide KeyWord;
      var n := m_keylen / 8;
      var j := 0;
      for i := 0 to 18
        invariant j == 4 * i % n
        invariant forall k :: 0 <= k < i ==> m_P[k] == XorWord(initial.p[k], KeyWord(m_key, k))
      {
        var data;
        data, j := NextKeyWord(i, j);
        m_P[i] := XorWord(initial.p[i], data);
      }
    }

    // The inner loop: four bytes of the key from position j, starting over at its end.
    method NextKeyWord(ghost i: nat, j: nat) returns (data: word, j': nat)
      requires m_keylen == 8 * |m_key| && m_key != [] && j == 4 * i % |m_key|
      ensures data == KeyWord(m_key, i) && j' == 4 * (i + 1) % |m_key|
    {
      data, j' := 0, j;
      ghost var n := |m_key|;
      for k := 0 to 4
        invariant j' == (4 * i + k) % n
        invariant data == KeyPrefix(m_key, i, k)
      {
        NextRemainder(4 * i + k, n);
        data := Push(data, m_key[j']);
        j' := j' + 1;
        if j' >= m_keylen / 8 {
          j' := 0;
        }
      }
      assert data == KeyPrefix(m_key, i, 4);
      hide Push;
    }

    // One step of the two expansion loops; the results go to places 2 * n and 2 * n + 1.
    method ExpandStep(n: nat, l: word, r: word) returns (l': word, r': word)
      requires Valid() && n < 521
      modifies m_P, m_S
      ensures (l', r') == BlowfishRounds.Encipher(old(View()), l, r)
      ensures View() == Replace(old(View()), n, l', r')
    {
      hide BlowfishRounds.Encipher;
      l', r' := Encipher(l, r);
      if n < 9 {
        m_P[2 * n] := l';
        m_P[2 * n + 1] := r';
      } else {
        m_S[2 * (n - 9)] := l';
        m_S[2 * (n - 9) + 1] := r';
      }
    }

    method ExpandAll()
      requires Valid()
      modifies m_P, m_S
      ensures View() == Expand(old(View()), 521).0
    {
      hide BlowfishRounds.Encipher, Replace;
      ghost var start := View();
      var datal, datar := 0, 0;
      var i := 0;
      while i < 18
        invariant 0 <= i <= 18 && i % 2 == 0
        invariant (View(), datal, datar) == Expand(start, i / 2)
      {
        datal, datar := ExpandStep(i / 2, datal, datar);
        i := i + 2;
      }
      for j := 0 to 4
        invariant (View(), datal, datar) == Expand(start, 9 + 128 * j)
      {
        i := 0;
        while i < 256
          invariant 0 <= i <= 256 && i % 2 == 0
          invariant (View(), datal, datar) == Expand(start, 9 + 128 * j + i / 2)
        {
          datal, datar := ExpandStep(9 + 128 * j + i / 2, datal, datar);
          i := i + 2;
        }
      }
    }

    // The search for a repeated word; true when there is none.
    method Strong() returns (ok: bool)
      requires Valid()
      ensures ok == !Weak(m_S[..])
    {
      hide Repeats;
      for i := 0 to 255
        invariant forall a: nat, b: nat :: a < i && a < b < 256 ==> !Repeats(m_S[..], a, b)
      {
        for j := i + 1 to 256
          invariant forall a: nat, b: nat :: a < i && a < b < 256 ==> !Repeats(m_S[..], a, b)
          invariant forall b: nat :: i < b < j ==> !Repeats(m_S[..], i, b)
        {
          if RepeatsAt(i, j) {
            return false;
          }
        }
      }
      return true;
    }

    predicate RepeatsAt(i: nat, j: nat)
      requires Valid() && i < 256 && j < 256
      reads m_S
      ensures RepeatsAt(i, j) == Repeats(m_S[..], i, j)
    {
      m_S[i] == m_S[j] || m_S[256 + i] == m_S[256 + j] || m_S[512 + i] == m_S[512 + j] || m_S[768 + i] == m_S[768 + j]
    }

    method Init() returns (ok: bool)
      requires Valid() && m_keylen == 8 * |m_key| && m_key != []
      modifies this`m_initialized, m_P, m_S
      ensures View() == Schedule(initial, m_key)
      ensures ok == !Weak(View().s)
      ensures m_initialized == (old(m_initialized) || ok)
    {
      hide Expand, Weak;
      CopyBoxes();
      MixKey();
      assert View() == Keyed(initial, m_key);
      ExpandAll();
      ok := Strong();
      if ok {
        m_initialized := true;
      }
    }

    // A rejected length leaves everything as it was; a weak key leaves its schedule behind
    // and does not take back that an earlier key was good.
    method SetKey(key: seq<byte>, bitlength: int) returns (ok: bool)
      requires Valid() && (0 < bitlength <= 448 ==> bitlength <= 8 * |key|)
      modifies this`m_key, this`m_keylen, this`m_initialized, m_P, m_S
      ensures
        var accepted := 0 < bitlength <= 448 && bitlength % 8 == 0;
        if accepted then
          && View() == Schedule(initial, key[..bitlength / 8])
          && ok == !Weak(View().s)
          && m_initialized == (old(m_initialized) || ok)
        else
          !ok && View() == old(View()) && m_initialized == old(m_initialized)
    {
      hide Schedule, Weak;
      if bitlength <= 0 || bitlength > 448 || bitlength % 8 != 0 {
        return false;
      }
      m_key := key[..bitlength / 8];
      m_keylen := bitlength;
      ok := Init();
    }

    // encrypt() and decrypt() on len bytes of buf from offset at, in place.
    method Crypt(dir: Direction, buf: array<byte>, at: nat, len: nat) returns (rc: int)
      requires Valid() && at + len <= buf.Length
      modifies buf
      ensures !m_initialized || len % 8 != 0 ==> rc == -1 && buf[..] == old(buf[..])
      ensures m_initialized && len % 8 == 0 ==> rc == len
      ensures m_initialized && len % 8 == 0 ==>
        buf[..] == old(buf[..at]) + Buffer(dir, order, View(), old(buf[at..at + len])) + old(buf[at + len..])
    {
      hide Crypted, Buffer, Block;
      if !m_initialized || len % 8 != 0 {
        return -1;
      }
      ghost var was := buf[..];
      CryptedStart(dir, order, View(), was, at);
      var d := at;
      for i := 0 to len / 8
        invariant d == at + 8 * i && View() == old(View())
        invariant Crypted(dir, order, View(), was, buf[..], at, d)
      {
        ghost var now := buf[..];
        CryptBlock(dir, buf, d);
        CryptedNext(dir, order, View(), was, now, buf[..], at, d);
        d := d + 8;
      }
      CryptedEnd(dir, order, View(), was, buf[..], at, d);
      rc := len;
    }

    // One pass of the loop over blocks.
    method CryptBlock(dir: Direction, buf: array<byte>, d: nat)
      requires Valid() && d + 8 <= buf.Length
      modifies buf
      ensures buf[..] == old(buf[..d]) + Block(dir, order, View(), old(buf[d..d + 8])) + old(buf[d + 8..])
    {
      hide BlowfishRounds.Encipher, BlowfishRounds.Decipher, Fetch, Put;
      assert m_P as object != buf && m_S as object != buf;
      assert buf[d..d + 8][..4] == buf[d..d + 4] && buf[d..d + 8][4..] == buf[d + 4..d + 8];
      var l, r := Fetch(order, buf[d..d + 4]), Fetch(order, buf[d + 4..d + 8]);
      if dir == Encrypting {
        l, r := Encipher(l, r);
      } else {
        l, r := Decipher(l, r);
      }
      var x, y := Put(order, l), Put(order, r);
      forall k | 0 <= k < 8 { buf[d + k] := if k < 4 then x[k] else y[k - 4]; }
      assert buf[..] == old(buf[..d]) + (x + y) + old(buf[d + 8..]);
    }
  }

  // Between at and d the blocks are transformed, everywhere else nothing has changed.
  ghost predicate Crypted(dir: Direction, order: ByteOrder, t: Tables, was: seq<byte>, now: seq<byte>, at: nat, d: nat)
    requires t.Valid() && at <= d <= |was| && (d - at) % 8 == 0
  {
    now == was[..at] + Buffer(dir, order, t, was[at..d]) + was[d..]
  }

  lemma CryptedStart(dir: Direction, order: ByteOrder, t: Tables, was: seq<byte>, at: nat)
    requires t.Valid() && at <= |was|
    ensures Crypted(dir, order, t, was, was, at, at)
  {
  }

  lemma CryptedNext(dir: Direction, order: ByteOrder, t: Tables, was: seq<byte>, now: seq<byte>, next: seq<byte>, at: nat, d: nat)
    requires t.Valid() && at <= d && d + 8 <= |was| == |now| && (d - at) % 8 == 0
    requires Crypted(dir, order, t, was, now, at, d)
    requires next == now[..d] + Block(dir, order, t, now[d..d + 8]) + now[d + 8..]
    ensures |next| == |was| && Crypted(dir, order, t, was, next, at, d + 8)
  {
    hide Block, Buffer;
    var done := Buffer(dir, order, t, was[at..d]);
    ThreeParts(now, was[..at], done, was[d..]);
    assert now[..d] == was[..at] + done && now[d..d + 8] == was[d..d + 8] && now[d + 8..] == was[d + 8..];
    assert was[at..d + 8] == was[at..d] + was[d..d + 8];
    BufferOneMore(dir, order, t, was[at..d], was[d..d + 8]);
  }

  lemma CryptedEnd(dir: Direction, order: ByteOrder, t: Tables, was: seq<byte>, now: seq<byte>, at: nat, d: nat)
    requires t.Valid() && at <= d <= |was| && (d - at) % 8 == 0 && Crypted(dir, order, t, was, now, at, d)
    ensures now == was[..at] + Buffer(dir, order, t, was[at..d]) + was[d..]
  {
  }

  lemma ThreeParts(s: seq<byte>, a: seq<byte>, b: seq<byte>, c: seq<byte>)
    requires s == a + b + c
    ensures s[..|a|] == a && s[|a|..|a| + |b|] == b && s[|a| + |b|..] == c
  {
  }

  lemma {:induction false} BufferOneMore(dir: Direction, order: ByteOrder, t: Tables, s: seq<byte>, b: seq<byte>)
    requires t.Valid() && |s| % 8 == 0 && |b| == 8
    ensures Buffer(dir, order, t, s + b) == Buffer(dir, order, t, s) + Block(dir, order, t, b)
  {
    hide Block;
    if s == [] {
      assert (s + b)[..8] == b;
    } else {
      assert (s + b)[..8] == s[..8] && (s + b)[8..] == s[8..] + b;
      BufferOneMore(dir, order, t, s[8..], b);
    }
  }
}
