/** Blowfish as its author describes it, apart from the class: the round function, sixteen rounds with
    the halves exchanged, decryption by the subkeys in reverse order, and the key schedule over all 1042
    words in a row; and that the functions the class is proved against are the same. */
module BlowfishStandard {
  import opened Bytes
  import BlowfishRounds
  import Blowfish

  // ---- The cipher ----

  // Each byte of a half picks a word of its own S-box: add, exclusive or, add.
  function F(s: seq<word>, a: byte, b: byte, c: byte, d: byte): word
    requires |s| == 1024
  {
    Add(XorWord(Add(s[NatOf(a)], s[256 + NatOf(b)]), s[512 + NatOf(c)]), s[768 + NatOf(d)])
  }

  // The rounds from number i on; after each of them the halves are exchanged.
  function From(p: seq<word>, s: seq<word>, i: nat, l: word, r: word): (word, word)
    requires |p| == 18 && |s| == 1024 && i <= 16
    decreases 16 - i
  {
    if i == 16 then (l, r)
    else
      var x := XorWord(l, p[i]);
      From(p, s, i + 1, XorWord(r, F(s, Byte3(x), Byte2(x), Byte1(x), Byte0(x))), x)
  }

  // The last exchange is undone, and the last two subkeys go over the halves.
  function Encrypt(p: seq<word>, s: seq<word>, l: word, r: word): (word, word)
    requires |p| == 18 && |s| == 1024
  {
    var (x, y) := From(p, s, 0, l, r);
    (XorWord(y, p[17]), XorWord(x, p[16]))
  }

  function Decrypt(p: seq<word>, s: seq<word>, l: word, r: word): (word, word)
    requires |p| == 18 && |s| == 1024
  {
    Encrypt(seq(18, i requires 0 <= i < 18 => p[17 - i]), s, l, r)
  }

  // ---- The key schedule ----

  // The key, repeated, in words of four bytes, the first byte uppermost.
  function KeyWord(key: seq<byte>, i: nat): word
    requires key != []
  {
    var n := |key|;
    Join(key[4 * i % n], key[(4 * i + 1) % n], key[(4 * i + 2) % n], key[(4 * i + 3) % n])
  }

  function Keyed(p: seq<word>, key: seq<byte>): (q: seq<word>)
    requires |p| == 18 && key != []
    ensures |q| == 18
  {
    seq(18, i requires 0 <= i < 18 => XorWord(p[i], KeyWord(key, i)))
  }

  // The words w, subkeys first and then the four S-boxes, are replaced two by two, each time by the
  // encryption of the pair before under the words as they are; the first pair encrypts zeros.
  function Expanded(w: seq<word>, k: nat, l: word, r: word): seq<word>
    requires |w| == 1042 && k <= 521
    decreases 521 - k
  {
    if k == 521 then w
    else
      var (x, y) := Encrypt(w[..18], w[18..], l, r);
      Expanded(w[2 * k := x][2 * k + 1 := y], k + 1, x, y)
  }

  function Scheduled(p: seq<word>, s: seq<word>, key: seq<byte>): seq<word>
    requires |p| == 18 && |s| == 1024 && key != []
  {
    Expanded(Keyed(p, key) + s, 0, 0, 0)
  }

  // ---- The same cipher ----

  lemma FIsStandard(s: seq<word>, a: byte, b: byte, c: byte, d: byte)
    requires |s| == 1024
    ensures BlowfishRounds.F(s, Join(a, b, c, d)) == F(s, a, b, c, d)
  {
    BytesOfJoin(a, b, c, d);
    hide Byte0, Byte1, Byte2, Byte3, Join, NatOf, Add, XorWord;
  }

  lemma FOfWord(s: seq<word>, x: word)
    requires |s| == 1024
    ensures BlowfishRounds.F(s, x) == F(s, Byte3(x), Byte2(x), Byte1(x), Byte0(x))
  {
    hide F, BlowfishRounds.F, Byte0, Byte1, Byte2, Byte3, Join;
    JoinOfBytes(x);
    FIsStandard(s, Byte3(x), Byte2(x), Byte1(x), Byte0(x));
  }

  // One round more at the end is one round less to come.
  lemma OneRound(t: BlowfishRounds.Tables, i: nat, l: word, r: word)
    requires t.Valid() && i < 16
    ensures
      var (a, b) := BlowfishRounds.Rounds(t, i, l, r);
      var (c, d) := BlowfishRounds.Rounds(t, i + 1, l, r);
      From(t.p, t.s, i, a, b) == From(t.p, t.s, i + 1, c, d)
  {
    hide F, BlowfishRounds.F, BlowfishRounds.Rounds, Byte0, Byte1, Byte2, Byte3, XorWord;
    var (a, b) := BlowfishRounds.Rounds(t, i, l, r);
    BlowfishRounds.RoundUp(t, i + 1, l, r);
    FOfWord(t.s, XorWord(a, t.p[i]));
  }

  lemma {:induction false} RoundsFrom(t: BlowfishRounds.Tables, i: nat, l: word, r: word)
    requires t.Valid() && i <= 16
    ensures
      var (a, b) := BlowfishRounds.Rounds(t, i, l, r);
      From(t.p, t.s, 0, l, r) == From(t.p, t.s, i, a, b)
  {
    if i == 0 {
    } else {
      hide From, BlowfishRounds.Rounds;
      RoundsFrom(t, i - 1, l, r);
      OneRound(t, i - 1, l, r);
    }
  }

  lemma EncipherIsStandard(t: BlowfishRounds.Tables, l: word, r: word)
    requires t.Valid()
    ensures BlowfishRounds.Encipher(t, l, r) == Encrypt(t.p, t.s, l, r)
  {
    hide BlowfishRounds.Rounds, XorWord, F;
    RoundsFrom(t, 16, l, r);
    var (a, b) := BlowfishRounds.Rounds(t, 16, l, r);
  }

  lemma DecipherIsStandard(t: BlowfishRounds.Tables, l: word, r: word)
    requires t.Valid()
    ensures BlowfishRounds.Decipher(t, l, r) == Decrypt(t.p, t.s, l, r)
  {
    hide BlowfishRounds.Decipher, BlowfishRounds.Encipher, Encrypt;
    var t' := BlowfishRounds.Reversed(t);
    BlowfishRounds.DecipherReversed(t, l, r);
    EncipherIsStandard(t', l, r);
    assert t'.p == seq(18, i requires 0 <= i < 18 => t.p[17 - i]);
  }

  // ---- The same schedule ----

  lemma PushesJoin(a: byte, b: byte, c: byte, d: byte)
    ensures Blowfish.Push(Blowfish.Push(Blowfish.Push(Blowfish.Push(0, a), b), c), d) == Join(a, b, c, d)
  {
  }

  lemma KeyWordIsStandard(key: seq<byte>, i: nat)
    requires key != []
    ensures Blowfish.KeyWord(key, i) == KeyWord(key, i)
  {
    hide Blowfish.Push, Join;
    var n := |key|;
    PushesJoin(key[4 * i % n], key[(4 * i + 1) % n], key[(4 * i + 2) % n], key[(4 * i + 3) % n]);
    PrefixStep(key, i, 1);
    PrefixStep(key, i, 2);
    PrefixStep(key, i, 3);
    PrefixStep(key, i, 4);
    hide Blowfish.KeyPrefix;
    NoPrefix(key, i);
  }

  lemma NoPrefix(key: seq<byte>, i: nat)
    requires key != []
    ensures Blowfish.KeyPrefix(key, i, 0) == 0
  {
  }

  lemma PrefixStep(key: seq<byte>, i: nat, k: nat)
    requires key != [] && k > 0
    ensures Blowfish.KeyPrefix(key, i, k) == Blowfish.Push(Blowfish.KeyPrefix(key, i, k - 1), key[(4 * i + k - 1) % |key|])
  {
    hide Blowfish.Push;
  }

  lemma KeyedIsStandard(t: BlowfishRounds.Tables, key: seq<byte>)
    requires t.Valid() && key != []
    ensures Blowfish.Keyed(t, key).p == Keyed(t.p, key) && Blowfish.Keyed(t, key).s == t.s
  {
    hide Blowfish.KeyWord, KeyWord, XorWord;
    forall i | 0 <= i < 18 ensures Blowfish.Keyed(t, key).p[i] == Keyed(t.p, key)[i] {
      KeyWordIsStandard(key, i);
    }
  }

  // The words in a row.
  function Row(t: BlowfishRounds.Tables): (w: seq<word>)
    requires t.Valid()
    ensures |w| == 1042 && w[..18] == t.p && w[18..] == t.s
  {
    t.p + t.s
  }

  lemma RowReplaced(t: BlowfishRounds.Tables, n: nat, l: word, r: word)
    requires t.Valid() && n < 521
    ensures Row(Blowfish.Replace(t, n, l, r)) == Row(t)[2 * n := l][2 * n + 1 := r]
  {
  }

  lemma {:induction false} ExpandIsStandard(t: BlowfishRounds.Tables, n: nat)
    requires t.Valid() && n <= 521
    ensures
      var (u, l, r) := Blowfish.Expand(t, n);
      Expanded(Row(t), 0, 0, 0) == Expanded(Row(u), n, l, r)
  {
    hide Encrypt, BlowfishRounds.Encipher, Row, Blowfish.Replace, Expanded, Blowfish.Expand;
    if n == 0 {
      NothingExpanded(t);
    } else {
      ExpandIsStandard(t, n - 1);
      ExpandStep(t, n);
      var (u, l, r) := Blowfish.Expand(t, n - 1);
      ExpandedStep(Row(u), n - 1, l, r);
      EncipherIsStandard(u, l, r);
      var (x, y) := Encrypt(u.p, u.s, l, r);
      RowReplaced(u, n - 1, x, y);
    }
  }

  lemma NothingExpanded(t: BlowfishRounds.Tables)
    requires t.Valid()
    ensures Blowfish.Expand(t, 0) == (t, 0, 0)
  {
  }

  lemma ExpandStep(t: BlowfishRounds.Tables, n: nat)
    requires t.Valid() && 0 < n <= 521
    ensures
      var (u, l, r) := Blowfish.Expand(t, n - 1);
      var (x, y) := BlowfishRounds.Encipher(u, l, r);
      Blowfish.Expand(t, n) == (Blowfish.Replace(u, n - 1, x, y), x, y)
  {
    hide BlowfishRounds.Encipher, Blowfish.Replace;
  }

  lemma ExpandedStep(w: seq<word>, k: nat, l: word, r: word)
    requires |w| == 1042 && k < 521
    ensures
      var (x, y) := Encrypt(w[..18], w[18..], l, r);
      Expanded(w, k, l, r) == Expanded(w[2 * k := x][2 * k + 1 := y], k + 1, x, y)
  {
    hide Encrypt;
  }

  // For all tables and keys.
  lemma ScheduleIsStandard(t: BlowfishRounds.Tables, key: seq<byte>)
    requires t.Valid() && key != []
    ensures
      var u := Blowfish.Schedule(t, key);
      u.p + u.s == Scheduled(t.p, t.s, key)
  {
    hide Blowfish.Expand, Expanded, Keyed;
    KeyedIsStandard(t, key);
    var u := Blowfish.Keyed(t, key);
    ExpandIsStandard(u, 521);
    assert Row(u) == Keyed(t.p, key) + t.s;
    AllExpanded(Row(Blowfish.Schedule(t, key)), Blowfish.Expand(u, 521).1, Blowfish.Expand(u, 521).2);
  }

  lemma AllExpanded(w: seq<word>, l: word, r: word)
    requires |w| == 1042
    ensures Expanded(w, 521, l, r) == w
  {
  }

  // A key is weak when one of the four S-boxes it leads to has two equal words.
  lemma WeakMeans(s: seq<word>)
    requires |s| == 1024
    ensures Blowfish.Weak(s) <==>
      exists box: nat, i: nat, j: nat :: box < 4 && i < j < 256 && SameWords(s, box, i, j)
  {
    if Blowfish.Weak(s) {
      var i: nat, j: nat :| i < j < 256 && Blowfish.Repeats(s, i, j);
      assert SameWords(s, 0, i, j) || SameWords(s, 1, i, j) || SameWords(s, 2, i, j) || SameWords(s, 3, i, j);
    }
    if box: nat, i: nat, j: nat :| box < 4 && i < j < 256 && SameWords(s, box, i, j) {
      assert Blowfish.Repeats(s, i, j);
    }
  }

  predicate SameWords(s: seq<word>, box: nat, i: nat, j: nat)
    requires |s| == 1024 && box < 4 && i < 256 && j < 256
  {
    s[256 * box + i] == s[256 * box + j]
  }

  // ---- The same blocks ----

  // On a little-endian host a block is two words with the first byte uppermost, as the author has it.
  lemma BlockIsStandard(t: BlowfishRounds.Tables, b: seq<byte>)
    requires t.Valid() && |b| == 8
    ensures
      var (l, r) := Encrypt(t.p, t.s, Join(b[0], b[1], b[2], b[3]), Join(b[4], b[5], b[6], b[7]));
      Blowfish.Block(Blowfish.Encrypting, LittleEndian, t, b)
        == [Byte3(l), Byte2(l), Byte1(l), Byte0(l), Byte3(r), Byte2(r), Byte1(r), Byte0(r)]
    ensures
      var (l, r) := Decrypt(t.p, t.s, Join(b[0], b[1], b[2], b[3]), Join(b[4], b[5], b[6], b[7]));
      Blowfish.Block(Blowfish.Decrypting, LittleEndian, t, b)
        == [Byte3(l), Byte2(l), Byte1(l), Byte0(l), Byte3(r), Byte2(r), Byte1(r), Byte0(r)]
  {
    hide Encrypt, Decrypt, BlowfishRounds.Encipher, BlowfishRounds.Decipher, Join, Byte0, Byte1, Byte2, Byte3, Blowfish.Fetch, Blowfish.Put;
    FetchLittle(b[..4]);
    FetchLittle(b[4..]);
    var l, r := Join(b[0], b[1], b[2], b[3]), Join(b[4], b[5], b[6], b[7]);
    EncipherIsStandard(t, l, r);
    DecipherIsStandard(t, l, r);
    PutLittle(Encrypt(t.p, t.s, l, r).0);
    PutLittle(Encrypt(t.p, t.s, l, r).1);
    PutLittle(Decrypt(t.p, t.s, l, r).0);
    PutLittle(Decrypt(t.p, t.s, l, r).1);
  }

  // On a big-endian host every four bytes are taken, and put back, in reverse.
  lemma BlockOnBigEndian(t: BlowfishRounds.Tables, b: seq<byte>)
    requires t.Valid() && |b| == 8
    ensures
      var (l, r) := Encrypt(t.p, t.s, Join(b[3], b[2], b[1], b[0]), Join(b[7], b[6], b[5], b[4]));
      Blowfish.Block(Blowfish.Encrypting, BigEndian, t, b)
        == [Byte0(l), Byte1(l), Byte2(l), Byte3(l), Byte0(r), Byte1(r), Byte2(r), Byte3(r)]
    ensures
      var (l, r) := Decrypt(t.p, t.s, Join(b[3], b[2], b[1], b[0]), Join(b[7], b[6], b[5], b[4]));
      Blowfish.Block(Blowfish.Decrypting, BigEndian, t, b)
        == [Byte0(l), Byte1(l), Byte2(l), Byte3(l), Byte0(r), Byte1(r), Byte2(r), Byte3(r)]
  {
    hide Encrypt, Decrypt, BlowfishRounds.Encipher, BlowfishRounds.Decipher, Join, Byte0, Byte1, Byte2, Byte3, Blowfish.Fetch, Blowfish.Put;
    FetchBig(b[..4]);
    FetchBig(b[4..]);
    var l, r := Join(b[3], b[2], b[1], b[0]), Join(b[7], b[6], b[5], b[4]);
    EncipherIsStandard(t, l, r);
    DecipherIsStandard(t, l, r);
    PutBig(Encrypt(t.p, t.s, l, r).0);
    PutBig(Encrypt(t.p, t.s, l, r).1);
    PutBig(Decrypt(t.p, t.s, l, r).0);
    PutBig(Decrypt(t.p, t.s, l, r).1);
  }

  lemma FetchBig(b: seq<byte>)
    requires |b| == 4
    ensures Blowfish.Fetch(BigEndian, b) == Join(b[3], b[2], b[1], b[0])
  {
    hide Join, Byte0, Byte1, Byte2, Byte3;
    BytesOfJoin(b[0], b[1], b[2], b[3]);
  }

  lemma PutBig(w: word)
    ensures Blowfish.Put(BigEndian, w) == [Byte0(w), Byte1(w), Byte2(w), Byte3(w)]
  {
    hide Join, Byte0, Byte1, Byte2, Byte3;
    BytesOfJoin(Byte0(w), Byte1(w), Byte2(w), Byte3(w));
  }

  lemma FetchLittle(b: seq<byte>)
    requires |b| == 4
    ensures Blowfish.Fetch(LittleEndian, b) == Join(b[0], b[1], b[2], b[3])
  {
    hide Join, Byte0, Byte1, Byte2, Byte3;
    BytesOfJoin(b[3], b[2], b[1], b[0]);
  }

  lemma PutLittle(w: word)
    ensures Blowfish.Put(LittleEndian, w) == [Byte3(w), Byte2(w), Byte1(w), Byte0(w)]
  {
    hide Join, Byte0, Byte1, Byte2, Byte3;
    BytesOfJoin(Byte0(w), Byte1(w), Byte2(w), Byte3(w));
  }
}
