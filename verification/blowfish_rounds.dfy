/** The Blowfish permutation over any P-array and S-boxes, and the inverse it has. */
module BlowfishRounds {
  import opened Bytes

  // p holds the eighteen subkeys; s the four S-boxes of 256 words, one behind the other.
  datatype Tables = Tables(p: seq<word>, s: seq<word>) {
    ghost predicate Valid()
    {
      |p| == 18 && |s| == 1024
    }
  }

  // The four bytes of x select one word of each S-box.
  function F(s: seq<word>, x: word): word
    requires |s| == 1024
  {
    Mix(s[NatOf(Byte3(x))], s[256 + NatOf(Byte2(x))], s[512 + NatOf(Byte1(x))], s[768 + NatOf(Byte0(x))])
  }

  function Mix(a: word, b: word, c: word, d: word): word
  {
    Add(XorWord(Add(a, b), c), d)
  }

  // n rounds of encipher(): after each the halves are exchanged.
  function Rounds(t: Tables, n: nat, l: word, r: word): (word, word)
    requires t.Valid() && n <= 18
  {
    if n == 0 then (l, r)
    else
      var (a, b) := Rounds(t, n - 1, l, r);
      var x := XorWord(a, t.p[n - 1]);
      (XorWord(b, F(t.s, x)), x)
  }

  // n rounds of decipher(), which runs through the subkeys from the last one down.
  function RoundsDown(t: Tables, n: nat, l: word, r: word): (word, word)
    requires t.Valid() && n <= 18
  {
    if n == 0 then (l, r)
    else
      var (a, b) := RoundsDown(t, n - 1, l, r);
      var x := XorWord(a, t.p[18 - n]);
      (XorWord(b, F(t.s, x)), x)
  }

  function Encipher(t: Tables, l: word, r: word): (word, word)
    requires t.Valid()
  {
    var (a, b) := Rounds(t, 16, l, r);
    (XorWord(b, t.p[17]), XorWord(a, t.p[16]))
  }

  function Decipher(t: Tables, l: word, r: word): (word, word)
    requires t.Valid()
  {
    var (a, b) := RoundsDown(t, 16, l, r);
    (XorWord(b, t.p[0]), XorWord(a, t.p[1]))
  }

  lemma XorCancels(x: word, y: word)
    ensures XorWord(XorWord(x, y), y) == x
  {
    WordXorTwice(x, y);
  }

  lemma WordXorTwice(x: word, y: word)
    ensures (x ^ y) ^ y == x
  {
  }

  lemma XorCommutes(x: word, y: word)
    ensures XorWord(x, y) == XorWord(y, x)
  {
  }

  lemma XorAssociates(x: word, y: word, z: word)
    ensures XorWord(x, XorWord(y, z)) == XorWord(XorWord(x, y), z)
  {
  }

  lemma XorAround(r: word, f: word, p: word)
    ensures XorWord(XorWord(XorWord(r, f), p), f) == XorWord(r, p)
  {
    hide XorWord;
    XorAssociates(r, f, p);
    XorAssociates(r, p, f);
    XorCommutes(f, p);
    XorCancels(XorWord(r, p), f);
  }

  // n rounds of decipher() on an enciphered pair lead back to where encipher() was n rounds before its
  // end, with the halves exchanged and two subkeys still in place.
  lemma {:induction false} RoundsDownUndo(t: Tables, n: nat, l: word, r: word)
    requires t.Valid() && n <= 16
    ensures
      var (u, v) := Encipher(t, l, r);
      var (a, b) := Rounds(t, 16 - n, l, r);
      RoundsDown(t, n, u, v) == (XorWord(b, t.p[17 - n]), XorWord(a, t.p[16 - n]))
  {
    hide F, Rounds, RoundsDown, XorWord;
    var (u, v) := Encipher(t, l, r);
    if n == 0 {
      NoRoundDown(t, u, v);
    } else {
      RoundsDownUndo(t, n - 1, l, r);
      RoundUp(t, 17 - n, l, r);
      RoundDown(t, n, u, v);
      var (a, b) := Rounds(t, 16 - n, l, r);
      var x := XorWord(a, t.p[16 - n]);
      XorCancels(x, t.p[18 - n]);
      XorAround(b, F(t.s, x), t.p[17 - n]);
    }
  }

  lemma NoRoundDown(t: Tables, l: word, r: word)
    requires t.Valid()
    ensures RoundsDown(t, 0, l, r) == (l, r)
  {
  }

  lemma RoundUp(t: Tables, n: nat, l: word, r: word)
    requires t.Valid() && 0 < n <= 18
    ensures
      var (a, b) := Rounds(t, n - 1, l, r);
      var x := XorWord(a, t.p[n - 1]);
      Rounds(t, n, l, r) == (XorWord(b, F(t.s, x)), x)
  {
    hide F, XorWord;
  }

  lemma RoundDown(t: Tables, n: nat, l: word, r: word)
    requires t.Valid() && 0 < n <= 18
    ensures
      var (a, b) := RoundsDown(t, n - 1, l, r);
      var x := XorWord(a, t.p[18 - n]);
      RoundsDown(t, n, l, r) == (XorWord(b, F(t.s, x)), x)
  {
    hide F, XorWord;
  }

  lemma DecipherEncipher(t: Tables, l: word, r: word)
    requires t.Valid()
    ensures Decipher(t, Encipher(t, l, r).0, Encipher(t, l, r).1) == (l, r)
  {
    hide RoundsDown;
    RoundsDownUndo(t, 16, l, r);
    XorCancels(l, t.p[0]);
    XorCancels(r, t.p[1]);
  }

  // decipher() is encipher() with the subkeys in the opposite order.
  function Reversed(t: Tables): Tables
    requires t.Valid()
    ensures Reversed(t).Valid()
  {
    Tables(seq(18, i requires 0 <= i < 18 => t.p[17 - i]), t.s)
  }

  lemma {:induction false} RoundsReversed(t: Tables, n: nat, l: word, r: word)
    requires t.Valid() && n <= 18
    ensures RoundsDown(t, n, l, r) == Rounds(Reversed(t), n, l, r)
  {
    hide F, XorWord;
    if n > 0 {
      RoundsReversed(t, n - 1, l, r);
      assert Reversed(t).p[n - 1] == t.p[18 - n];
    }
  }

  lemma DecipherReversed(t: Tables, l: word, r: word)
    requires t.Valid()
    ensures Decipher(t, l, r) == Encipher(Reversed(t), l, r)
  {
    hide Rounds, RoundsDown;
    RoundsReversed(t, 16, l, r);
  }

  lemma EncipherDecipher(t: Tables, l: word, r: word)
    requires t.Valid()
    ensures Encipher(t, Decipher(t, l, r).0, Decipher(t, l, r).1) == (l, r)
  {
    hide Encipher, Decipher;
    var t' := Reversed(t);
    var (u, v) := Decipher(t, l, r);
    assert Reversed(t').p == t.p;
    DecipherReversed(t, l, r);
    DecipherReversed(t', u, v);
    DecipherEncipher(t', l, r);
  }
}
