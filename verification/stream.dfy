/** The QDataStream encodings a wallet file uses. Reading is total, as it is in Qt: past the end of
    the data a number reads as zero and a string or byte array as empty. */
module Stream {
  import opened Bytes
  import opened Text

  type int32 = x: int | -0x8000_0000 <= x < 0x8000_0000

  // ---- Writing ----

  function PutUnits(s: QString): (r: seq<byte>)
    ensures |r| == 2 * |s|
  {
    if s == [] then [] else [Truncated(s[0] / 0x100), Truncated(s[0])] + PutUnits(s[1..])
  }

  function PutString(s: QString): seq<byte>
  {
    U32(2 * |s|) + PutUnits(s)
  }

  function PutBytes(b: seq<byte>): seq<byte>
  {
    U32(|b|) + b
  }

  function PutInt32(x: int32): seq<byte>
  {
    U32(if x < 0 then x + 0x1_0000_0000 else x)
  }

  // ---- Reading: the value and what is left of the data ----

  function TakeU32(s: seq<byte>): (r: (nat, seq<byte>))
    ensures r.0 < 0x1_0000_0000 && |r.1| <= |s|
    ensures s != [] ==> |r.1| < |s|
  {
    if |s| < 4 then (0, []) else (FromU32(s[..4]), s[4..])
  }

  function TakeInt32(s: seq<byte>): (r: (int32, seq<byte>))
    ensures |r.1| <= |s|
  {
    var (n, rest) := TakeU32(s);
    (if n >= 0x8000_0000 then n - 0x1_0000_0000 else n, rest)
  }

  // readRawData(); bytes that are missing are taken to be zero.
  function TakeRaw(s: seq<byte>, n: nat): (r: (seq<byte>, seq<byte>))
    ensures |r.0| == n && |r.1| <= |s|
  {
    if |s| < n then (s + Zeros(n - |s|), []) else (s[..n], s[n..])
  }

  // A byte array; the length 0xffffffff stands for a null one.
  function TakeBytes(s: seq<byte>): (r: (seq<byte>, seq<byte>))
    ensures |r.1| <= |s|
  {
    var (n, rest) := TakeU32(s);
    if n == 0xffff_ffff then ([], rest)
    else if |rest| < n then ([], [])
    else (rest[..n], rest[n..])
  }

  function TakeUnits(s: seq<byte>): QString
    requires |s| % 2 == 0
  {
    if s == [] then [] else [NatOf(s[0]) * 0x100 + NatOf(s[1])] + TakeUnits(s[2..])
  }

  // A string; an odd length is refused without reading on.
  function TakeString(s: seq<byte>): (r: (QString, seq<byte>))
    ensures |r.1| <= |s|
    ensures s != [] ==> |r.1| < |s|
  {
    var (n, rest) := TakeU32(s);
    if n == 0xffff_ffff || n % 2 == 1 then ([], rest)
    else if |rest| < n then ([], [])
    else (TakeUnits(rest[..n]), rest[n..])
  }

  // ---- Byte by byte ----

  // A string: its size in bytes, then each code unit with its upper byte first.
  lemma {:induction false} UnitBytes(s: QString, i: nat)
    requires i < |s|
    ensures PutUnits(s)[2 * i] == Truncated(s[i] / 0x100) && PutUnits(s)[2 * i + 1] == Truncated(s[i])
  {
    hide Truncated;
    if i > 0 {
      UnitBytes(s[1..], i - 1);
      assert PutUnits(s)[2 * i] == PutUnits(s[1..])[2 * (i - 1)];
      assert PutUnits(s)[2 * i + 1] == PutUnits(s[1..])[2 * (i - 1) + 1];
    }
  }

  lemma StringBytes(s: QString)
    requires 2 * |s| < 0x1_0000_0000
    ensures
      var b := PutString(s);
      && |b| == 4 + 2 * |s| && b[..4] == U32(2 * |s|)
      && forall i :: 0 <= i < |s| ==> NatOf(b[4 + 2 * i]) == s[i] / 0x100 && NatOf(b[5 + 2 * i]) == s[i] % 0x100
  {
    hide U32, NatOf, Truncated, PutUnits;
    forall i | 0 <= i < |s|
      ensures NatOf(PutString(s)[4 + 2 * i]) == s[i] / 0x100 && NatOf(PutString(s)[5 + 2 * i]) == s[i] % 0x100
    {
      UnitBytes(s, i);
      NatOfTruncated(s[i] / 0x100);
      NatOfTruncated(s[i]);
    }
  }

  // Past the end, and where a length stands for nothing or cannot be right.
  lemma PastTheEnd(s: seq<byte>)
    ensures |s| < 4 ==> TakeU32(s) == (0, []) && TakeInt32(s) == (0, []) && TakeString(s) == ([], []) && TakeBytes(s) == ([], [])
    ensures |s| >= 4 && FromU32(s[..4]) == 0xffff_ffff ==> TakeString(s) == ([], s[4..]) && TakeBytes(s) == ([], s[4..])
    ensures |s| >= 4 && FromU32(s[..4]) < 0xffff_ffff && FromU32(s[..4]) > |s| - 4 ==> TakeBytes(s) == ([], [])
    ensures |s| >= 4 && FromU32(s[..4]) < 0xffff_ffff ==>
      TakeString(s) == if FromU32(s[..4]) % 2 == 1 then ([], s[4..])
                       else if FromU32(s[..4]) > |s| - 4 then ([], [])
                       else (TakeUnits(s[4..4 + FromU32(s[..4])]), s[4 + FromU32(s[..4])..])
  {
    hide FromU32;
    assert TakeUnits([]) == [];
    hide TakeUnits;
    if |s| >= 4 && FromU32(s[..4]) <= |s| - 4 {
      var n := FromU32(s[..4]);
      assert s[4..][..n] == s[4..4 + n] && s[4..][n..] == s[4 + n..];
    }
  }

  // ---- Round trips ----

  lemma TakePutU32(n: nat, rest: seq<byte>)
    requires n < 0x1_0000_0000
    ensures TakeU32(U32(n) + rest) == (n, rest)
  {
    hide U32, FromU32;
    FromU32OfU32(n);
    assert (U32(n) + rest)[..4] == U32(n) && (U32(n) + rest)[4..] == rest;
  }

  lemma TakePutInt32(x: int32, rest: seq<byte>)
    ensures TakeInt32(PutInt32(x) + rest) == (x, rest)
  {
    TakePutU32(if x < 0 then x + 0x1_0000_0000 else x, rest);
  }

  lemma TakePutRaw(b: seq<byte>, rest: seq<byte>)
    ensures TakeRaw(b + rest, |b|) == (b, rest)
  {
    assert (b + rest)[..|b|] == b && (b + rest)[|b|..] == rest;
  }

  lemma TakePutBytes(b: seq<byte>, rest: seq<byte>)
    requires |b| < 0xffff_ffff
    ensures TakeBytes(PutBytes(b) + rest) == (b, rest)
  {
    hide U32;
    assert PutBytes(b) + rest == U32(|b|) + (b + rest);
    TakePutU32(|b|, b + rest);
    TakePutRaw(b, rest);
  }

  lemma TakePutUnit(u: CodeUnit)
    ensures NatOf(Truncated(u / 0x100)) * 0x100 + NatOf(Truncated(u)) == u
  {
    hide NatOf, Truncated;
    NatOfTruncated(u / 0x100);
    NatOfTruncated(u);
  }

  lemma {:induction false} TakePutUnits(s: QString)
    ensures TakeUnits(PutUnits(s)) == s
  {
    if s != [] {
      hide Truncated, NatOf;
      TakePutUnit(s[0]);
      TakePutUnits(s[1..]);
      assert PutUnits(s)[2..] == PutUnits(s[1..]);
    }
  }

  lemma TakePutString(s: QString, rest: seq<byte>)
    requires 2 * |s| < 0xffff_ffff
    ensures TakeString(PutString(s) + rest) == (s, rest)
  {
    hide U32, FromU32, PutUnits, TakeUnits;
    var b := PutUnits(s);
    assert PutString(s) + rest == U32(2 * |s|) + (b + rest);
    TakePutU32(2 * |s|, b + rest);
    assert 2 * |s| % 2 == 0;
    assert (b + rest)[..|b|] == b && (b + rest)[|b|..] == rest;
    TakePutUnits(s);
  }
}
