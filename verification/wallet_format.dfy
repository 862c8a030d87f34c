/** The two serialised parts of a wallet file: the digests that stand in the clear, and the
    contents that are encrypted. What the writer puts down and what the reader makes of it. */
module WalletFormat {
  import opened Bytes
  import opened Text
  import opened Stream

  datatype Entry = Entry(key: QString, etype: int32, value: seq<byte>)
  type Folder = map<QString, Entry>
  type Entries = map<QString, Folder>

  type Digest = d: seq<byte> | |d| == 16 witness Zeros(16)
  type Md5 = QString -> Digest
  // folder digest -> digests of its entries
  type Index = map<Digest, seq<Digest>>

  // Password, Stream and Map; the reader knows no other type.
  predicate KnownType(t: int32)
  {
    t == 1 || t == 2 || t == 3
  }

  predicate KnownTypes(entries: Entries)
  {
    forall f | f in entries :: KnownFolder(entries[f])
  }

  predicate KnownFolder(folder: Folder)
  {
    forall k | k in folder :: KnownType(folder[k].etype)
  }

  // Every entry has one of these codes.
  lemma TypesMean(entries: Entries)
    ensures KnownTypes(entries) <==> forall f, k :: f in entries && k in entries[f] ==> entries[f][k].etype in {1, 2, 3}
  {
    if KnownTypes(entries) {
      forall f, k | f in entries && k in entries[f] ensures entries[f][k].etype in {1, 2, 3} {
        assert KnownFolder(entries[f]);
      }
    }
  }

  // ---- Writing ----

  function PutEntries(ks: seq<QString>, folder: Folder): seq<byte>
    requires forall k :: k in ks ==> k in folder
  {
    if ks == [] then []
    else
      var e := folder[ks[0]];
      PutString(ks[0]) + PutInt32(e.etype) + PutBytes(e.value) + PutEntries(ks[1..], folder)
  }

  function PutFolder(name: QString, folder: Folder): seq<byte>
  {
    PutString(name) + U32(|folder|) + PutEntries(Sorted(folder.Keys), folder)
  }

  function PutFolders(fs: seq<QString>, entries: Entries): seq<byte>
    requires forall f :: f in fs ==> f in entries
  {
    if fs == [] then [] else PutFolder(fs[0], entries[fs[0]]) + PutFolders(fs[1..], entries)
  }

  // What is encrypted.
  function Payload(entries: Entries): seq<byte>
  {
    PutFolders(Sorted(entries.Keys), entries)
  }

  function PutDigests(md5: Md5, ks: seq<QString>): seq<byte>
  {
    if ks == [] then [] else md5(ks[0]) + PutDigests(md5, ks[1..])
  }

  function PutIndexFolders(md5: Md5, fs: seq<QString>, entries: Entries): seq<byte>
    requires forall f :: f in fs ==> f in entries
  {
    if fs == [] then []
    else
      var folder := entries[fs[0]];
      md5(fs[0]) + U32(|folder|) + PutDigests(md5, Sorted(folder.Keys)) + PutIndexFolders(md5, fs[1..], entries)
  }

  // What stands in the clear.
  function PutIndex(md5: Md5, entries: Entries): seq<byte>
  {
    U32(|entries|) + PutIndexFolders(md5, Sorted(entries.Keys), entries)
  }

  // One folder with one entry, in full; more of them follow one another.
  lemma OneEntryLayout(f: QString, k: QString, e: Entry)
    ensures Payload(map[f := map[k := e]]) == PutString(f) + U32(1) + PutString(k) + PutInt32(e.etype) + U32(|e.value|) + e.value
  {
    hide PutString, PutInt32, U32, Sorted;
    SortedOne(f);
    SortedOne(k);
    var folder := map[k := e];
    var entries: Entries := map[f := folder];
    assert entries.Keys == {f} && folder.Keys == {k};
    assert PutEntries([], folder) == [] && PutFolders([], entries) == [];
    assert PutEntries([k], folder) == PutString(k) + PutInt32(e.etype) + PutBytes(e.value);
    assert PutFolders([f], entries) == PutFolder(f, folder);
  }

  lemma OneDigestLayout(md5: Md5, f: QString, k: QString, e: Entry)
    ensures PutIndex(md5, map[f := map[k := e]]) == U32(1) + md5(f) + U32(1) + md5(k)
  {
    hide U32, Sorted;
    SortedOne(f);
    SortedOne(k);
    var folder := map[k := e];
    var entries: Entries := map[f := folder];
    assert entries.Keys == {f} && folder.Keys == {k};
    assert PutDigests(md5, []) == [] && PutIndexFolders(md5, [], entries) == [];
    assert PutDigests(md5, [k]) == md5(k);
    assert PutIndexFolders(md5, [f], entries) == md5(f) + U32(1) + md5(k);
  }

  lemma SortedOne(x: QString)
    ensures Sorted({x}) == [x]
  {
  }

  lemma {:induction false} PutFoldersJoin(fs: seq<QString>, gs: seq<QString>, entries: Entries)
    requires forall f :: f in fs || f in gs ==> f in entries
    ensures PutFolders(fs + gs, entries) == PutFolders(fs, entries) + PutFolders(gs, entries)
  {
    hide PutFolder;
    if fs == [] {
      assert fs + gs == gs;
    } else {
      PutFoldersJoin(fs[1..], gs, entries);
      assert (fs + gs)[0] == fs[0] && (fs + gs)[1..] == fs[1..] + gs;
      Reassociate(PutFolder(fs[0], entries[fs[0]]), PutFolders(fs[1..], entries), PutFolders(gs, entries));
    }
  }

  lemma {:induction false} PutEntriesJoin(ks: seq<QString>, ls: seq<QString>, folder: Folder)
    requires forall k :: k in ks || k in ls ==> k in folder
    ensures PutEntries(ks + ls, folder) == PutEntries(ks, folder) + PutEntries(ls, folder)
  {
    hide PutString, PutInt32, PutBytes;
    if ks == [] {
      assert ks + ls == ls;
    } else {
      PutEntriesJoin(ks[1..], ls, folder);
      assert (ks + ls)[0] == ks[0] && (ks + ls)[1..] == ks[1..] + ls;
      var e := folder[ks[0]];
      Reassociate(PutString(ks[0]) + PutInt32(e.etype) + PutBytes(e.value), PutEntries(ks[1..], folder), PutEntries(ls, folder));
    }
  }

  // ---- Reading ----

  // n entries; the value of an entry of unknown type is not consumed.
  function TakeEntries(n: nat, s: seq<byte>, folder: Folder): (r: (Folder, seq<byte>))
    ensures |r.1| <= |s|
  {
    if n == 0 then (folder, s)
    else
      var (key, s1) := TakeString(s);
      var (t, s2) := TakeInt32(s1);
      if !KnownType(t) then TakeEntries(n - 1, s2, folder)
      else
        var (value, s3) := TakeBytes(s2);
        TakeEntries(n - 1, s3, folder[key := Entry(key, t, value)])
  }

  function TakeFolders(s: seq<byte>, entries: Entries): Entries
    decreases |s|
  {
    if s == [] then entries
    else
      var (name, s1) := TakeString(s);
      var (n, s2) := TakeU32(s1);
      var (folder, s3) := TakeEntries(n, s2, map[]);
      TakeFolders(s3, entries[name := folder])
  }

  function TakeDigests(n: nat, s: seq<byte>, digests: seq<Digest>): (r: (seq<Digest>, seq<byte>))
    ensures |r.1| <= |s|
  {
    if n == 0 then (digests, s)
    else
      var (d, rest) := TakeRaw(s, 16);
      TakeDigests(n - 1, rest, digests + [d])
  }

  // n folders of digests; false when the data end before one of them begins.
  function TakeIndexFolders(n: nat, s: seq<byte>, index: Index): (bool, Index, seq<byte>)
  {
    if n == 0 then (true, index, s)
    else if s == [] then (false, index, s)
    else
      var (d, s1) := TakeRaw(s, 16);
      var (size, s2) := TakeU32(s1);
      var (digests, s3) := TakeDigests(size, s2, []);
      TakeIndexFolders(n - 1, s3, index[d := digests])
  }

  const MAX_FOLDERS: nat := 0xffff

  function TakeIndex(s: seq<byte>): (bool, Index, seq<byte>)
  {
    var (n, rest) := TakeU32(s);
    if n > MAX_FOLDERS then (false, map[], rest) else TakeIndexFolders(n, rest, map[])
  }

  // ---- What reading makes of what was written ----

  // Every entry with the key it is stored under, as reading sets it.
  function NormalFolder(folder: Folder): Folder
  {
    map k | k in folder :: Entry(k, folder[k].etype, folder[k].value)
  }

  function Normal(entries: Entries): Entries
  {
    map f | f in entries :: NormalFolder(entries[f])
  }

  // The part of a map at the keys of a list.
  function Part<V>(m: map<QString, V>, ks: seq<QString>): map<QString, V>
  {
    map k | k in ks && k in m :: m[k]
  }

  lemma PartOneMore<V>(acc: map<QString, V>, m: map<QString, V>, ks: seq<QString>)
    requires ks != [] && ks[0] in m
    ensures acc[ks[0] := m[ks[0]]] + Part(m, ks[1..]) == acc + Part(m, ks)
  {
    assert ks == [ks[0]] + ks[1..];
  }

  lemma PartAll<V>(m: map<QString, V>, ks: seq<QString>)
    requires forall k :: k in m ==> k in ks
    ensures Part(m, ks) == m
  {
  }

  lemma {:induction false} TakePutEntries(ks: seq<QString>, folder: Folder, acc: Folder, rest: seq<byte>)
    requires forall k :: k in ks ==> k in folder && KnownType(folder[k].etype)
    requires |PutEntries(ks, folder)| < 0xffff_ffff
    ensures TakeEntries(|ks|, PutEntries(ks, folder) + rest, acc) == (acc + Part(NormalFolder(folder), ks), rest)
    decreases ks
  {
    hide PutString, PutInt32, PutBytes, TakeString, TakeInt32, TakeBytes, Part;
    if ks == [] {
      assert PutEntries(ks, folder) + rest == rest;
      PartOfNothing(NormalFolder(folder), acc);
    } else {
      var k, e := ks[0], folder[ks[0]];
      var more := PutEntries(ks[1..], folder) + rest;
      PieceLengths(k, e.value);
      assert PutEntries(ks, folder) + rest == PutString(k) + (PutInt32(e.etype) + (PutBytes(e.value) + more));
      TakePutString(k, PutInt32(e.etype) + (PutBytes(e.value) + more));
      TakePutInt32(e.etype, PutBytes(e.value) + more);
      TakePutBytes(e.value, more);
      TakePutEntries(ks[1..], folder, acc[k := Entry(k, e.etype, e.value)], rest);
      PartOneMore(acc, NormalFolder(folder), ks);
    }
  }

  // One entry of each type, read back with all that follows: the types 1, 2 and 3 are kept. Of any other
  // key and type are consumed, and the value is taken for what comes next.
  lemma TakePutEntry(k: QString, t: int32, v: seq<byte>, acc: Folder, rest: seq<byte>)
    requires 2 * |k| < 0xffff_ffff && |v| < 0xffff_ffff
    ensures TakeEntries(1, PutString(k) + PutInt32(t) + PutBytes(v) + rest, acc) ==
              if t == 1 || t == 2 || t == 3 then (acc[k := Entry(k, t, v)], rest) else (acc, PutBytes(v) + rest)
  {
    hide PutString, PutInt32, PutBytes, TakeString, TakeInt32, TakeBytes;
    var s := PutString(k) + PutInt32(t) + PutBytes(v) + rest;
    assert s == PutString(k) + (PutInt32(t) + (PutBytes(v) + rest));
    TakePutString(k, PutInt32(t) + (PutBytes(v) + rest));
    TakePutInt32(t, PutBytes(v) + rest);
    TakePutBytes(v, rest);
    var s2 := PutBytes(v) + rest;
    assert TakeEntries(0, s2, acc) == (acc, s2);
    assert TakeEntries(0, rest, acc[k := Entry(k, t, v)]) == (acc[k := Entry(k, t, v)], rest);
  }

  lemma PartOfNothing<V>(m: map<QString, V>, acc: map<QString, V>)
    ensures acc + Part(m, []) == acc
  {
  }

  lemma PieceLengths(k: QString, v: seq<byte>)
    ensures |PutString(k)| == 4 + 2 * |k| && |PutBytes(v)| == 4 + |v|
  {
  }

  lemma {:induction false} EntriesLength(ks: seq<QString>, folder: Folder)
    requires forall k :: k in ks ==> k in folder
    ensures |PutEntries(ks, folder)| >= 12 * |ks|
  {
    if ks != [] {
      EntriesLength(ks[1..], folder);
      PieceLengths(ks[0], folder[ks[0]].value);
      assert |PutInt32(folder[ks[0]].etype)| == 4;
    }
  }

  lemma TakePutFolder(folder: Folder, rest: seq<byte>)
    requires KnownFolder(folder)
    requires |PutEntries(Sorted(folder.Keys), folder)| < 0xffff_ffff
    ensures TakeEntries(|folder|, PutEntries(Sorted(folder.Keys), folder) + rest, map[]) == (NormalFolder(folder), rest)
  {
    hide PutEntries, TakeEntries;
    var ks := Sorted(folder.Keys);
    TakePutEntries(ks, folder, map[], rest);
    PartAll(NormalFolder(folder), ks);
    assert map[] + NormalFolder(folder) == NormalFolder(folder);
  }

  lemma TakeOneFolder(f: QString, folder: Folder, acc: Entries, more: seq<byte>)
    requires KnownFolder(folder)
    requires |PutFolder(f, folder)| < 0xffff_ffff
    ensures TakeFolders(PutFolder(f, folder) + more, acc) == TakeFolders(more, acc[f := NormalFolder(folder)])
  {
    hide PutString, TakeString, TakeU32, PutEntries, TakeEntries, NormalFolder, Sorted, U32;
    var ks := Sorted(folder.Keys);
    var body := PutEntries(ks, folder);
    EntriesLength(ks, folder);
    PieceLengths(f, []);
    var s := PutFolder(f, folder) + more;
    assert s == PutString(f) + (U32(|folder|) + (body + more));
    TakePutString(f, U32(|folder|) + (body + more));
    TakePutU32(|folder|, body + more);
    TakePutFolder(folder, more);
  }

  lemma TakeNothing(acc: Entries)
    ensures TakeFolders([], acc) == acc
  {
  }

  lemma {:induction false} TakePutFolders(fs: seq<QString>, entries: Entries, acc: Entries)
    requires forall f :: f in fs ==> f in entries
    requires KnownTypes(entries)
    requires |PutFolders(fs, entries)| < 0xffff_ffff
    ensures TakeFolders(PutFolders(fs, entries), acc) == acc + Part(Normal(entries), fs)
    decreases fs
  {
    hide PutFolder, NormalFolder, TakeFolders, Part;
    if fs == [] {
      TakeNothing(acc);
      PartOfNothing(Normal(entries), acc);
    } else {
      var f, more := fs[0], PutFolders(fs[1..], entries);
      var acc' := acc[f := NormalFolder(entries[f])];
      assert PutFolders(fs, entries) == PutFolder(f, entries[f]) + more;
      TakeOneFolder(f, entries[f], acc, more);
      TakePutFolders(fs[1..], entries, acc');
      PartOneMore(acc, Normal(entries), fs);
    }
  }

  // Contents of known types come back as they were.
  lemma TakePayload(entries: Entries)
    requires KnownTypes(entries) && |Payload(entries)| < 0xffff_ffff
    ensures TakeFolders(Payload(entries), map[]) == Normal(entries)
  {
    hide TakeFolders, PutFolders;
    var fs := Sorted(entries.Keys);
    TakePutFolders(fs, entries, map[]);
    PartAll(Normal(entries), fs);
    assert map[] + Normal(entries) == Normal(entries);
  }

  // Whatever is read, only known types come out, so contents with another type never come back.
  lemma {:induction false} EntriesKnown(n: nat, s: seq<byte>, folder: Folder)
    requires KnownFolder(folder)
    ensures KnownFolder(TakeEntries(n, s, folder).0)
    decreases n
  {
    hide TakeString, TakeInt32, TakeBytes;
    if n > 0 {
      var (key, s1) := TakeString(s);
      var (t, s2) := TakeInt32(s1);
      if KnownType(t) {
        var (value, s3) := TakeBytes(s2);
        EntriesKnown(n - 1, s3, folder[key := Entry(key, t, value)]);
      } else {
        EntriesKnown(n - 1, s2, folder);
      }
    }
  }

  lemma {:induction false} FoldersKnown(s: seq<byte>, entries: Entries)
    requires KnownTypes(entries)
    ensures KnownTypes(TakeFolders(s, entries))
    decreases |s|
  {
    hide TakeString, TakeU32, TakeEntries;
    if s != [] {
      var (name, s1) := TakeString(s);
      var (n, s2) := TakeU32(s1);
      var (folder, s3) := TakeEntries(n, s2, map[]);
      EntriesKnown(n, s2, map[]);
      FoldersKnown(s3, entries[name := folder]);
    }
  }

  // The contents come back exactly when every entry has one of the three types.
  lemma PayloadRoundTrip(entries: Entries)
    requires |Payload(entries)| < 0xffff_ffff
    ensures TakeFolders(Payload(entries), map[]) == Normal(entries) <==> KnownTypes(entries)
    ensures TakeFolders(Payload(entries), map[]) == Normal(entries) <==>
              forall f, k :: f in entries && k in entries[f] ==> entries[f][k].etype in {1, 2, 3}
  {
    hide TakeFolders, Payload;
    TypesMean(entries);
    if KnownTypes(entries) {
      TakePayload(entries);
    } else {
      FoldersKnown(Payload(entries), map[]);
      NormalKnown(entries);
    }
  }

  lemma NormalKnown(entries: Entries)
    ensures KnownTypes(Normal(entries)) <==> KnownTypes(entries)
  {
    if KnownTypes(Normal(entries)) {
      forall f | f in entries ensures KnownFolder(entries[f]) {
        assert KnownFolder(Normal(entries)[f]);
        assert forall k :: k in entries[f] ==> k in NormalFolder(entries[f]);
      }
    }
  }

  // ---- The index ----

  // What reading the digests back yields: one list per folder digest, the last folder winning.
  function IndexOf(md5: Md5, fs: seq<QString>, entries: Entries, acc: Index): Index
    requires forall f :: f in fs ==> f in entries
    decreases fs
  {
    if fs == [] then acc
    else IndexOf(md5, fs[1..], entries, acc[md5(fs[0]) := Digests(md5, Sorted(entries[fs[0]].Keys))])
  }

  function Digests(md5: Md5, ks: seq<QString>): (r: seq<Digest>)
    ensures |r| == |ks|
    ensures forall i :: 0 <= i < |ks| ==> r[i] == md5(ks[i])
  {
    seq(|ks|, i requires 0 <= i < |ks| => md5(ks[i]))
  }

  lemma {:induction false} TakePutDigests(md5: Md5, ks: seq<QString>, acc: seq<Digest>, rest: seq<byte>)
    ensures TakeDigests(|ks|, PutDigests(md5, ks) + rest, acc) == (acc + Digests(md5, ks), rest)
    decreases ks
  {
    hide TakeRaw;
    if ks == [] {
      assert PutDigests(md5, ks) + rest == rest && acc + Digests(md5, ks) == acc;
    } else {
      assert PutDigests(md5, ks) + rest == md5(ks[0]) + (PutDigests(md5, ks[1..]) + rest);
      TakePutRaw(md5(ks[0]), PutDigests(md5, ks[1..]) + rest);
      TakePutDigests(md5, ks[1..], acc + [md5(ks[0])], rest);
      assert acc + [md5(ks[0])] + Digests(md5, ks[1..]) == acc + Digests(md5, ks);
    }
  }

  lemma TakeOneIndexFolder(md5: Md5, f: QString, folder: Folder, n: nat, acc: Index, more: seq<byte>)
    requires |folder| < 0x1_0000_0000
    ensures
      var ks := Sorted(folder.Keys);
      TakeIndexFolders(n + 1, md5(f) + U32(|folder|) + PutDigests(md5, ks) + more, acc)
        == TakeIndexFolders(n, more, acc[md5(f) := Digests(md5, ks)])
  {
    hide TakeRaw, TakeU32, TakeDigests, PutDigests, Sorted, U32;
    var ks := Sorted(folder.Keys);
    var s := md5(f) + U32(|folder|) + PutDigests(md5, ks) + more;
    assert s == md5(f) + (U32(|folder|) + (PutDigests(md5, ks) + more));
    TakePutRaw(md5(f), U32(|folder|) + (PutDigests(md5, ks) + more));
    TakePutU32(|folder|, PutDigests(md5, ks) + more);
    TakePutDigests(md5, ks, [], more);
    assert [] + Digests(md5, ks) == Digests(md5, ks);
    assert s != [];
  }

  lemma {:induction false} TakePutIndexFolders(md5: Md5, fs: seq<QString>, entries: Entries, acc: Index, rest: seq<byte>)
    requires forall f :: f in fs ==> f in entries && |entries[f]| < 0x1_0000_0000
    ensures TakeIndexFolders(|fs|, PutIndexFolders(md5, fs, entries) + rest, acc) == (true, IndexOf(md5, fs, entries, acc), rest)
    decreases fs
  {
    hide Digests, PutDigests, Sorted, U32, TakeIndexFolders;
    if fs == [] {
      assert PutIndexFolders(md5, fs, entries) + rest == rest;
      TakeNoIndexFolder(rest, acc);
    } else {
      var folder := entries[fs[0]];
      var ks := Sorted(folder.Keys);
      var more := PutIndexFolders(md5, fs[1..], entries) + rest;
      var first := md5(fs[0]) + U32(|folder|) + PutDigests(md5, ks);
      assert PutIndexFolders(md5, fs, entries) + rest == first + more by {
        Reassociate(first, PutIndexFolders(md5, fs[1..], entries), rest);
      }
      TakeOneIndexFolder(md5, fs[0], folder, |fs| - 1, acc, more);
      TakePutIndexFolders(md5, fs[1..], entries, acc[md5(fs[0]) := Digests(md5, ks)], rest);
    }
  }

  lemma TakeNoIndexFolder(rest: seq<byte>, acc: Index)
    ensures TakeIndexFolders(0, rest, acc) == (true, acc, rest)
  {
  }

  lemma Reassociate(a: seq<byte>, b: seq<byte>, c: seq<byte>)
    ensures a + b + c == a + (b + c)
  {
  }

  lemma AtEnd(n: nat, acc: Index)
    requires n > 0
    ensures !TakeIndexFolders(n, [], acc).0
  {
  }

  // When more folders are announced than there are, the reader gives up at the end of the data.
  lemma {:induction false} IndexBreaksOff(md5: Md5, fs: seq<QString>, entries: Entries, n: nat, acc: Index)
    requires n > |fs| && forall f :: f in fs ==> f in entries && |entries[f]| < 0x1_0000_0000
    ensures !TakeIndexFolders(n, PutIndexFolders(md5, fs, entries), acc).0
    decreases fs
  {
    hide Digests, PutDigests, Sorted, U32, TakeIndexFolders;
    if fs == [] {
      AtEnd(n, acc);
    } else {
      var folder, more := entries[fs[0]], PutIndexFolders(md5, fs[1..], entries);
      var ks := Sorted(folder.Keys);
      IndexBreaksOff(md5, fs[1..], entries, n - 1, acc[md5(fs[0]) := Digests(md5, ks)]);
      assert PutIndexFolders(md5, fs, entries) == md5(fs[0]) + U32(|folder|) + PutDigests(md5, ks) + more;
      hide PutIndexFolders;
      TakeOneIndexFolder(md5, fs[0], folder, n - 1, acc, more);
    }
  }

  // The index the reader builds from what the writer put in front of the contents.
  function FullIndex(md5: Md5, entries: Entries): Index
  {
    IndexOf(md5, Sorted(entries.Keys), entries, map[])
  }

  ghost predicate SmallFolders(entries: Entries)
  {
    forall f :: f in entries ==> |entries[f]| < 0x1_0000_0000
  }

  // The digests come back, and the data behind them is found, exactly when the folders are not too many.
  lemma IndexRoundTrip(md5: Md5, entries: Entries, rest: seq<byte>)
    requires SmallFolders(entries) && |entries| < 0x1_0000_0000
    ensures |entries| <= 0xffff ==> TakeIndex(PutIndex(md5, entries) + rest) == (true, FullIndex(md5, entries), rest)
    ensures |entries| > 0xffff ==> !TakeIndex(PutIndex(md5, entries) + rest).0
  {
    hide PutIndexFolders, TakeIndexFolders, TakeU32, U32;
    var fs := Sorted(entries.Keys);
    var body := PutIndexFolders(md5, fs, entries);
    assert PutIndex(md5, entries) + rest == U32(|entries|) + (body + rest);
    TakePutU32(|entries|, body + rest);
    if |entries| <= MAX_FOLDERS {
      TakePutIndexFolders(md5, fs, entries, map[], rest);
    }
  }
}
