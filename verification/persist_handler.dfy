/** BlowfishPersistHandler: write() and read(), step by step, against the layout in module WalletFile. */
module PersistHandler {
  import opened Options
  import opened Bytes
  import opened Text
  import opened Stream
  import opened WalletFormat
  import opened WalletFile
  import opened Blowfish
  import opened Cbc
  import opened Sha1

  // Fills an array from position at with the bytes of s, one by one.
  method Fill(a: array<byte>, at: nat, s: seq<byte>)
    requires at + |s| <= a.Length
    modifies a
    ensures a[..at + |s|] == old(a[..at]) + s
  {
    for i := 0 to |s|
      invariant a[..at + i] == old(a[..at]) + s[..i]
    {
      a[at + i] := s[i];
      assert a[..at + i + 1] == a[..at + i] + [s[i]];
    }
  }

  lemma Regroup(a: seq<byte>, b: seq<byte>, c: seq<byte>)
    ensures a + b + c == a + (b + c)
  {
  }

  // Folder i comes first in what is left to write.
  lemma FolderPut(md5: Md5, fs: seq<QString>, i: nat, entries: Entries, hs: seq<byte>, ds: seq<byte>)
    requires i < |fs| && forall f :: f in fs ==> f in entries
    requires hs == md5(fs[i]) + U32(|entries[fs[i]]|) + PutDigests(md5, Sorted(entries[fs[i]].Keys))
    requires ds == PutFolder(fs[i], entries[fs[i]])
    ensures PutIndexFolders(md5, fs[i..], entries) == hs + PutIndexFolders(md5, fs[i + 1..], entries)
    ensures PutFolders(fs[i..], entries) == ds + PutFolders(fs[i + 1..], entries)
  {
    hide PutFolder, PutDigests, Sorted, U32;
    assert fs[i..][0] == fs[i] && fs[i..][1..] == fs[i + 1..];
  }

  // The generator is not part of the model: any bytes may come.
  method RandomBytes(n: nat) returns (r: seq<byte>)
    ensures |r| == n
  {
    var a := new byte[n];
    r := a[..];
  }

  class BlowfishPersistHandler {
    const cfg: Config
    var useECBforReading: bool

    constructor (cfg: Config, useECBforReading: bool)
      ensures this.cfg == cfg && this.useECBforReading == useECBforReading
    {
      this.cfg := cfg;
      this.useECBforReading := useECBforReading;
    }

    // The two streams of write(): digests and contents, folder by folder.
    method Serialise(entries: Entries) returns (hashes: seq<byte>, decrypted: seq<byte>)
      ensures hashes == PutIndex(cfg.md5, entries) && decrypted == Payload(entries)
    {
      hide PutFolder, PutDigests, PutEntries, Sorted, U32;
      var fs := Sorted(entries.Keys);
      hashes := U32(|entries|);
      decrypted := [];
      ghost var h, d := PutIndex(cfg.md5, entries), Payload(entries);
      assert fs[0..] == fs && [] + PutFolders(fs, entries) == d;
      for i := 0 to |fs|
        invariant hashes + PutIndexFolders(cfg.md5, fs[i..], entries) == h
        invariant decrypted + PutFolders(fs[i..], entries) == d
      {
        var hs, ds := SerialiseFolder(fs[i], entries[fs[i]]);
        FolderPut(cfg.md5, fs, i, entries, hs, ds);
        hide PutIndexFolders, PutFolders;
        Regroup(hashes, hs, PutIndexFolders(cfg.md5, fs[i + 1..], entries));
        Regroup(decrypted, ds, PutFolders(fs[i + 1..], entries));
        hashes := hashes + hs;
        decrypted := decrypted + ds;
      }
      assert hashes + [] == hashes && decrypted + [] == decrypted;
    }

    method SerialiseFolder(name: QString, folder: Folder) returns (hashes: seq<byte>, decrypted: seq<byte>)
      ensures hashes == cfg.md5(name) + U32(|folder|) + PutDigests(cfg.md5, Sorted(folder.Keys))
      ensures decrypted == PutFolder(name, folder)
    {
      hide PutString, PutInt32, PutBytes, Sorted, U32;
      var ks := Sorted(folder.Keys);
      decrypted := PutString(name) + U32(|folder|);
      hashes := cfg.md5(name) + U32(|folder|);
      var j := 0;
      while j < |ks|
        invariant 0 <= j <= |ks|
        invariant hashes + PutDigests(cfg.md5, ks[j..]) == cfg.md5(name) + U32(|folder|) + PutDigests(cfg.md5, ks)
        invariant decrypted + PutEntries(ks[j..], folder) == PutFolder(name, folder)
      {
        ghost var h, d := hashes, decrypted;
        var e := folder[ks[j]];
        decrypted := decrypted + PutString(ks[j]);
        decrypted := decrypted + PutInt32(e.etype);
        decrypted := decrypted + PutBytes(e.value);
        hashes := hashes + cfg.md5(ks[j]);
        assert ks[j..][1..] == ks[j + 1..];
        assert decrypted + PutEntries(ks[j + 1..], folder) == d + PutEntries(ks[j..], folder);
        assert hashes + PutDigests(cfg.md5, ks[j + 1..]) == h + PutDigests(cfg.md5, ks[j..]);
        j := j + 1;
      }
      assert ks[j..] == [];
      assert hashes + [] == hashes && decrypted + [] == decrypted;
    }

    // A fresh SHA1 object over the given data.
    method Digest(data: seq<byte>) returns (hash: seq<byte>)
      ensures hash == DigestOn(cfg.order, data)
    {
      hide DigestOn;
      var sha := new SHA1(cfg.order);
      var n := sha.Process(data);
      assert [] + data == data;
      hash := sha.Hash();
    }

    // The block that is encrypted, filled in place.
    method Assemble(decrypted: seq<byte>) returns (wholeFile: array<byte>, ghost filler: seq<byte>)
      requires |decrypted| + 40 < 0x8000_0000
      ensures fresh(wholeFile)
      ensures |filler| == 8 + Delta(|decrypted|) && wholeFile[..] == Plain(cfg.order, decrypted, filler)
    {
      hide DigestOn, U32;
      var newsize := |decrypted| + 8 + 4 + 20;
      var delta := 8 - newsize % 8;
      newsize := newsize + delta;
      wholeFile := new byte[newsize];
      var randBlock := RandomBytes(8 + delta);
      filler := randBlock;
      Fill(wholeFile, 0, randBlock[..8]);
      assert wholeFile[..8] == randBlock[..8] by { assert wholeFile[..0] == []; }
      Fill(wholeFile, 8, U32(|decrypted|));
      Fill(wholeFile, 12, decrypted);
      Fill(wholeFile, 12 + |decrypted|, randBlock[8..]);
      ghost var front := wholeFile[..newsize - 20];
      assert front == randBlock[..8] + U32(|decrypted|) + decrypted + randBlock[8..];
      var hash := Digest(decrypted);
      Fill(wholeFile, newsize - 20, hash);
      assert wholeFile[..] == wholeFile[..newsize] == front + hash;
    }

    // setKey() and encrypt() on the assembled block.
    method EncryptFile(wholeFile: array<byte>, passhash: seq<byte>) returns (rc: int)
      requires cfg.Valid() && wholeFile.Length % 8 == 0 && wholeFile.Length > 0
      modifies wholeFile
      ensures rc >= 0 <==> Accepted(cfg, passhash)
      ensures rc >= 0 ==> wholeFile[..] == Encrypted(cfg, passhash, old(wholeFile[..]))
    {
      hide Schedule, Weak, Chaining.Encrypt;
      var bf := new BlowFish(cfg.order, cfg.tables);
      var cbc := new CipherBlockChain(bf, false);
      assert passhash[..|passhash| * 8 / 8] == passhash;
      var ok := bf.SetKey(passhash, |passhash| * 8);
      if !ok {
        return -1;
      }
      rc := cbc.Encrypt(wholeFile);
    }

    // Writes version, digests and encrypted contents; -2 means the key was not accepted, -4 that the
    // device did not take the header or, after the encryption, the rest.
    method Write(entries: Entries, useNewHash: bool, passhash: seq<byte>, headerTaken: bool, bodyTaken: bool)
        returns (rc: int, out: seq<byte>, ghost filler: seq<byte>)
      requires cfg.Valid() && Fits(entries)
      modifies this
      ensures !useECBforReading
      ensures rc == if !headerTaken then -4 else if !Accepted(cfg, passhash) then -2 else if !bodyTaken then -4 else 0
      ensures rc == 0 ==> |filler| == 8 + Delta(|Payload(entries)|) &&
                          out == Version(useNewHash) + Written(cfg, passhash, entries, filler)
    {
      hide PutIndex, Payload, Accepted, Encrypted, Plain;
      useECBforReading := false;
      out, filler := Version(useNewHash), [];
      var hashes, decrypted := Serialise(entries);
      if !headerTaken {
        return -4, out, filler;
      }
      out := out + hashes;
      var wholeFile;
      wholeFile, filler := Assemble(decrypted);
      rc := EncryptFile(wholeFile, passhash);
      if rc < 0 {
        return -2, out, filler;
      }
      if !bodyTaken {
        return -4, out, filler;
      }
      out := out + wholeFile[..];
      rc := 0;
    }

    // The digests in the clear.
    method ReadIndex(db: seq<byte>) returns (ok: bool, index: Index, rest: seq<byte>)
      ensures (ok, index, rest) == TakeIndex(db)
    {
      hide TakeRaw, TakeU32, TakeDigests;
      index := map[];
      var (n, s0) := TakeU32(db);
      rest := s0;
      if n > MAX_FOLDERS {
        return false, index, rest;
      }
      ghost var target := TakeIndexFolders(n, rest, index);
      var i := 0;
      while i < n
        invariant 0 <= i <= n && TakeIndexFolders(n - i, rest, index) == target
      {
        if rest == [] {
          return false, index, rest;
        }
        var (d, s1) := TakeRaw(rest, 16);
        var (size, s2) := TakeU32(s1);
        ghost var before := index;
        index := index[d := []];
        index, rest := ReadDigests(d, size, index, s2);
        assert index == before[d := index[d]];
        i := i + 1;
      }
      ok := true;
    }

    // The inner loop: size digests, appended to the list of folder d.
    method ReadDigests(d: Digest, size: nat, index: Index, s: seq<byte>) returns (index': Index, rest: seq<byte>)
      requires d in index && index[d] == []
      ensures var r := TakeDigests(size, s, []); index' == index[d := r.0] && rest == r.1
    {
      hide TakeRaw;
      index', rest := index, s;
      var j := 0;
      while j < size
        invariant 0 <= j <= size && d in index' && index' == index[d := index'[d]]
        invariant TakeDigests(size - j, rest, index'[d]) == TakeDigests(size, s, [])
      {
        var (d2, s1) := TakeRaw(rest, 16);
        index' := index'[d := index'[d] + [d2]];
        rest := s1;
        j := j + 1;
      }
    }

    // The decrypted contents, put into the entries the backend holds.
    method Load(contents: seq<byte>, entries: Entries) returns (entries': Entries)
      ensures entries' == TakeFolders(contents, entries)
    {
      hide TakeString, TakeU32, TakeEntries;
      var s := contents;
      entries' := entries;
      while s != []
        invariant TakeFolders(s, entries') == TakeFolders(contents, entries)
        decreases |s|
      {
        var (folder, s1) := TakeString(s);
        var (n, s2) := TakeU32(s1);
        ghost var before := entries';
        entries' := entries'[folder := map[]];
        entries', s := LoadFolder(folder, n, entries', s2);
        assert entries' == before[folder := entries'[folder]];
      }
    }

    method LoadFolder(folder: QString, n: nat, entries: Entries, s: seq<byte>) returns (entries': Entries, rest: seq<byte>)
      requires folder in entries && entries[folder] == map[]
      ensures var r := TakeEntries(n, s, map[]); entries' == entries[folder := r.0] && rest == r.1
    {
      hide TakeString, TakeInt32, TakeBytes;
      entries', rest := entries, s;
      var i := 0;
      while i < n
        invariant 0 <= i <= n && folder in entries' && entries' == entries[folder := entries'[folder]]
        invariant TakeEntries(n - i, rest, entries'[folder]) == TakeEntries(n, s, map[])
      {
        var (key, s1) := TakeString(rest);
        var (x, s2) := TakeInt32(s1);
        rest := s2;
        i := i + 1;
        if !KnownType(x) {
          continue;
        }
        var (a, s3) := TakeBytes(rest);
        rest := s3;
        entries' := entries'[folder := entries'[folder][key := Entry(key, x, a)]];
      }
    }

    // The size field and the digest.
    method Check(encrypted: seq<byte>) returns (rc: int, contents: seq<byte>)
      requires |encrypted| % 8 == 0
      ensures (rc, contents) == Checked(cfg.order, encrypted)
      ensures rc == 0 <==> Sealed(cfg.order, encrypted)
      ensures rc == 0 ==> contents == encrypted[12..12 + SizeAt(encrypted)]
      ensures rc == -9 <==> |encrypted| < 12 || SizeAt(encrypted) > |encrypted| - 12
      ensures rc == -8 <==> |encrypted| >= 12 && SizeAt(encrypted) <= |encrypted| - 12 && !Sealed(cfg.order, encrypted)
    {
      CheckedExact(cfg.order, encrypted);
      hide DigestOn, FromU32, Sealed, SizeAt;
      if |encrypted| < 12 {
        return -9, [];
      }
      var fsize := SizeField(encrypted);
      if fsize > |encrypted| - 8 - 4 {
        return -9, [];
      }
      var testhash := Digest(encrypted[12..12 + fsize]);
      if |encrypted| < 20 {
        return -8, [];
      }
      var same := SameDigest(testhash, encrypted);
      if !same {
        return -8, [];
      }
      rc, contents := 0, encrypted[12..12 + fsize];
    }

    // The size, byte by byte.
    static method SizeField(encrypted: seq<byte>) returns (fsize: nat)
      requires |encrypted| >= 12
      ensures fsize == FromU32(encrypted[8..12])
    {
      hide NatOf;
      var t := 8;
      fsize := NatOf(encrypted[t]) * 0x100_0000;
      t := t + 1;
      fsize := fsize + NatOf(encrypted[t]) * 0x1_0000;
      t := t + 1;
      fsize := fsize + NatOf(encrypted[t]) * 0x100;
      t := t + 1;
      fsize := fsize + NatOf(encrypted[t]);
    }

    // The last twenty bytes against the digest, left at the first difference.
    static method SameDigest(testhash: seq<byte>, encrypted: seq<byte>) returns (same: bool)
      requires |testhash| == 20 <= |encrypted|
      ensures same <==> testhash == encrypted[|encrypted| - 20..]
    {
      var sz := |encrypted|;
      ghost var end := encrypted[sz - 20..];
      same := true;
      for i := 0 to 20
        invariant same && forall k :: 0 <= k < i ==> testhash[k] == end[k]
      {
        if testhash[i] != encrypted[sz - 20 + i] {
          assert end[i] == encrypted[sz - 20 + i];
          same := false;
          break;
        }
      }
    }

    // decrypt() with a cipher set to the key; the result of setKey() is not looked at.
    method DecryptBody(body: seq<byte>, passhash: seq<byte>) returns (rc: int, encrypted: seq<byte>)
      requires cfg.Valid() && |body| % 8 == 0
      ensures var r := Decrypted(cfg, useECBforReading, passhash, body);
              if rc < 0 then r == None else r == Some(encrypted)
    {
      hide Schedule, Weak, Buffer, Chaining.Decrypt;
      var data := new byte[|body|](i requires 0 <= i < |body| => body[i]);
      assert data[..] == body;
      var bf := new BlowFish(cfg.order, cfg.tables);
      var cbc := new CipherBlockChain(bf, useECBforReading);
      assert passhash[..|passhash| * 8 / 8] == passhash;
      var ok := bf.SetKey(passhash, |passhash| * 8);
      assert ok == Accepted(cfg, passhash);
      rc := cbc.Decrypt(data);
      encrypted := data[..];
    }

    // Reads what follows the header. The caller's key is wiped when wiped is set.
    method Read(db: seq<byte>, passhash: seq<byte>, entries: Entries)
        returns (rc: int, index: Index, entries': Entries, wiped: bool)
      requires cfg.Valid()
      ensures Outcome(rc, index, entries') == WalletFile.Read(cfg, useECBforReading, passhash, db, entries)
      ensures wiped <==> rc == -6
    {
      hide TakeIndex, Decrypted, Checked, TakeFolders;
      entries', wiped := entries, false;
      var ok, encrypted;
      ok, index, encrypted := ReadIndex(db);
      if !ok {
        return -43, index, entries, false;
      }
      if |encrypted| % 8 != 0 {
        return -5, index, entries, false;
      }
      rc, encrypted := DecryptBody(encrypted, passhash);
      if rc < 0 {
        return -6, index, entries, true;
      }
      var contents;
      rc, contents := Check(encrypted);
      if rc != 0 {
        CheckedExact(cfg.order, encrypted);
        return rc, index, entries, false;
      }
      entries' := Load(contents, entries);
    }
  }
}
