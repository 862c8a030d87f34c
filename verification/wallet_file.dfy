/** A wallet file: header, digests in the clear, encrypted contents. What BlowfishPersistHandler
    writes, what it reads, and that reading takes back writing. */
module WalletFile {
  import opened Options
  import opened Bytes
  import opened Text
  import opened WalletFormat
  import opened BlowfishRounds
  import opened Blowfish
  import opened Chaining
  import opened Cbc
  import opened Sha1

  // What is fixed for all wallets: the byte order of the host, the cipher's tables and MD5.
  datatype Config = Config(order: ByteOrder, tables: Tables, md5: Md5) {
    ghost predicate Valid()
    {
      tables.Valid()
    }
  }

  const MAGIC: seq<byte> := [0x4b, 0x57, 0x41, 0x4c, 0x4c, 0x45, 0x54, 0x0a, 0x0d, 0x00, 0x0d, 0x0a]
  const CIPHER_BLOWFISH_ECB: byte := 0
  const CIPHER_BLOWFISH_CBC: byte := 3
  const HASH_SHA1: byte := 0
  const HASH_PBKDF2_SHA512: byte := 2

  // Major and minor version, cipher and hash.
  function Version(useNewHash: bool): (v: seq<byte>)
    ensures |v| == 4
  {
    [0, if useNewHash then 1 else 0, CIPHER_BLOWFISH_CBC, if useNewHash then HASH_PBKDF2_SHA512 else HASH_SHA1]
  }

  datatype Handler = NoHandler | BlowfishHandler(useECBforReading: bool)

  // getPersistHandler() on the four version bytes, in a build without GPG.
  function HandlerFor(v: seq<byte>): Handler
    requires |v| == 4
  {
    if (v[2] == CIPHER_BLOWFISH_ECB || v[2] == CIPHER_BLOWFISH_CBC) && (v[3] == HASH_SHA1 || v[3] == HASH_PBKDF2_SHA512)
    then BlowfishHandler(v[2] == CIPHER_BLOWFISH_ECB)
    else NoHandler
  }

  lemma HandlerOfVersion(useNewHash: bool)
    ensures HandlerFor(Version(useNewHash)) == BlowfishHandler(false)
  {
  }

  // ---- The block that is encrypted ----

  // The number of random bytes behind the contents.
  function Delta(size: nat): (d: nat)
    ensures 1 <= d <= 8 && (size + 32 + d) % 8 == 0
  {
    8 - (size + 32) % 8
  }

  // Random block, size, contents, random bytes, digest.
  function Plain(order: ByteOrder, payload: seq<byte>, filler: seq<byte>): (p: seq<byte>)
    requires |filler| == 8 + Delta(|payload|)
    ensures |p| == 32 + |payload| + Delta(|payload|) && |p| % 8 == 0
  {
    filler[..8] + U32(|payload|) + payload + filler[8..] + DigestOn(order, payload)
  }

  // Where each part of the block is.
  lemma PlainLayout(order: ByteOrder, payload: seq<byte>, filler: seq<byte>)
    requires |filler| == 8 + Delta(|payload|) && |payload| < 0x1_0000_0000
    ensures
      var p, n := Plain(order, payload, filler), |payload|;
      && 33 + n <= |p| <= 40 + n && |p| % 8 == 0
      && p[..8] == filler[..8] && SizeAt(p) == n && p[12..12 + n] == payload && p[12 + n..|p| - 20] == filler[8..]
      && p[|p| - 20..] == DigestOn(order, payload) && Sealed(order, p)
  {
    hide U32, FromU32, DigestOn, NatOf;
    var p := Plain(order, payload, filler);
    assert p[8..12] == U32(|payload|);
    U32Order(|payload|);
    assert p[8..12][0] == p[8] && p[8..12][1] == p[9] && p[8..12][2] == p[10] && p[8..12][3] == p[11];
  }

  ghost predicate Accepted(cfg: Config, key: seq<byte>)
    requires cfg.Valid()
  {
    0 < |key| <= 56 && !Weak(Schedule(cfg.tables, key).s)
  }

  ghost function CipherUnder(dir: Direction, cfg: Config, key: seq<byte>): Perm
    requires cfg.Valid() && key != []
  {
    Cipher(dir, cfg.order, Schedule(cfg.tables, key))
  }

  ghost function Encrypted(cfg: Config, key: seq<byte>, plain: seq<byte>): (c: seq<byte>)
    requires cfg.Valid() && key != [] && |plain| % 8 == 0
    ensures |c| == |plain|
  {
    CipherInverse(Encrypting, cfg.order, Schedule(cfg.tables, key), 8);
    Chaining.Encrypt(CipherUnder(Encrypting, cfg, key), 8, Zeros(8), plain)
  }

  // The encrypted part after decrypt(), or None when decrypt() reports an error. A key that is not
  // accepted leaves the data as they are, except when a wallet of former releases is read.
  ghost function Decrypted(cfg: Config, ecb: bool, key: seq<byte>, body: seq<byte>): (r: Option<seq<byte>>)
    requires cfg.Valid() && |body| % 8 == 0
    ensures r.Some? ==> |r.value| == |body|
  {
    if !Accepted(cfg, key) then (if ecb then None else Some(body))
    else if ecb then Some(Buffer(Decrypting, cfg.order, Schedule(cfg.tables, key), body))
    else
      CipherInverse(Decrypting, cfg.order, Schedule(cfg.tables, key), 8);
      Some(Chaining.Decrypt(CipherUnder(Decrypting, cfg, key), 8, Zeros(8), body))
  }

  // ---- Reading ----

  datatype Outcome = Outcome(rc: int, index: Index, entries: Entries)

  // The checks on the decrypted block: the size field, then the digest at its end.
  function Checked(order: ByteOrder, p: seq<byte>): (int, seq<byte>)
  {
    if |p| < 12 || FromU32(p[8..12]) > |p| - 12 then (-9, [])
    else
      var contents := p[12..12 + FromU32(p[8..12])];
      if |p| < 20 || DigestOn(order, contents) != p[|p| - 20..] then (-8, []) else (0, contents)
  }

  // The number in bytes 8 to 11 of a block, the first uppermost.
  function SizeAt(p: seq<byte>): nat
    requires |p| >= 12
  {
    NatOf(p[8]) * 0x100_0000 + NatOf(p[9]) * 0x1_0000 + NatOf(p[10]) * 0x100 + NatOf(p[11])
  }

  // A block that says how long its contents are and ends in their digest.
  predicate Sealed(order: ByteOrder, p: seq<byte>)
  {
    |p| >= 20 && SizeAt(p) <= |p| - 12 && DigestOn(order, p[12..12 + SizeAt(p)]) == p[|p| - 20..]
  }

  // Such blocks alone pass the checks, with those contents; a size that is too large gives -9, a wrong
  // digest -8.
  lemma CheckedExact(order: ByteOrder, p: seq<byte>)
    ensures Checked(order, p).0 == 0 <==> Sealed(order, p)
    ensures Sealed(order, p) ==> Checked(order, p).1 == p[12..12 + SizeAt(p)]
    ensures Checked(order, p).0 == -9 <==> |p| < 12 || SizeAt(p) > |p| - 12
    ensures Checked(order, p).0 == -8 <==> |p| >= 12 && SizeAt(p) <= |p| - 12 && !Sealed(order, p)
    ensures Checked(order, p).0 in {0, -8, -9}
  {
    hide DigestOn, NatOf;
    if |p| >= 12 {
      assert p[8..12][0] == p[8] && p[8..12][1] == p[9] && p[8..12][2] == p[10] && p[8..12][3] == p[11];
    }
  }

  // read() on what follows the header, for a backend that holds the given entries.
  ghost function Read(cfg: Config, ecb: bool, key: seq<byte>, s: seq<byte>, entries: Entries): Outcome
    requires cfg.Valid()
  {
    var (ok, index, body) := TakeIndex(s);
    if !ok then Outcome(-43, index, entries)
    else if |body| % 8 != 0 then Outcome(-5, index, entries)
    else
      match Decrypted(cfg, ecb, key, body)
      case None => Outcome(-6, index, entries)
      case Some(p) =>
        var (rc, contents) := Checked(cfg.order, p);
        if rc != 0 then Outcome(rc, index, entries) else Outcome(0, index, TakeFolders(contents, entries))
  }

  // When reading succeeds, and with which code it does not; then the entries stay as they are.
  lemma ReadExact(cfg: Config, ecb: bool, key: seq<byte>, s: seq<byte>, entries: Entries)
    requires cfg.Valid()
    ensures
      var r := Read(cfg, ecb, key, s, entries);
      var (ok, _, body) := TakeIndex(s);
      && (r.rc == -43 <==> !ok)
      && (r.rc == -5 <==> ok && |body| % 8 != 0)
      && (r.rc == -6 <==> ok && |body| % 8 == 0 && ecb && !Accepted(cfg, key))
      && (ok && |body| % 8 == 0 && !(ecb && !Accepted(cfg, key)) ==>
            && Decrypted(cfg, ecb, key, body).Some?
            && var p := Decrypted(cfg, ecb, key, body).value;
            && (r.rc == 0 <==> Sealed(cfg.order, p))
            && (r.rc == -9 <==> |p| < 12 || SizeAt(p) > |p| - 12)
            && (r.rc == -8 <==> |p| >= 12 && SizeAt(p) <= |p| - 12 && !Sealed(cfg.order, p))
            && (r.rc == 0 ==> r.entries == TakeFolders(p[12..12 + SizeAt(p)], entries)))
      && r.rc in {0, -5, -6, -8, -9, -43}
      && (r.rc != 0 ==> r.entries == entries)
  {
    hide TakeIndex, Decrypted, Sealed, SizeAt, Checked, TakeFolders, Accepted;
    var (ok, _, body) := TakeIndex(s);
    if ok && |body| % 8 == 0 {
      DecryptedExact(cfg, ecb, key, body);
      if Decrypted(cfg, ecb, key, body).Some? {
        ReadBody(cfg, ecb, key, s, entries, Decrypted(cfg, ecb, key, body).value);
      }
    }
  }

  lemma ReadBody(cfg: Config, ecb: bool, key: seq<byte>, s: seq<byte>, entries: Entries, p: seq<byte>)
    requires cfg.Valid() && TakeIndex(s).0 && |TakeIndex(s).2| % 8 == 0 && Decrypted(cfg, ecb, key, TakeIndex(s).2) == Some(p)
    ensures
      var r := Read(cfg, ecb, key, s, entries);
      && (r.rc == 0 <==> Sealed(cfg.order, p))
      && (r.rc == -9 <==> |p| < 12 || SizeAt(p) > |p| - 12)
      && (r.rc == -8 <==> |p| >= 12 && SizeAt(p) <= |p| - 12 && !Sealed(cfg.order, p))
      && (r.rc == 0 ==> r.entries == TakeFolders(p[12..12 + SizeAt(p)], entries))
      && r.rc in {0, -8, -9}
      && (r.rc != 0 ==> r.entries == entries)
  {
    CheckedExact(cfg.order, p);
    SealedFits(cfg.order, p);
    hide TakeIndex, Decrypted, Sealed, SizeAt, Checked, TakeFolders;
  }

  lemma SealedFits(order: ByteOrder, p: seq<byte>)
    ensures Sealed(order, p) ==> |p| >= 20 && SizeAt(p) <= |p| - 12
  {
  }

  // What deciphering gives: with an accepted key the data that enciphering takes back to the body; with
  // another one an error for wallets of former releases, and the body itself for all others.
  lemma DecryptedExact(cfg: Config, ecb: bool, key: seq<byte>, body: seq<byte>)
    requires cfg.Valid() && |body| % 8 == 0
    ensures
      var r := Decrypted(cfg, ecb, key, body);
      && (r == None <==> ecb && !Accepted(cfg, key))
      && (!ecb && !Accepted(cfg, key) ==> r == Some(body))
      && (!ecb && Accepted(cfg, key) ==> Encrypted(cfg, key, r.value) == body)
      && (ecb && Accepted(cfg, key) ==> Buffer(Encrypting, cfg.order, Schedule(cfg.tables, key), r.value) == body)
  {
    hide Schedule, Weak, Buffer;
    if Accepted(cfg, key) {
      if ecb {
        BufferInverse(Decrypting, cfg.order, Schedule(cfg.tables, key), body);
      } else {
        CurrentRoundTrip(cfg.order, Schedule(cfg.tables, key), body);
      }
    }
  }

  // ---- Reading takes back writing ----

  lemma CheckedPlain(order: ByteOrder, payload: seq<byte>, filler: seq<byte>)
    requires |filler| == 8 + Delta(|payload|) && |payload| < 0x1_0000_0000
    ensures Checked(order, Plain(order, payload, filler)) == (0, payload)
  {
    hide U32, FromU32, DigestOn;
    var p := Plain(order, payload, filler);
    assert p[8..12] == U32(|payload|);
    FromU32OfU32(|payload|);
    assert p[12..12 + |payload|] == payload;
    assert p[|p| - 20..] == DigestOn(order, payload);
  }

  lemma DecryptedEncrypted(cfg: Config, key: seq<byte>, plain: seq<byte>)
    requires cfg.Valid() && Accepted(cfg, key) && |plain| % 8 == 0
    ensures Decrypted(cfg, false, key, Encrypted(cfg, key, plain)) == Some(plain)
  {
    hide Schedule;
    CurrentRoundTrip(cfg.order, Schedule(cfg.tables, key), plain);
  }

  // A wallet small enough for the int sizes of the program.
  ghost predicate Fits(entries: Entries)
  {
    |Payload(entries)| + 40 < 0x8000_0000 && SmallFolders(entries) && |entries| < 0x1_0000_0000
  }

  // Everything behind the header, as write() puts it down.
  ghost function Written(cfg: Config, key: seq<byte>, entries: Entries, filler: seq<byte>): seq<byte>
    requires cfg.Valid() && key != [] && |filler| == 8 + Delta(|Payload(entries)|)
  {
    PutIndex(cfg.md5, entries) + Encrypted(cfg, key, Plain(cfg.order, Payload(entries), filler))
  }

  lemma ReadPlain(cfg: Config, ecb: bool, key: seq<byte>, body: seq<byte>, entries: Entries, filler: seq<byte>)
    requires cfg.Valid() && Fits(entries) && |entries| <= MAX_FOLDERS
    requires |filler| == 8 + Delta(|Payload(entries)|) && |body| % 8 == 0
    requires Decrypted(cfg, ecb, key, body) == Some(Plain(cfg.order, Payload(entries), filler))
    ensures Read(cfg, ecb, key, PutIndex(cfg.md5, entries) + body, map[])
              == Outcome(0, FullIndex(cfg.md5, entries), TakeFolders(Payload(entries), map[]))
  {
    hide Checked, Plain, Decrypted, Payload, PutIndex, TakeIndex, FullIndex, TakeFolders;
    IndexRoundTrip(cfg.md5, entries, body);
    CheckedPlain(cfg.order, Payload(entries), filler);
  }

  // For every random filler and every accepted key, reading a written wallet succeeds and yields
  // the same contents and exactly their digests -- if and only if there are not too many folders
  // and every entry has one of the types 1, 2 and 3.
  lemma RoundTrip(cfg: Config, key: seq<byte>, entries: Entries, filler: seq<byte>)
    requires cfg.Valid() && Accepted(cfg, key) && Fits(entries) && |filler| == 8 + Delta(|Payload(entries)|)
    ensures
      var r := Read(cfg, false, key, Written(cfg, key, entries, filler), map[]);
      r == Outcome(0, FullIndex(cfg.md5, entries), Normal(entries)) <==>
        |entries| <= 0xffff && forall f, k :: f in entries && k in entries[f] ==> entries[f][k].etype in {1, 2, 3}
    ensures |entries| > 0xffff ==> Read(cfg, false, key, Written(cfg, key, entries, filler), map[]).rc == -43
  {
    hide Plain, Decrypted, Encrypted, Payload, PutIndex, TakeIndex, FullIndex, TakeFolders, KnownTypes;
    var plain := Plain(cfg.order, Payload(entries), filler);
    var body := Encrypted(cfg, key, plain);
    if |entries| <= MAX_FOLDERS {
      DecryptedEncrypted(cfg, key, plain);
      ReadPlain(cfg, false, key, body, entries, filler);
      PayloadRoundTrip(entries);
    } else {
      IndexRoundTrip(cfg.md5, entries, body);
    }
  }

  // Wallets of former releases, encrypted in one call of the legacy class, are read as well.
  lemma LegacyRoundTrip(cfg: Config, key: seq<byte>, entries: Entries, filler: seq<byte>)
    requires cfg.Valid() && Accepted(cfg, key) && Fits(entries) && |filler| == 8 + Delta(|Payload(entries)|)
    requires |entries| <= 0xffff && forall f, k :: f in entries && k in entries[f] ==> entries[f][k].etype in {1, 2, 3}
    ensures
      var plain := Plain(cfg.order, Payload(entries), filler);
      var body := Buffer(Encrypting, cfg.order, Schedule(cfg.tables, key), plain);
      Read(cfg, true, key, PutIndex(cfg.md5, entries) + body, map[])
        == Outcome(0, FullIndex(cfg.md5, entries), Normal(entries))
  {
    hide Plain, Payload, PutIndex, TakeIndex, FullIndex, TakeFolders, KnownTypes, Buffer, Schedule;
    var plain := Plain(cfg.order, Payload(entries), filler);
    var t := Schedule(cfg.tables, key);
    BufferInverse(Encrypting, cfg.order, t, plain);
    ReadPlain(cfg, true, key, Buffer(Encrypting, cfg.order, t, plain), entries, filler);
    PayloadRoundTrip(entries);
  }

  // ---- Size ----

  lemma {:induction false} IndexFoldersLength(md5: Md5, fs: seq<QString>, entries: Entries)
    requires forall f :: f in fs ==> f in entries
    ensures |PutIndexFolders(md5, fs, entries)| >= 20 * |fs|
    decreases fs
  {
    hide PutDigests;
    if fs != [] {
      IndexFoldersLength(md5, fs[1..], entries);
    }
  }

  // A complete file has at least sixty bytes, and exactly sixty when the wallet has no folders;
  // so no saved wallet is taken for junk.
  lemma FileSize(cfg: Config, key: seq<byte>, entries: Entries, filler: seq<byte>, useNewHash: bool)
    requires cfg.Valid() && key != [] && |filler| == 8 + Delta(|Payload(entries)|)
    ensures
      var file := MAGIC + Version(useNewHash) + Written(cfg, key, entries, filler);
      |file| >= 60 && (|file| == 60 <==> entries == map[])
  {
    hide Encrypted;
    IndexFoldersLength(cfg.md5, Sorted(entries.Keys), entries);
    if entries == map[] {
      assert Payload(entries) == [];
      assert Delta(0) == 8;
      assert |PutIndex(cfg.md5, entries)| == 4;
    } else {
      assert |entries| > 0 by {
        var f :| f in entries;
        assert entries.Keys != {};
      }
    }
  }
}
