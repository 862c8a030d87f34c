/** The codes a Backend returns, one by one: when opening, loading and saving succeed, why they fail,
    and what a failure leaves as it was. Magic bytes, versions and codes are given as numbers. */
module BackendCodes {
  import opened Options
  import opened Bytes
  import opened Text
  import opened WalletFormat
  import opened WalletFile
  import opened Blowfish
  import opened BlowfishStandard
  import opened BackendState
  import opened BackendRuns
  import PasswordHash

  // A key is accepted when it has one to 56 bytes and its schedule no S-box with the same word twice.
  lemma AcceptedExact(cfg: Config, key: seq<byte>)
    requires cfg.Valid()
    ensures Accepted(cfg, key) <==>
      && 1 <= |key| <= 56
      && var s := Schedule(cfg.tables, key).s;
         forall box: nat, i: nat, j: nat :: box < 4 && i < j < 256 ==> !SameWords(s, box, i, j)
  {
    if key != [] {
      hide Schedule, Weak, SameWords;
      WeakMeans(Schedule(cfg.tables, key).s);
    }
  }

  // ---- Loading ----

  predicate Readable(env: Env, st: State)
  {
    Path(env, st) in st.files && |st.files[Path(env, st)]| >= 16 && st.health.canRead
  }

  predicate Magic(file: seq<byte>)
    requires |file| >= 16
  {
    file[..12] == [0x4b, 0x57, 0x41, 0x4c, 0x4c, 0x45, 0x54, 0x0a, 0x0d, 0x00, 0x0d, 0x0a]
  }

  // Version 0.0 or 0.1
  predicate KnownRevision(file: seq<byte>)
    requires |file| >= 16
  {
    file[12] == 0 && (file[13] == 0 || file[13] == 1)
  }

  // Blowfish block by block or chained, SHA-1 or PBKDF2
  predicate KnownCipher(file: seq<byte>)
    requires |file| >= 16
  {
    (file[14] == 0 || file[14] == 3) && (file[15] == 0 || file[15] == 2)
  }

  predicate KnownHeader(file: seq<byte>)
    requires |file| >= 16
  {
    Magic(file) && KnownRevision(file) && KnownCipher(file)
  }

  // The key by which a file is read: the new one for version 0.1, if there is one.
  function KeyFor(st: State, file: seq<byte>): seq<byte>
    requires |file| >= 16
  {
    if file[13] == 1 && st.useNewHash then st.newPassHash else st.passhash
  }

  // What follows the digests of the index, deciphered.
  ghost function BodyUnder(env: Env, key: seq<byte>, file: seq<byte>): Option<seq<byte>>
    requires env.cfg.Valid() && |file| >= 16
  {
    var (ok, _, body) := TakeIndex(file[16..]);
    if ok && |body| % 8 == 0 then Decrypted(env.cfg, file[14] == 0, key, body) else None
  }

  // A key opens a file when the header is known, the index complete, and what it deciphers says how
  // long its contents are and ends in their digest.
  ghost predicate Opens(env: Env, key: seq<byte>, file: seq<byte>)
    requires env.cfg.Valid()
  {
    && |file| >= 16 && KnownHeader(file)
    && BodyUnder(env, key, file).Some? && Sealed(env.cfg.order, BodyUnder(env, key, file).value)
  }

  // The contents of a file that the key opens.
  ghost function ContentsUnder(env: Env, key: seq<byte>, file: seq<byte>): seq<byte>
    requires env.cfg.Valid() && Opens(env, key, file)
  {
    var p := BodyUnder(env, key, file).value;
    p[12..12 + SizeAt(p)]
  }

  predicate SameDisk(st: State, st': State)
  {
    st'.files == st.files && st'.salts == st.salts && st'.name == st.name && st'.health == st.health
  }

  // The header decides between four codes and the handler.
  lemma HeaderExact(env: Env, st: State)
    requires env.cfg.Valid()
    ensures
      var rc := Load(env, st).0;
      && (!Readable(env, st) ==> rc == -2)
      && (Readable(env, st) ==>
            var file := st.files[Path(env, st)];
            && (!Magic(file) ==> rc == -3)
            && (Magic(file) && !KnownRevision(file) ==> rc == -4)
            && (Magic(file) && KnownRevision(file) && !KnownCipher(file) ==> rc == -41)
            && (KnownHeader(file) ==>
                  Load(env, st) == ReadIn(env, if file[13] == 1 then SwapToNewHash(st) else st, file[14] == 0, file[16..])))
  {
    hide ReadIn;
    if Readable(env, st) {
      var file := st.files[Path(env, st)];
      assert file[12..16][0] == file[12] && file[12..16][1] == file[13] && file[12..16][2] == file[14] && file[12..16][3] == file[15];
    }
  }

  // What the handler makes of a file with a known header, read under some key.
  lemma BodyExact(env: Env, key: seq<byte>, file: seq<byte>, entries: Entries)
    requires env.cfg.Valid() && |file| >= 16 && KnownHeader(file)
    ensures
      var r := WalletFile.Read(env.cfg, file[14] == 0, key, file[16..], entries);
      && (r.rc == 0 <==> Opens(env, key, file))
      && (r.rc != 0 ==> r.entries == entries)
      && (r.rc == 0 ==> r.entries == TakeFolders(ContentsUnder(env, key, file), entries))
      && r.rc in {0, -43, -5, -6, -8, -9}
  {
    hide TakeIndex, Decrypted, Sealed, WalletFile.Read, KnownHeader, TakeFolders, SizeAt, Accepted;
    ReadExact(env.cfg, file[14] == 0, key, file[16..], entries);
    var (ok, _, body) := TakeIndex(file[16..]);
    if ok && |body| % 8 == 0 {
      DecryptedExact(env.cfg, file[14] == 0, key, body);
    }
  }

  // Loading succeeds exactly when the key opens the file. Otherwise the wallet is not opened by it, its
  // entries and files stay, and the code tells what was wrong.
  lemma LoadExact(env: Env, st: State)
    requires env.cfg.Valid()
    ensures
      var (rc, st') := Load(env, st);
      && (rc == -2 <==> !Readable(env, st))
      && (rc != 0 ==> st'.open == st.open && st'.entries == st.entries)
      && SameDisk(st, st')
      && (Readable(env, st) ==>
            var file := st.files[Path(env, st)];
            && (rc == 0 <==> Opens(env, KeyFor(st, file), file))
            && (rc == -3 <==> !Magic(file))
            && (rc == -4 <==> Magic(file) && !KnownRevision(file))
            && (rc == -41 <==> Magic(file) && KnownRevision(file) && !KnownCipher(file))
            && (rc == 0 ==> st'.open && st'.passhash == KeyFor(st, file) &&
                            st'.entries == TakeFolders(ContentsUnder(env, KeyFor(st, file), file), st.entries)))
      && rc in {0, -2, -3, -4, -41, -43, -5, -6, -8, -9}
  {
    hide WalletFile.Read, Magic, KnownRevision, KnownCipher, BodyUnder, ContentsUnder, TakeFolders, Sealed;
    HeaderExact(env, st);
    if Readable(env, st) {
      var file := st.files[Path(env, st)];
      assert Opens(env, KeyFor(st, file), file) ==> KnownHeader(file);
      hide Opens;
      if KnownHeader(file) {
        hide Load;
        BodyExact(env, KeyFor(st, file), file, st.entries);
      } else {
        LoadRefused(env, st);
      }
    }
  }

  // A failure in the header leaves all but the key in use as it was.
  lemma LoadRefused(env: Env, st: State)
    requires env.cfg.Valid() && Readable(env, st) && !KnownHeader(st.files[Path(env, st)])
    ensures Load(env, st).1.open == st.open && Load(env, st).1.entries == st.entries && SameDisk(st, Load(env, st).1)
  {
    hide WalletFile.Read;
  }

  // The codes for what follows a known header: the index breaks off or has too many folders, the rest is
  // no whole number of blocks, the key is not accepted (then it is blanked), the size is too large, the
  // digest is wrong.
  lemma BodyCodes(env: Env, st: State)
    requires env.cfg.Valid() && Readable(env, st) && KnownHeader(st.files[Path(env, st)])
    ensures
      var (rc, st') := Load(env, st);
      var file := st.files[Path(env, st)];
      var key := KeyFor(st, file);
      var (ok, _, body) := TakeIndex(file[16..]);
      && (rc == -43 <==> !ok)
      && (rc == -5 <==> ok && |body| % 8 != 0)
      && (rc == -6 <==> ok && |body| % 8 == 0 && file[14] == 0 && !Accepted(env.cfg, key))
      && (rc == -6 ==> st'.passhash == Zeros(|key|))
      && (BodyUnder(env, key, file).Some? ==>
            var p := BodyUnder(env, key, file).value;
            && (rc == -9 <==> |p| < 12 || SizeAt(p) > |p| - 12)
            && (rc == -8 <==> |p| >= 12 && SizeAt(p) <= |p| - 12 && !Sealed(env.cfg.order, p)))
  {
    hide TakeIndex, Decrypted, Sealed, WalletFile.Read, KnownHeader, SizeAt, Accepted, TakeFolders;
    HeaderExact(env, st);
    hide Load;
    var file := st.files[Path(env, st)];
    var key := KeyFor(st, file);
    ReadExact(env.cfg, file[14] == 0, key, file[16..], st.entries);
    var (ok, _, body) := TakeIndex(file[16..]);
    if ok && |body| % 8 == 0 {
      DecryptedExact(env.cfg, file[14] == 0, key, body);
    }
  }

  // ---- Opening ----

  // Which salt a password is derived with, what is left as salt file, and which keys come of it.
  lemma PasswordExact(env: Env, st: State, pw: seq<byte>, drawn: seq<byte>)
    requires |drawn| == 56
    ensures
      var st' := SetPassword(env, st, pw, drawn);
      var path, h := Path(env, st), st.health;
      var found := path in st.salts && st.salts[path] != [] && h.canReadSalt;
      var salt := if found then st.salts[path] else if h.salting == SaltWritten then drawn else [];
      && (found ==> st'.salts == st.salts)
      && (!found ==> st'.salts == match h.salting
                                case NotOpened => st.salts - {path}
                                case Partly(left) => st.salts[path := left]
                                case SaltWritten => st.salts[path := drawn])
      && st'.passhash == PasswordHash.Key(env.cfg.order, pw)
      && (salt != [] && h.canDerive ==> st'.newPassHash == env.kdf(pw, salt) && st'.useNewHash)
      && (salt == [] || !h.canDerive ==> st'.newPassHash == Zeros(56) && st'.useNewHash == st.useNewHash)
      && st' == st.(passhash := st'.passhash, newPassHash := st'.newPassHash, useNewHash := st'.useNewHash, salts := st'.salts)
  {
    hide PasswordHash.Key;
  }

  // A complete file is there.
  predicate OnDisk(env: Env, st: State)
  {
    Path(env, st) in st.files && |st.files[Path(env, st)]| >= 60
  }

  // The key that a password stands for when the file there is opened with it.
  function KeyOf(env: Env, st: State, pw: seq<byte>, salt: seq<byte>): seq<byte>
    requires OnDisk(env, st)
  {
    KeyFor(SetPassword(env, st, pw, salt), st.files[Path(env, st)])
  }

  // Opening a wallet that is there succeeds exactly when the file can be read and the password's key
  // opens it. A wrong password leaves the wallet closed, without contents, and its file as it was.
  lemma OpenExact(env: Env, st: State, pw: seq<byte>, rnd: Random)
    requires env.cfg.Valid() && Drawn(st, rnd) && !st.open && OnDisk(env, st)
    ensures
      var (rc, st') := Open(env, st, pw, rnd);
      var key := KeyOf(env, st, pw, rnd.salt);
      && (rc == 0 <==> st.health.canRead && Opens(env, key, st.files[Path(env, st)]))
      && (rc != 0 ==> !st'.open && st'.entries == st.entries)
      && st'.files == st.files && st'.salts == SaltFiles(env, st, rnd.salt) && st'.name == st.name && st'.health == st.health
      && rc in {0, -2, -3, -4, -41, -43, -5, -6, -8, -9}
  {
    hide Load, Opens, Payload, PasswordHash.Key;
    LoadExact(env, SetPassword(env, st, pw, rnd.salt));
  }

  // After a wrong password, in whatever way it failed, the right one brings back all that was saved.
  lemma WrongThenRight(env: Env, st: State, wrong: seq<byte>, pw: seq<byte>, version: seq<byte>, saved: Entries,
                       filler: seq<byte>, rnd: Random, st1: State, rnd1: Random)
    requires env.cfg.Valid() && st.health == HEALTHY && !st.open && st.entries == map[] && OnDisk(env, st)
    requires Drawn(st, rnd) && Drawn(st1, rnd1)
    requires KnownVersion(version) && HoldsAs(env, st, version, StoredKey(env, st, pw, version, rnd), saved, filler)
    requires Storable(saved) && Accepted(env.cfg, StoredKey(env, st, pw, version, rnd))
    requires Accepted(env.cfg, env.kdf(pw, SaltFor(env, st, rnd.salt)))
    requires Open(env, st, wrong, rnd).0 != 0 && Open(env, st, wrong, rnd).1 == st1
    ensures
      var (rc, st2) := Open(env, st1, pw, rnd1);
      rc == 0 && Good(env, st2, pw) && st2.entries == Normal(saved) && st2.hashes == FullIndex(env.cfg.md5, saved)
  {
    hide Open, Payload, Accepted, Body, FullIndex, PasswordHash.Key, Storable, Normal, Good, Opens, KeyOf;
    OpenExact(env, st, wrong, rnd);
    SaltAgain(env, st, st1, rnd.salt, rnd1.salt);
    hide SaltFiles, SaltFor;
    OpenStored(env, st1, pw, version, saved, filler, rnd1);
  }

  // The salt that is found or drawn the first time is found the next time.
  lemma SaltAgain(env: Env, st: State, st': State, drawn: seq<byte>, drawn': seq<byte>)
    requires st.health == HEALTHY && |drawn| == 56
    requires st'.salts == SaltFiles(env, st, drawn) && st'.name == st.name && st'.health == st.health
    ensures SaltFor(env, st', drawn') == SaltFor(env, st, drawn)
  {
  }

  // Opening answers -255 exactly when the wallet is open already, and then does nothing.
  lemma OpenTwice(env: Env, st: State, pw: seq<byte>, rnd: Random)
    requires env.cfg.Valid() && Drawn(st, rnd)
    ensures Open(env, st, pw, rnd).0 == -255 <==> st.open
    ensures st.open ==> Open(env, st, pw, rnd).1 == st
  {
    hide Load, Payload, PasswordHash.Key, Sync;
    if !st.open {
      var keyed := SetPassword(env, st, pw, rnd.salt);
      OpenInternalCodes(env, keyed, rnd.filler);
    }
  }

  // A file that is missing or too short is created. When that fails the answer is -2, and when it was
  // the save that failed the wallet stays open all the same, so it cannot be opened again.
  lemma OpenInternalCodes(env: Env, st: State, filler: seq<byte>)
    requires env.cfg.Valid() && |filler| == 8 + Delta(|Payload(st.entries)|)
    ensures
      var (rc, st') := OpenInternal(env, st, filler);
      && rc in {0, -2, -3, -4, -41, -43, -5, -6, -8, -9} && st'.name == st.name
      && (OnDisk(env, st) ==> (rc, st') == Load(env, st))
      && (!OnDisk(env, st) && !st.health.canCreate ==> rc == -2 && st' == st)
      && (!OnDisk(env, st) && st.health.canCreate ==>
            var made := st.(open := true, files := if Path(env, st) in st.files then st.files else st.files[Path(env, st) := []]);
            && (Sync(env, made, filler).0 != 0 ==> rc == -2 && st'.open)
            && (Sync(env, made, filler).0 == 0 ==> (rc, st') == Load(env, Sync(env, made, filler).1)))
  {
    hide Payload, Sync, Load, Readable, Opens, KeyFor, ContentsUnder, TakeFolders, Written, Accepted;
    var made := st.(open := true, files := if Path(env, st) in st.files then st.files else st.files[Path(env, st) := []]);
    SyncExact(env, made, filler);
    LoadExact(env, st);
    LoadExact(env, Sync(env, made, filler).1);
  }

  // ---- Saving ----

  // The key a wallet is saved under.
  function SavingKey(st: State): seq<byte>
  {
    if st.useNewHash then st.newPassHash else st.passhash
  }

  // Each code of a save, and what it leaves: on success a new file of the current cipher under the key in
  // use, whose version says which hash that is; otherwise the files as they were. Contents stay.
  lemma SyncExact(env: Env, st: State, filler: seq<byte>)
    requires env.cfg.Valid() && |filler| == 8 + Delta(|Payload(st.entries)|)
    ensures
      var (rc, st') := Sync(env, st, filler);
      var h := st.health;
      var there := st.open && Path(env, st) in st.files;
      var tried := there && h.canSave && h.writing != FailsAtMagic && h.writing != FailsAtHeader && st.cipher == CipherType.Blowfish;
      && (rc == -255 <==> !st.open)
      && (rc == -3 <==> st.open && Path(env, st) !in st.files)
      && (rc == -1 <==> there && !h.canSave)
      && (rc == -2 <==> tried && !Accepted(env.cfg, SavingKey(st)))
      && (rc == 0 <==> tried && Accepted(env.cfg, SavingKey(st)) && h.writing == AllWritten)
      && rc in {0, -1, -2, -3, -4, -255}
      && (rc != 0 ==> st'.files == st.files)
      && (rc == 0 ==>
            && st'.passhash == SavingKey(st)
            && st'.files == st.files[Path(env, st) :=
                 [0x4b, 0x57, 0x41, 0x4c, 0x4c, 0x45, 0x54, 0x0a, 0x0d, 0x00, 0x0d, 0x0a]
                 + (if st.useNewHash then [0, 1, 3, 2] else [0, 0, 3, 0])
                 + Written(env.cfg, SavingKey(st), st.entries, filler)])
      && st' == st.(passhash := st'.passhash, files := st'.files)
  {
    hide Payload, Written, Accepted;
  }

  // Closing keeps a wallet open when the save fails; otherwise it is closed, without contents, and both
  // keys are overwritten with zeros.
  lemma CloseExact(env: Env, st: State, save: bool, filler: seq<byte>)
    requires env.cfg.Valid() && |filler| == 8 + Delta(|Payload(st.entries)|)
    ensures
      var (rc, st') := Close(env, st, save, filler);
      && rc == (if save then Sync(env, st, filler).0 else 0)
      && (rc != 0 ==> st' == Sync(env, st, filler).1)
      && (rc == 0 ==>
            && !st'.open && st'.entries == map[]
            && (forall i :: 0 <= i < |st'.passhash| ==> st'.passhash[i] == 0)
            && (forall i :: 0 <= i < |st'.newPassHash| ==> st'.newPassHash[i] == 0)
            && st'.files == if save then Sync(env, st, filler).1.files else st.files)
  {
    hide Payload, Sync;
  }

  // Renaming does nothing when the file name stays, is refused with -17 when a file of the new name is
  // there, and otherwise stops with the code of a save that fails, the wallet open under its old name.
  lemma RenameExact(env: Env, st: State, newName: QString, filler: seq<byte>)
    requires env.cfg.Valid() && |filler| == 8 + Delta(|Payload(st.entries)|)
    ensures
      var (rc, st') := RenameWallet(env, st, newName, filler);
      var newPath := env.encode(newName);
      && (newPath == Path(env, st) ==> rc == 0 && st' == st)
      && (rc == -17 <==> newPath != Path(env, st) && newPath in st.files)
      && (rc == -17 ==> st' == st)
      && (newPath != Path(env, st) && newPath !in st.files ==>
            var (rc', saved) := Sync(env, st, filler);
            if rc' != 0 then rc == rc' && st' == saved else st'.name == newName)
  {
    hide Payload, Sync, OpenInternal, Written, Accepted, Load, OnDisk, Moved;
    SyncExact(env, st, filler);
    var path, newPath := Path(env, st), env.encode(newName);
    if newPath != path && newPath !in st.files && Sync(env, st, filler).0 == 0 {
      var closed := CloseInternal(env, st, true, filler).1;
      var moved := closed.(files := Moved(closed.files, path, newPath), salts := Moved(closed.salts, path, newPath), name := newName);
      OpenInternalCodes(env, moved, Zeros(8 + Delta(|Payload(moved.entries)|)));
    }
  }

  // ---- Opening with a hash ----

  // A wallet that is open, or a hash of a wrong size, is refused, and nothing is done.
  lemma PreHashedRefused(env: Env, st: State, hash: seq<byte>, filler: seq<byte>)
    requires env.cfg.Valid() && |filler| == 8 + Delta(|Payload(st.entries)|)
    ensures
      var (rc, st') := OpenPreHashed(env, st, hash, filler);
      && (rc == -255 <==> st.open)
      && (rc == -42 <==> !st.open && |hash| != 20 && |hash| != 40 && |hash| != 56)
      && (rc == -255 || rc == -42 ==> st' == st)
  {
    hide Payload, Sync, Load;
    OpenInternalCodes(env, st.(passhash := hash, newPassHash := hash, useNewHash := true), filler);
  }

  // Otherwise the hash is the key, whatever the version of the file: what was saved under it comes back.
  // From then on the wallet is saved in the current version under that hash, so that its password opens
  // it again exactly when that is the new hash of the password.
  lemma PreHashedStored(env: Env, st: State, hash: seq<byte>, version: seq<byte>, saved: Entries, filler: seq<byte>, f: seq<byte>)
    requires env.cfg.Valid() && st.health == HEALTHY && !st.open && st.entries == map[] && |f| == 8 + Delta(|Payload(st.entries)|)
    requires |hash| == 20 || |hash| == 40 || |hash| == 56
    requires KnownVersion(version) && HoldsAs(env, st, version, hash, saved, filler)
    requires Storable(saved) && Accepted(env.cfg, hash)
    ensures
      var (rc, st') := OpenPreHashed(env, st, hash, f);
      && rc == 0 && st'.open && st'.entries == Normal(saved) && st'.hashes == FullIndex(env.cfg.md5, saved)
      && st'.files == st.files && st'.salts == st.salts && SavingKey(st') == hash && st'.useNewHash
      && forall pw :: Good(env, st', pw) <==>
           Path(env, st) in st.salts && st.salts[Path(env, st)] != [] && hash == env.kdf(pw, st.salts[Path(env, st)])
  {
    hide Payload, Accepted, Body, FullIndex, Load, Storable, Normal, Sync;
    var keyed := st.(passhash := hash, newPassHash := hash, useNewHash := true);
    LoadStored(env, keyed, version, hash, saved, filler);
  }
}
