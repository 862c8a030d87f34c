/** An open Backend behaves like a plain map from folders to entries, over every run of operations,
    whether or not the wallet is saved, reopened, renamed or given another password in between. */
module BackendRuns {
  import opened Bytes
  import opened Text
  import opened Stream
  import opened WalletFormat
  import opened WalletFile
  import opened Blowfish
  import opened BackendState
  import PasswordHash

  // ---- The plain map ----

  type Contents = map<QString, map<QString, (int32, seq<byte>)>>

  function AbstractFolder(folder: Folder): map<QString, (int32, seq<byte>)>
  {
    map k | k in folder :: (folder[k].etype, folder[k].value)
  }

  // The key an entry carries itself is not part of the contents.
  function Abstract(entries: Entries): Contents
  {
    map f | f in entries :: AbstractFolder(entries[f])
  }

  lemma AbstractNormal(entries: Entries)
    ensures Abstract(Normal(entries)) == Abstract(entries)
  {
    forall f | f in entries ensures AbstractFolder(NormalFolder(entries[f])) == AbstractFolder(entries[f]) {
    }
  }

  datatype Op =
    | CreateFolderOp(f: QString)
    | SetFolderOp(f: QString)
    | WriteOp(key: QString, etype: int32, value: seq<byte>)
    | RemoveEntryOp(key: QString)
    | RenameEntryOp(oldName: QString, newName: QString)
    | RemoveFolderOp(f: QString)
    | SyncOp
    | ReopenOp
    | RenameWalletOp(newName: QString)
    | ChangePasswordOp(password: seq<byte>)

  datatype Model = Model(contents: Contents, folder: QString)

  function Current(m: Model): map<QString, (int32, seq<byte>)>
  {
    if m.folder in m.contents then m.contents[m.folder] else map[]
  }

  // What each operation means for the plain map, with the value the caller gets.
  function SpecStep(m: Model, op: Op): (int, Model)
  {
    match op
    case CreateFolderOp(f) =>
      if f in m.contents then (0, m) else (1, m.(contents := m.contents[f := map[]]))
    case SetFolderOp(f) => (0, m.(folder := f))
    case WriteOp(key, etype, value) => (0, m.(contents := m.contents[m.folder := Current(m)[key := (etype, value)]]))
    case RemoveEntryOp(key) =>
      if key !in Current(m) then (0, m) else (1, m.(contents := m.contents[m.folder := Current(m) - {key}]))
    case RenameEntryOp(o, n) =>
      if o in Current(m) && n !in Current(m)
      then (0, m.(contents := m.contents[m.folder := (Current(m) - {o})[n := Current(m)[o]]]))
      else (-1, m.(contents := m.contents[m.folder := Current(m)]))
    case RemoveFolderOp(f) =>
      if f !in m.contents then (0, m)
      else (1, Model(m.contents - {f}, if m.folder == f then [] else m.folder))
    case SyncOp => (0, m)
    case ReopenOp => (0, m)
    case RenameWalletOp(_) => (0, m)
    case ChangePasswordOp(_) => (0, m)
  }

  // ---- The backend ----

  function Flag(r: (bool, State)): (int, State)
  {
    (if r.0 then 1 else 0, r.1)
  }

  // close(true) followed by open() with the given password.
  ghost function Reopened(env: Env, st: State, password: seq<byte>, rnd: Random): (int, State)
    requires env.cfg.Valid() && Drawn(st, rnd)
  {
    var (rc, closed) := Close(env, st, true, rnd.filler);
    if rc != 0 then (rc, closed)
    else Open(env, closed, password, Random(Zeros(8 + Delta(|Payload(closed.entries)|)), rnd.salt))
  }

  // One operation by a user who knows the current password.
  ghost function Step(env: Env, st: State, pw: seq<byte>, op: Op, rnd: Random): (int, State)
    requires env.cfg.Valid() && Drawn(st, rnd)
    requires op.RemoveEntryOp? && st.open ==> st.folder in st.entries
  {
    match op
    case CreateFolderOp(f) => Flag(CreateFolder(env, st, f))
    case SetFolderOp(f) => (0, st.(folder := f))
    case WriteOp(key, etype, value) => (0, WriteEntry(env, st, Entry(key, etype, value)))
    case RemoveEntryOp(key) => Flag(RemoveEntry(env, st, key))
    case RenameEntryOp(o, n) => RenameEntry(env, st, o, n)
    case RemoveFolderOp(f) => Flag(RemoveFolder(env, st, f))
    case SyncOp => Sync(env, st, rnd.filler)
    case ReopenOp => Reopened(env, st, pw, rnd)
    case RenameWalletOp(n) => RenameWallet(env, st, n, rnd.filler)
    case ChangePasswordOp(p) => Reopened(env, SetPassword(env, st, p, rnd.salt), p, rnd)
  }

  function PasswordAfter(pw: seq<byte>, op: Op): seq<byte>
  {
    if op.ChangePasswordOp? then op.password else pw
  }

  // ---- When a run is as the theorem wants it ----

  // The file format can hold the contents.
  ghost predicate Storable(entries: Entries)
  {
    Fits(entries) && |entries| <= MAX_FOLDERS && KnownTypes(entries)
  }

  // In numbers: what a run has to keep to when it saves, and the four forms a stored wallet may have.
  lemma StorableMeans(entries: Entries)
    ensures Storable(entries) <==>
      && |Payload(entries)| < 0x7fff_ffd8 && |entries| <= 0xffff
      && (forall f :: f in entries ==> |entries[f]| < 0x1_0000_0000)
      && (forall f, k :: f in entries && k in entries[f] ==> entries[f][k].etype in {1, 2, 3})
  {
    TypesMean(entries);
    hide Payload, KnownTypes;
  }

  lemma VersionMeans(v: seq<byte>)
    ensures KnownVersion(v) <==>
      exists minor, cipher, hash :: v == [0, minor, cipher, hash] && minor in {0, 1} && cipher in {0, 3} && hash in {0, 2}
  {
    if KnownVersion(v) {
      assert v == [0, v[1], v[2], v[3]];
    }
  }

  // The wallet is open, has a file, and its new-style key belongs to the password and the salt file.
  ghost predicate Good(env: Env, st: State, pw: seq<byte>)
  {
    var path := Path(env, st);
    && env.cfg.Valid() && st.open && st.useNewHash && st.cipher == Blowfish && st.health == HEALTHY
    && path in st.files && path in st.salts && st.salts[path] != []
    && st.newPassHash == env.kdf(pw, st.salts[path]) && Accepted(env.cfg, st.newPassHash)
  }

  // What the program asks of its callers, and what the file format and the cipher ask where a wallet is saved.
  ghost predicate Allowed(env: Env, st: State, op: Op)
    requires env.cfg.Valid() && Path(env, st) in st.salts
  {
    match op
    case RemoveEntryOp(_) => st.folder in st.entries
    case SyncOp => Storable(st.entries)
    case ReopenOp => Storable(st.entries)
    case RenameWalletOp(n) =>
      env.encode(n) == Path(env, st) ||
      (Storable(st.entries) && env.encode(n) !in st.files && env.encode(n) !in st.salts)
    case ChangePasswordOp(p) => Storable(st.entries) && Accepted(env.cfg, env.kdf(p, st.salts[Path(env, st)]))
    case _ => true
  }

  // ---- Saving and loading ----

  // The file of the wallet holds the given entries, encrypted with the given key.
  ghost predicate Holds(env: Env, st: State, useNewHash: bool, key: seq<byte>, saved: Entries, filler: seq<byte>)
    requires env.cfg.Valid()
  {
    && Path(env, st) in st.files && key != [] && |filler| == 8 + Delta(|Payload(saved)|)
    && st.files[Path(env, st)] == MAGIC + Version(useNewHash) + Written(env.cfg, key, saved, filler)
  }

  // The version bytes this program has ever written: minor version, cipher and hash.
  predicate KnownVersion(version: seq<byte>)
  {
    && |version| == 4 && version[0] == 0 && (version[1] == 0 || version[1] == 1)
    && (version[2] == CIPHER_BLOWFISH_ECB || version[2] == CIPHER_BLOWFISH_CBC)
    && (version[3] == HASH_SHA1 || version[3] == HASH_PBKDF2_SHA512)
  }

  // Everything behind the header, as former releases or the current one put it down.
  ghost function Body(cfg: Config, ecb: bool, key: seq<byte>, saved: Entries, filler: seq<byte>): seq<byte>
    requires cfg.Valid() && key != [] && |filler| == 8 + Delta(|Payload(saved)|)
  {
    if ecb then
      PutIndex(cfg.md5, saved) + Buffer(Encrypting, cfg.order, Schedule(cfg.tables, key), Plain(cfg.order, Payload(saved), filler))
    else Written(cfg, key, saved, filler)
  }

  // The file of the wallet holds the given entries in one of these forms.
  ghost predicate HoldsAs(env: Env, st: State, version: seq<byte>, key: seq<byte>, saved: Entries, filler: seq<byte>)
    requires env.cfg.Valid() && KnownVersion(version)
  {
    && Path(env, st) in st.files && key != [] && |filler| == 8 + Delta(|Payload(saved)|)
    && st.files[Path(env, st)] == MAGIC + version + Body(env.cfg, version[2] == CIPHER_BLOWFISH_ECB, key, saved, filler)
  }

  // Loading a file that holds storable entries under the key in use brings them back, with their exact digests.
  lemma LoadStored(env: Env, st: State, version: seq<byte>, key: seq<byte>, saved: Entries, filler: seq<byte>)
    requires env.cfg.Valid() && st.health.canRead && KnownVersion(version) && HoldsAs(env, st, version, key, saved, filler)
    requires Accepted(env.cfg, key) && Storable(saved) && st.entries == map[]
    requires key == if version[1] == 1 && st.useNewHash then st.newPassHash else st.passhash
    ensures Load(env, st) == (0, st.(cipher := Blowfish, hashes := FullIndex(env.cfg.md5, saved), entries := Normal(saved),
                                     open := true, passhash := key))
    ensures |st.files[Path(env, st)]| >= 60
  {
    hide Body, WalletFile.Read, Payload, Accepted, KnownTypes, Fits, Load, LoadVersion, Normal, FullIndex;
    var ecb := version[2] == CIPHER_BLOWFISH_ECB;
    var body := Body(env.cfg, ecb, key, saved, filler);
    BodySize(env.cfg, ecb, key, saved, filler);
    LoadParts(env, st, version, body);
    LoadHandler(env, st, version, body);
    BodyRead(env.cfg, ecb, key, saved, filler);
  }

  lemma BodySize(cfg: Config, ecb: bool, key: seq<byte>, saved: Entries, filler: seq<byte>)
    requires cfg.Valid() && key != [] && |filler| == 8 + Delta(|Payload(saved)|)
    ensures |Body(cfg, ecb, key, saved, filler)| >= 44
  {
    hide Payload, PutIndex, Plain, Schedule, Encrypted;
    FileSize(cfg, key, saved, filler, true);
  }

  lemma BodyRead(cfg: Config, ecb: bool, key: seq<byte>, saved: Entries, filler: seq<byte>)
    requires cfg.Valid() && Accepted(cfg, key) && Storable(saved) && |filler| == 8 + Delta(|Payload(saved)|)
    ensures
      WalletFile.Read(cfg, ecb, key, Body(cfg, ecb, key, saved, filler), map[]) == Outcome(0, FullIndex(cfg.md5, saved), Normal(saved))
  {
    TypesMean(saved);
    hide WalletFile.Read, Payload, KnownTypes, Fits, Written, PutIndex, Buffer, Plain, Schedule;
    if ecb {
      LegacyRoundTrip(cfg, key, saved, filler);
    } else {
      RoundTrip(cfg, key, saved, filler);
    }
  }

  lemma LoadParts(env: Env, st: State, version: seq<byte>, body: seq<byte>)
    requires env.cfg.Valid() && st.health.canRead && |version| == 4 && Path(env, st) in st.files && st.files[Path(env, st)] == MAGIC + version + body
    requires |body| >= 44
    ensures Load(env, st) == LoadVersion(env, st, version, body) && |st.files[Path(env, st)]| >= 60
  {
    hide LoadVersion;
    var file := st.files[Path(env, st)];
    assert file[..12] == MAGIC && file[12..16] == version && file[16..] == body;
  }

  lemma LoadHandler(env: Env, st: State, version: seq<byte>, body: seq<byte>)
    requires env.cfg.Valid() && KnownVersion(version)
    ensures
      var st' := if version[1] == 1 then SwapToNewHash(st) else st;
      var r := WalletFile.Read(env.cfg, version[2] == CIPHER_BLOWFISH_ECB, st'.passhash, body, st.entries);
      var loaded := st'.(cipher := Blowfish, hashes := r.index, entries := r.entries, open := true);
      r.rc == 0 ==> LoadVersion(env, st, version, body) == (0, loaded)
  {
    hide WalletFile.Read;
  }

  lemma LoadSaved(env: Env, st: State, useNewHash: bool, key: seq<byte>, saved: Entries, filler: seq<byte>)
    requires env.cfg.Valid() && st.health.canRead && Holds(env, st, useNewHash, key, saved, filler) && Accepted(env.cfg, key)
    requires Storable(saved) && st.entries == map[]
    requires key == if useNewHash && st.useNewHash then st.newPassHash else st.passhash
    ensures Load(env, st) == (0, st.(cipher := Blowfish, hashes := FullIndex(env.cfg.md5, saved), entries := Normal(saved),
                                     open := true, passhash := key))
    ensures |st.files[Path(env, st)]| >= 60
  {
    hide Written, Payload, Accepted, Storable, Load, Normal, FullIndex;
    LoadStored(env, st, Version(useNewHash), key, saved, filler);
  }

  lemma SyncSaves(env: Env, st: State, filler: seq<byte>)
    requires env.cfg.Valid() && st.health == HEALTHY && st.open && st.useNewHash && st.cipher == Blowfish && Path(env, st) in st.files
    requires Accepted(env.cfg, st.newPassHash) && |filler| == 8 + Delta(|Payload(st.entries)|)
    ensures
      var (rc, st') := Sync(env, st, filler);
      && rc == 0 && Holds(env, st', true, st.newPassHash, st.entries, filler)
      && st' == st.(passhash := st.newPassHash, files := st'.files) && st'.files.Keys == st.files.Keys
  {
    hide Payload, Written;
  }

  // Closing with save and opening again with a password whose key the salt file determines.
  lemma ReopenKeeps(env: Env, st: State, pw: seq<byte>, rnd: Random)
    requires Good(env, st, pw) && Storable(st.entries) && Drawn(st, rnd)
    ensures
      var (rc, st') := Reopened(env, st, pw, rnd);
      && rc == 0 && Good(env, st', pw) && st'.entries == Normal(st.entries) && st'.folder == st.folder
      && st'.hashes == FullIndex(env.cfg.md5, st.entries)
  {
    hide Payload, Sync, Load, Accepted, Written, FullIndex, PasswordHash.Key;
    SyncSaves(env, st, rnd.filler);
    var saved := Sync(env, st, rnd.filler).1;
    var closed := Close(env, st, true, rnd.filler).1;
    var keyed := SetPassword(env, closed, pw, rnd.salt);
    assert keyed.newPassHash == st.newPassHash;
    assert Holds(env, keyed, true, st.newPassHash, st.entries, rnd.filler);
    LoadSaved(env, keyed, true, st.newPassHash, st.entries, rnd.filler);
  }

  lemma RenameWalletKeeps(env: Env, st: State, pw: seq<byte>, newName: QString, filler: seq<byte>)
    requires Good(env, st, pw) && Allowed(env, st, RenameWalletOp(newName))
    requires |filler| == 8 + Delta(|Payload(st.entries)|)
    ensures
      var (rc, st') := RenameWallet(env, st, newName, filler);
      && rc == 0 && Good(env, st', pw) && st'.folder == st.folder
      && (env.encode(newName) == Path(env, st) ==> st' == st)
      && (env.encode(newName) != Path(env, st) ==>
          && st'.name == newName && st'.entries == Normal(st.entries) && st'.hashes == FullIndex(env.cfg.md5, st.entries)
          && Path(env, st) !in st'.files)
  {
    hide Payload, Sync, Load, Accepted, Written, FullIndex;
    var path, newPath := Path(env, st), env.encode(newName);
    if newPath != path {
      SyncSaves(env, st, filler);
      var closed := CloseInternal(env, st, true, filler).1;
      var moved := closed.(files := Moved(closed.files, path, newPath), salts := Moved(closed.salts, path, newPath),
                           name := newName);
      assert Holds(env, moved, true, st.newPassHash, st.entries, filler);
      LoadSaved(env, moved, true, st.newPassHash, st.entries, filler);
    }
  }

  // A salt file that lies around under the new name stays there, and the wallet's own salt is left
  // behind under the old one. Renaming succeeds all the same; the password goes on opening the wallet
  // exactly when there was no such file or it happens to give the same key.
  lemma RenameLosesSalt(env: Env, st: State, pw: seq<byte>, newName: QString, filler: seq<byte>)
    requires Good(env, st, pw) && Storable(st.entries) && |filler| == 8 + Delta(|Payload(st.entries)|)
    requires env.encode(newName) != Path(env, st) && env.encode(newName) !in st.files
    ensures
      var (rc, st') := RenameWallet(env, st, newName, filler);
      var newPath := env.encode(newName);
      && rc == 0 && st'.name == newName && st'.entries == Normal(st.entries)
      && (Good(env, st', pw) <==>
          newPath !in st.salts || (st.salts[newPath] != [] && env.kdf(pw, st.salts[newPath]) == st.newPassHash))
  {
    hide Payload, Sync, Load, Accepted, Written, FullIndex;
    var path, newPath := Path(env, st), env.encode(newName);
    SyncSaves(env, st, filler);
    var closed := CloseInternal(env, st, true, filler).1;
    var moved := closed.(files := Moved(closed.files, path, newPath), salts := Moved(closed.salts, path, newPath),
                         name := newName);
    assert Holds(env, moved, true, st.newPassHash, st.entries, filler);
    LoadSaved(env, moved, true, st.newPassHash, st.entries, filler);
  }

  lemma ChangePasswordKeeps(env: Env, st: State, pw: seq<byte>, p: seq<byte>, rnd: Random)
    requires Good(env, st, pw) && Allowed(env, st, ChangePasswordOp(p)) && Drawn(st, rnd)
    ensures
      var (rc, st') := Reopened(env, SetPassword(env, st, p, rnd.salt), p, rnd);
      && rc == 0 && Good(env, st', p) && st'.entries == Normal(st.entries) && st'.folder == st.folder
      && st'.hashes == FullIndex(env.cfg.md5, st.entries)
  {
    hide Payload, Accepted, FullIndex, PasswordHash.Key, Reopened;
    ReopenKeeps(env, SetPassword(env, st, p, rnd.salt), p, rnd);
  }

  // Opening an existing wallet with its password, in whatever form it was saved: of format version 0,
  // under the old hash, or of version 1, under the new one; encrypted block by block as former releases
  // did, or chained. What was saved comes back, runs can start, and the next save is of the current form.
  lemma OpenStored(env: Env, st: State, pw: seq<byte>, version: seq<byte>, saved: Entries, filler: seq<byte>, rnd: Random)
    requires env.cfg.Valid() && st.health == HEALTHY && !st.open && st.entries == map[] && Drawn(st, rnd)
    requires KnownVersion(version) && HoldsAs(env, st, version, StoredKey(env, st, pw, version, rnd), saved, filler)
    requires Storable(saved) && Accepted(env.cfg, StoredKey(env, st, pw, version, rnd))
    requires Accepted(env.cfg, env.kdf(pw, SaltFor(env, st, rnd.salt)))
    ensures
      var (rc, st') := Open(env, st, pw, rnd);
      && rc == 0 && Good(env, st', pw) && st'.entries == Normal(saved) && st'.hashes == FullIndex(env.cfg.md5, saved)
    ensures
      var st' := Open(env, st, pw, rnd).1;
      forall f :: |f| == 8 + Delta(|Payload(Normal(saved))|) ==> SavedAnew(env, st', Normal(saved), f)
  {
    hide Payload, Accepted, Written, Body, FullIndex, PasswordHash.Key, Load, Storable, Normal, Sync, SavedAnew;
    var keyed := SetPassword(env, st, pw, rnd.salt);
    LoadStored(env, keyed, version, StoredKey(env, st, pw, version, rnd), saved, filler);
    var st' := Open(env, st, pw, rnd).1;
    forall f | |f| == 8 + Delta(|Payload(Normal(saved))|) ensures SavedAnew(env, st', Normal(saved), f) {
      GoodSaves(env, st', pw, f);
    }
  }

  // The key that the password stands for, by the minor version of the file.
  function StoredKey(env: Env, st: State, pw: seq<byte>, version: seq<byte>, rnd: Random): seq<byte>
    requires |version| == 4
  {
    if version[1] == 1 then env.kdf(pw, SaltFor(env, st, rnd.salt)) else PasswordHash.Key(env.cfg.order, pw)
  }

  ghost predicate SavedAnew(env: Env, st: State, entries: Entries, filler: seq<byte>)
    requires env.cfg.Valid()
  {
    && |filler| == 8 + Delta(|Payload(st.entries)|) && |filler| == 8 + Delta(|Payload(entries)|)
    && Sync(env, st, filler).0 == 0 && Holds(env, Sync(env, st, filler).1, true, st.newPassHash, entries, filler)
  }

  lemma GoodSaves(env: Env, st: State, pw: seq<byte>, filler: seq<byte>)
    requires Good(env, st, pw) && |filler| == 8 + Delta(|Payload(st.entries)|)
    ensures SavedAnew(env, st, st.entries, filler)
  {
    hide Payload, Written, Accepted, Sync;
    SyncSaves(env, st, filler);
  }

  // Where a run starts: opening a wallet that does not exist yet creates it, empty.
  lemma OpenNew(env: Env, st: State, pw: seq<byte>, rnd: Random)
    requires env.cfg.Valid() && st.health == HEALTHY && !st.open && st.entries == map[] && st.cipher == Blowfish
    requires Path(env, st) !in st.files && Drawn(st, rnd)
    requires Accepted(env.cfg, env.kdf(pw, SaltFor(env, st, rnd.salt)))
    ensures
      var (rc, st') := Open(env, st, pw, rnd);
      && rc == 0 && Good(env, st', pw) && st'.entries == map[] && st'.hashes == FullIndex(env.cfg.md5, map[])
  {
    EmptyStorable();
    hide Accepted, Written, FullIndex, PasswordHash.Key, Load, Sync, Storable;
    var keyed := SetPassword(env, st, pw, rnd.salt);
    var created := keyed.(files := keyed.files[Path(env, st) := []], open := true);
    SyncSaves(env, created, rnd.filler);
    LoadSaved(env, Sync(env, created, rnd.filler).1, true, keyed.newPassHash, map[], rnd.filler);
  }

  lemma EmptyStorable()
    ensures Storable(map[]) && Normal(map[]) == map[]
  {
    assert Payload(map[]) == [];
  }

  // ---- The theorem ----

  function ModelOf(st: State): Model
  {
    Model(Abstract(st.entries), st.folder)
  }

  // One operation that touches folders or entries.
  lemma EntryStepRefines(env: Env, st: State, pw: seq<byte>, op: Op, rnd: Random)
    requires Good(env, st, pw) && Allowed(env, st, op) && Drawn(st, rnd)
    requires !op.SyncOp? && !op.ReopenOp? && !op.RenameWalletOp? && !op.ChangePasswordOp?
    ensures
      var (rc, st') := Step(env, st, pw, op, rnd);
      && Good(env, st', pw) && (rc, ModelOf(st')) == SpecStep(ModelOf(st), op)
  {
    hide Payload, Accepted, Abstract, AbstractFolder, Delta;
    AbstractKeys(st.entries);
    var folder := FolderOf(st);
    AbstractFolderKeys(folder);
    AbstractAt(st.entries, st.folder);
    AbstractEmpty();
    match op
    case CreateFolderOp(f) => AbstractUpdate(st.entries, f, map[]);
    case SetFolderOp(f) =>
    case WriteOp(key, etype, value) =>
      AbstractUpdate(st.entries, st.folder, folder[key := Entry(key, etype, value)]);
      AbstractFolderUpdate(folder, key, Entry(key, etype, value));
    case RemoveEntryOp(key) =>
      AbstractUpdate(st.entries, st.folder, folder - {key});
      AbstractFolderRemove(folder, key);
    case RenameEntryOp(o, n) =>
      AbstractUpdate(st.entries, st.folder, folder);
      if o in folder && n !in folder {
        AbstractUpdate(st.entries, st.folder, (folder - {o})[n := folder[o]]);
        AbstractFolderRemove(folder, o);
        AbstractFolderUpdate(folder - {o}, n, folder[o]);
      }
    case RemoveFolderOp(f) => AbstractRemove(st.entries, f);
  }

  lemma AbstractKeys(entries: Entries)
    ensures Abstract(entries).Keys == entries.Keys
  {
  }

  lemma AbstractEmpty()
    ensures AbstractFolder(map[]) == map[]
  {
  }

  lemma AbstractAt(entries: Entries, f: QString)
    ensures f in entries ==> Abstract(entries)[f] == AbstractFolder(entries[f])
  {
  }

  lemma AbstractFolderKeys(folder: Folder)
    ensures AbstractFolder(folder).Keys == folder.Keys
    ensures forall k :: k in folder ==> AbstractFolder(folder)[k] == (folder[k].etype, folder[k].value)
  {
  }

  lemma AbstractUpdate(entries: Entries, f: QString, folder: Folder)
    ensures Abstract(entries[f := folder]) == Abstract(entries)[f := AbstractFolder(folder)]
  {
    hide AbstractFolder;
  }

  lemma AbstractRemove(entries: Entries, f: QString)
    ensures Abstract(entries - {f}) == Abstract(entries) - {f}
  {
    hide AbstractFolder;
  }

  lemma AbstractFolderUpdate(folder: Folder, k: QString, e: Entry)
    ensures AbstractFolder(folder[k := e]) == AbstractFolder(folder)[k := (e.etype, e.value)]
  {
  }

  lemma AbstractFolderRemove(folder: Folder, k: QString)
    ensures AbstractFolder(folder - {k}) == AbstractFolder(folder) - {k}
  {
  }

  lemma StepRefines(env: Env, st: State, pw: seq<byte>, op: Op, rnd: Random)
    requires Good(env, st, pw) && Allowed(env, st, op) && Drawn(st, rnd)
    ensures
      var (rc, st') := Step(env, st, pw, op, rnd);
      && Good(env, st', PasswordAfter(pw, op)) && (rc, ModelOf(st')) == SpecStep(ModelOf(st), op)
  {
    hide Payload, Accepted, Abstract, Storable, Sync, Reopened, RenameWallet, FullIndex;
    AbstractNormal(st.entries);
    match op
    case SyncOp => SyncSaves(env, st, rnd.filler);
    case ReopenOp => ReopenKeeps(env, st, pw, rnd);
    case RenameWalletOp(n) => RenameWalletKeeps(env, st, pw, n, rnd.filler);
    case ChangePasswordOp(p) => ChangePasswordKeeps(env, st, pw, p, rnd);
    case _ => EntryStepRefines(env, st, pw, op, rnd);
  }

  datatype Event = Event(op: Op, rnd: Random)

  // Every operation of the run is allowed in the state it meets.
  ghost predicate AllowedRun(env: Env, st: State, pw: seq<byte>, es: seq<Event>)
    requires env.cfg.Valid()
    decreases es
  {
    es == [] ||
    (Path(env, st) in st.salts && Allowed(env, st, es[0].op) && Drawn(st, es[0].rnd) &&
     AllowedRun(env, Step(env, st, pw, es[0].op, es[0].rnd).1, PasswordAfter(pw, es[0].op), es[1..]))
  }

  // The values returned and the state reached.
  ghost function Run(env: Env, st: State, pw: seq<byte>, es: seq<Event>): (seq<int>, State)
    requires env.cfg.Valid() && AllowedRun(env, st, pw, es)
    decreases es
  {
    if es == [] then ([], st)
    else
      var (rc, st') := Step(env, st, pw, es[0].op, es[0].rnd);
      var (rcs, end) := Run(env, st', PasswordAfter(pw, es[0].op), es[1..]);
      ([rc] + rcs, end)
  }

  ghost function SpecRun(m: Model, es: seq<Event>): (seq<int>, Model)
    decreases es
  {
    if es == [] then ([], m)
    else
      var (rc, m') := SpecStep(m, es[0].op);
      var (rcs, end) := SpecRun(m', es[1..]);
      ([rc] + rcs, end)
  }

  // Over every run, callers see exactly what the plain map would show them.
  lemma {:induction false} RunRefines(env: Env, st: State, pw: seq<byte>, es: seq<Event>)
    requires Good(env, st, pw) && AllowedRun(env, st, pw, es)
    ensures
      var (rcs, end) := Run(env, st, pw, es);
      (rcs, ModelOf(end)) == SpecRun(ModelOf(st), es)
    decreases es
  {
    hide Step, SpecStep, ModelOf, Good;
    if es != [] {
      GoodFacts(env, st, pw);
      StepRefines(env, st, pw, es[0].op, es[0].rnd);
      RunRefines(env, Step(env, st, pw, es[0].op, es[0].rnd).1, PasswordAfter(pw, es[0].op), es[1..]);
    }
  }

  lemma GoodFacts(env: Env, st: State, pw: seq<byte>)
    requires Good(env, st, pw)
    ensures env.cfg.Valid() && Path(env, st) in st.salts
  {
  }

  // ---- Changes that are not saved ----

  predicate OnEntries(op: Op)
  {
    !op.SyncOp? && !op.ReopenOp? && !op.RenameWalletOp? && !op.ChangePasswordOp?
  }

  // All that a file is opened by stays as it is.
  predicate SameFiles(st: State, st': State)
  {
    && st'.name == st.name && st'.files == st.files && st'.salts == st.salts
    && st'.newPassHash == st.newPassHash && st'.useNewHash == st.useNewHash && st'.health == st.health
  }

  lemma EntryStepFiles(env: Env, st: State, pw: seq<byte>, op: Op, rnd: Random)
    requires Good(env, st, pw) && Allowed(env, st, op) && Drawn(st, rnd) && OnEntries(op)
    ensures SameFiles(st, Step(env, st, pw, op, rnd).1)
  {
    hide Payload, Accepted, Delta;
  }

  lemma {:induction false} RunFiles(env: Env, st: State, pw: seq<byte>, es: seq<Event>)
    requires Good(env, st, pw) && AllowedRun(env, st, pw, es) && forall e :: e in es ==> OnEntries(e.op)
    ensures SameFiles(st, Run(env, st, pw, es).1) && Good(env, Run(env, st, pw, es).1, pw)
    decreases es
  {
    hide Step, Good;
    if es != [] {
      GoodFacts(env, st, pw);
      EntryStepFiles(env, st, pw, es[0].op, es[0].rnd);
      StepRefines(env, st, pw, es[0].op, es[0].rnd);
      RunFiles(env, Step(env, st, pw, es[0].op, es[0].rnd).1, PasswordAfter(pw, es[0].op), es[1..]);
    }
  }

  // close(false) followed by open() with the given password.
  ghost function Discarded(env: Env, st: State, password: seq<byte>, rnd: Random): (int, State)
    requires env.cfg.Valid() && Drawn(st, rnd)
  {
    var closed := Close(env, st, false, rnd.filler).1;
    Open(env, closed, password, Random(Zeros(8 + Delta(|Payload(closed.entries)|)), rnd.salt))
  }

  lemma DiscardedHolds(env: Env, st: State, pw: seq<byte>, saved: Entries, filler: seq<byte>, rnd: Random)
    requires Good(env, st, pw) && Holds(env, st, true, st.newPassHash, saved, filler) && Storable(saved) && Drawn(st, rnd)
    ensures
      var (rc, st') := Discarded(env, st, pw, rnd);
      rc == 0 && Good(env, st', pw) && st'.entries == Normal(saved) && st'.hashes == FullIndex(env.cfg.md5, saved)
  {
    hide Payload, Accepted, Written, FullIndex, PasswordHash.Key, Load, Storable, Normal;
    var keyed := SetPassword(env, Close(env, st, false, rnd.filler).1, pw, rnd.salt);
    assert keyed.newPassHash == st.newPassHash;
    assert Holds(env, keyed, true, st.newPassHash, saved, filler);
    LoadSaved(env, keyed, true, st.newPassHash, saved, filler);
  }

  // Whatever is done to folders and entries after a save, close(false) and open bring back what was saved.
  lemma DiscardReopens(env: Env, st: State, pw: seq<byte>, es: seq<Event>, saved: Entries, filler: seq<byte>, rnd: Random)
    requires Good(env, st, pw) && AllowedRun(env, st, pw, es) && forall e :: e in es ==> OnEntries(e.op)
    requires Holds(env, st, true, st.newPassHash, saved, filler) && Storable(saved)
    requires Drawn(Run(env, st, pw, es).1, rnd)
    ensures
      var (rc, st') := Discarded(env, Run(env, st, pw, es).1, pw, rnd);
      rc == 0 && Good(env, st', pw) && st'.entries == Normal(saved) && st'.hashes == FullIndex(env.cfg.md5, saved)
  {
    RunFiles(env, st, pw, es);
    hide Written, Payload, Good, Storable, Run, Discarded;
    DiscardedHolds(env, Run(env, st, pw, es).1, pw, saved, filler, rnd);
  }

  // ---- Saves that fail ----

  // Whatever fails while an open wallet is saved, its file is either as it was or a complete new one, the
  // contents stay in memory, and once the disk works again the wallet is as good as before.
  lemma FailedSaveKeeps(env: Env, st: State, pw: seq<byte>, health: Health, filler: seq<byte>)
    requires Good(env, st, pw) && |filler| == 8 + Delta(|Payload(st.entries)|)
    ensures
      var (rc, st') := Sync(env, st.(health := health), filler);
      && (rc != 0 ==> st'.files == st.files)
      && (rc == 0 ==> Holds(env, st', true, st.newPassHash, st.entries, filler))
      && (rc == 0 <==> health.canSave && health.writing == AllWritten)
      && Good(env, st'.(health := HEALTHY), pw) && st'.entries == st.entries && st'.hashes == st.hashes && st'.folder == st.folder
  {
    hide Payload, Written, Accepted;
  }

  // So closing with a failing save keeps the wallet open, with all it has.
  lemma FailedCloseKeeps(env: Env, st: State, pw: seq<byte>, health: Health, filler: seq<byte>)
    requires Good(env, st, pw) && |filler| == 8 + Delta(|Payload(st.entries)|)
    ensures
      var (rc, st') := Close(env, st.(health := health), true, filler);
      rc != 0 ==> Good(env, st'.(health := HEALTHY), pw) && ModelOf(st') == ModelOf(st) && st'.files == st.files
  {
    hide Payload, Sync, Good;
    FailedSaveKeeps(env, st, pw, health, filler);
  }

  // ---- What the readers show ----

  // The listings and look-ups of an open wallet are those of the plain map.
  lemma ReadersShow(st: State, key: QString)
    requires st.open
    ensures var m := ModelOf(st);
      && (HasEntry(st, key) <==> key in Current(m))
      && (key in FolderOf(st) ==> Current(m)[key] == (FolderOf(st)[key].etype, FolderOf(st)[key].value))
      && FolderOf(st).Keys == Current(m).Keys && st.entries.Keys == m.contents.Keys
  {
    AbstractKeys(st.entries);
    AbstractAt(st.entries, st.folder);
    AbstractFolderKeys(FolderOf(st));
    hide Abstract, AbstractFolder;
  }

  // So after every run they show what the operations have made of the plain map.
  lemma RunReaders(env: Env, st: State, pw: seq<byte>, es: seq<Event>)
    requires Good(env, st, pw) && AllowedRun(env, st, pw, es)
    ensures var end, m := Run(env, st, pw, es).1, SpecRun(ModelOf(st), es).1;
      && end.entries.Keys == m.contents.Keys && FolderOf(end).Keys == Current(m).Keys
      && forall key :: (HasEntry(end, key) <==> key in Current(m)) &&
           (key in Current(m) ==> Current(m)[key] == (FolderOf(end)[key].etype, FolderOf(end)[key].value))
  {
    RunGood(env, st, pw, es);
    RunRefines(env, st, pw, es);
    var end := Run(env, st, pw, es).1;
    assert end.open;
    hide Good, Run, SpecRun, Current, ModelOf, HasEntry, FolderOf;
    ReadersShow(end, []);
    forall key
      ensures HasEntry(end, key) <==> key in Current(ModelOf(end))
      ensures key in Current(ModelOf(end)) ==>
        Current(ModelOf(end))[key] == (FolderOf(end)[key].etype, FolderOf(end)[key].value)
    {
      ReadersShow(end, key);
    }
  }

  lemma {:induction false} RunGood(env: Env, st: State, pw: seq<byte>, es: seq<Event>)
    requires Good(env, st, pw) && AllowedRun(env, st, pw, es)
    ensures Run(env, st, pw, es).1.open
    decreases es
  {
    if es != [] {
      GoodFacts(env, st, pw);
      hide Step, Good;
      StepRefines(env, st, pw, es[0].op, es[0].rnd);
      RunGood(env, Step(env, st, pw, es[0].op, es[0].rnd).1, PasswordAfter(pw, es[0].op), es[1..]);
    }
  }
}
