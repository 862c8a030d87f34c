/** What each operation of Backend does to its fields, to the wallet files and to the salt files. */
module BackendState {
  import opened Bytes
  import opened Text
  import opened WalletFormat
  import opened WalletFile
  import PasswordHash

  type Key56 = k: seq<byte> | |k| == 56 witness Zeros(56)

  // What the model takes as given: the file format's parameters, the encoding of wallet names
  // in file names, and PBKDF2.
  datatype Env = Env(cfg: Config, encode: QString -> QString, kdf: (seq<byte>, seq<byte>) -> Key56)

  datatype CipherType = Unknown | Blowfish

  // How far writing a wallet file gets, and creating a salt file, which may be left with some bytes in it.
  datatype Writing = FailsAtMagic | FailsAtHeader | FailsAtBody | AllWritten
  datatype SaltWriting = NotOpened | Partly(left: seq<byte>) | SaltWritten

  // What works at the moment: creating a wallet file, opening it for saving and for reading, writing it,
  // opening an old salt file, creating one, deriving a key.
  datatype Health = Health(canCreate: bool, canSave: bool, canRead: bool, writing: Writing,
                           canReadSalt: bool, salting: SaltWriting, canDerive: bool)

  const HEALTHY: Health := Health(true, true, true, AllWritten, true, SaltWritten, true)

  // The fields of a Backend and the files around it, by encoded wallet name.
  datatype State = State(name: QString, open: bool, useNewHash: bool, folder: QString, entries: Entries, hashes: Index,
                         passhash: seq<byte>, newPassHash: seq<byte>, cipher: CipherType,
                         files: map<QString, seq<byte>>, salts: map<QString, seq<byte>>, health: Health)

  function Path(env: Env, st: State): QString
  {
    env.encode(st.name)
  }

  // The random bytes an operation may draw: the filler of a saved file and a new salt.
  datatype Random = Random(filler: seq<byte>, salt: seq<byte>)

  ghost predicate Drawn(st: State, rnd: Random)
  {
    |rnd.filler| == 8 + Delta(|Payload(st.entries)|) && |rnd.salt| == 56
  }

  // ---- Keys ----

  function Blank(key: seq<byte>): seq<byte>
  {
    Zeros(|key|)
  }

  function SwapToNewHash(st: State): State
  {
    if st.useNewHash then st.(passhash := st.newPassHash) else st
  }

  // An existing salt is used again, as long as it can be read; a missing or empty one is replaced. Without
  // a salt file that works there is no salt.
  function SaltFor(env: Env, st: State, drawn: seq<byte>): seq<byte>
  {
    if OldSalt(env, st) then st.salts[Path(env, st)]
    else if st.health.salting == SaltWritten then drawn
    else []
  }

  predicate OldSalt(env: Env, st: State)
  {
    Path(env, st) in st.salts && st.salts[Path(env, st)] != [] && st.health.canReadSalt
  }

  function SaltFiles(env: Env, st: State, drawn: seq<byte>): map<QString, seq<byte>>
  {
    if OldSalt(env, st) then st.salts
    else
      match st.health.salting
      case NotOpened => st.salts - {Path(env, st)}
      case Partly(left) => st.salts[Path(env, st) := left]
      case SaltWritten => st.salts[Path(env, st) := drawn]
  }

  // Without a salt or a derivation the new key is blank, and whether it is used stays as it was.
  function SetPassword(env: Env, st: State, password: seq<byte>, drawn: seq<byte>): State
  {
    var salt := SaltFor(env, st, drawn);
    var derived := salt != [] && st.health.canDerive;
    st.(passhash := PasswordHash.Key(env.cfg.order, password), newPassHash := if derived then env.kdf(password, salt) else Zeros(56),
        useNewHash := st.useNewHash || derived, salts := SaltFiles(env, st, drawn))
  }

  // ---- Saving ----

  ghost function Sync(env: Env, st: State, filler: seq<byte>): (int, State)
    requires env.cfg.Valid() && |filler| == 8 + Delta(|Payload(st.entries)|)
  {
    if !st.open then (-255, st)
    else if Path(env, st) !in st.files then (-3, st)
    else if !st.health.canSave then (-1, st)
    else if st.health.writing == FailsAtMagic then (-4, st)
    else WriteOut(env, SwapToNewHash(st), filler)
  }

  // Behind the magic bytes: the handler writes the file.
  ghost function WriteOut(env: Env, st: State, filler: seq<byte>): (int, State)
    requires env.cfg.Valid() && |filler| == 8 + Delta(|Payload(st.entries)|)
  {
    if st.cipher == Unknown || st.health.writing == FailsAtHeader then (-4, st)
    else if !Accepted(env.cfg, st.passhash) then (-2, st)
    else if st.health.writing == FailsAtBody then (-4, st)
    else
      var file := MAGIC + Version(st.useNewHash) + Written(env.cfg, st.passhash, st.entries, filler);
      (0, st.(files := st.files[Path(env, st) := file]))
  }

  ghost function CloseInternal(env: Env, st: State, save: bool, filler: seq<byte>): (int, State)
    requires env.cfg.Valid() && |filler| == 8 + Delta(|Payload(st.entries)|)
  {
    var (rc, st') := if save then Sync(env, st, filler) else (0, st);
    if rc != 0 then (rc, st') else (0, st'.(entries := map[], open := false))
  }

  ghost function Close(env: Env, st: State, save: bool, filler: seq<byte>): (int, State)
    requires env.cfg.Valid() && |filler| == 8 + Delta(|Payload(st.entries)|)
  {
    var (rc, st') := CloseInternal(env, st, save, filler);
    if rc != 0 then (rc, st') else (0, st'.(passhash := Blank(st'.passhash), newPassHash := Blank(st'.newPassHash)))
  }

  // ---- Opening ----

  // A file that is missing or too small is created by saving; then the file is read.
  ghost function OpenInternal(env: Env, st: State, filler: seq<byte>): (int, State)
    requires env.cfg.Valid() && |filler| == 8 + Delta(|Payload(st.entries)|)
  {
    var path := Path(env, st);
    if path in st.files && |st.files[path]| >= 60 then Load(env, st)
    else if !st.health.canCreate then (-2, st)
    else
      var created := st.(files := if path in st.files then st.files else st.files[path := []], open := true);
      var (rc, st') := Sync(env, created, filler);
      if rc != 0 then (-2, st') else Load(env, st')
  }

  ghost function Load(env: Env, st: State): (int, State)
    requires env.cfg.Valid()
  {
    var path := Path(env, st);
    if path !in st.files || |st.files[path]| < 16 || !st.health.canRead then (-2, st)
    else
      var file := st.files[path];
      if file[..12] != MAGIC then (-3, st) else LoadVersion(env, st, file[12..16], file[16..])
  }

  // The version bytes choose the key and the handler, which reads the rest.
  ghost function LoadVersion(env: Env, st: State, version: seq<byte>, rest: seq<byte>): (int, State)
    requires env.cfg.Valid() && |version| == 4
  {
    if version[0] != 0 then (-4, st)
    else if version[1] != 0 && version[1] != 1 then (-4, st)
    else
      var st' := if version[1] == 1 then SwapToNewHash(st) else st;
      match HandlerFor(version)
      case NoHandler => (-41, st')
      case BlowfishHandler(ecb) => ReadIn(env, st', ecb, rest)
  }

  // The handler reads the rest of the file.
  ghost function ReadIn(env: Env, st: State, ecb: bool, rest: seq<byte>): (int, State)
    requires env.cfg.Valid()
  {
    var r := WalletFile.Read(env.cfg, ecb, st.passhash, rest, st.entries);
    (r.rc, st.(cipher := Blowfish, hashes := r.index, entries := r.entries, open := st.open || r.rc == 0,
               passhash := if r.rc == -6 then Blank(st.passhash) else st.passhash))
  }

  ghost function Open(env: Env, st: State, password: seq<byte>, rnd: Random): (int, State)
    requires env.cfg.Valid() && Drawn(st, rnd)
  {
    if st.open then (-255, st) else OpenInternal(env, SetPassword(env, st, password, rnd.salt), rnd.filler)
  }

  ghost function OpenPreHashed(env: Env, st: State, hash: seq<byte>, filler: seq<byte>): (int, State)
    requires env.cfg.Valid() && |filler| == 8 + Delta(|Payload(st.entries)|)
  {
    if st.open then (-255, st)
    else if |hash| != 20 && |hash| != 40 && |hash| != 56 then (-42, st)
    else OpenInternal(env, st.(passhash := hash, newPassHash := hash, useNewHash := true), filler)
  }

  // ---- Renaming ----

  // Renaming a file does nothing when the old one is missing or the new one exists.
  function Moved(files: map<QString, seq<byte>>, from: QString, to: QString): map<QString, seq<byte>>
  {
    if from !in files || to in files then files else (files - {from})[to := files[from]]
  }

  const EEXIST: int := 17

  ghost function RenameWallet(env: Env, st: State, newName: QString, filler: seq<byte>): (int, State)
    requires env.cfg.Valid() && |filler| == 8 + Delta(|Payload(st.entries)|)
  {
    var path, newPath := Path(env, st), env.encode(newName);
    if newPath == path then (0, st)
    else if newPath in st.files then (-EEXIST, st)
    else
      var (rc, closed) := CloseInternal(env, st, true, filler);
      if rc != 0 then (rc, closed) else MoveAndOpen(env, closed, newName)
  }

  ghost function MoveAndOpen(env: Env, st: State, newName: QString): (int, State)
    requires env.cfg.Valid()
  {
    var path, newPath := Path(env, st), env.encode(newName);
    var moved := st.(files := Moved(st.files, path, newPath), salts := Moved(st.salts, path, newPath), name := newName);
    OpenInternal(env, moved, Zeros(8 + Delta(|Payload(moved.entries)|)))
  }

  // ---- Folders and entries ----

  function CreateFolder(env: Env, st: State, f: QString): (bool, State)
  {
    if f in st.entries then (false, st)
    else (true, st.(entries := st.entries[f := map[]], hashes := st.hashes[env.cfg.md5(f) := []]))
  }

  function FolderOf(st: State): Folder
  {
    if st.folder in st.entries then st.entries[st.folder] else map[]
  }

  predicate HasEntry(st: State, key: QString)
  {
    st.folder in st.entries && key in st.entries[st.folder]
  }

  // The list of a folder's digests is changed only when the index knows the folder.
  function WithList(index: Index, d: Digest, change: seq<Digest> -> seq<Digest>): Index
  {
    if d in index then index[d := change(index[d])] else index
  }

  function RemoveAll(l: seq<Digest>, d: Digest): (r: seq<Digest>)
    ensures forall x :: x in r <==> x in l && x != d
  {
    if l == [] then [] else (if l[0] == d then [] else [l[0]]) + RemoveAll(l[1..], d)
  }

  lemma {:induction false} RemoveAllJoin(a: seq<Digest>, b: seq<Digest>, d: Digest)
    ensures RemoveAll(a + b, d) == RemoveAll(a, d) + RemoveAll(b, d)
  {
    if a == [] {
      assert a + b == b;
    } else {
      assert (a + b)[0] == a[0] && (a + b)[1..] == a[1..] + b;
      RemoveAllJoin(a[1..], b, d);
    }
  }

  // The current folder comes into being even when nothing is renamed; the entry keeps its own key.
  function RenameEntry(env: Env, st: State, oldName: QString, newName: QString): (int, State)
  {
    var md5 := env.cfg.md5;
    var emap := FolderOf(st);
    if oldName in emap && newName !in emap then
      (0, st.(entries := st.entries[st.folder := (emap - {oldName})[newName := emap[oldName]]],
              hashes := WithList(st.hashes, md5(st.folder), l => RemoveAll(l, md5(oldName)) + [md5(newName)])))
    else (-1, st.(entries := st.entries[st.folder := emap]))
  }

  function WriteEntry(env: Env, st: State, e: Entry): State
  {
    if !st.open then st
    else
      st.(entries := st.entries[st.folder := FolderOf(st)[e.key := e]],
          hashes := WithList(st.hashes, env.cfg.md5(st.folder), l => l + [env.cfg.md5(e.key)]))
  }

  // Callers make sure that the current folder exists.
  function RemoveEntry(env: Env, st: State, key: QString): (bool, State)
    requires st.open ==> st.folder in st.entries
  {
    if !st.open || key !in st.entries[st.folder] then (false, st)
    else
      (true, st.(entries := st.entries[st.folder := st.entries[st.folder] - {key}],
                 hashes := WithList(st.hashes, env.cfg.md5(st.folder), l => RemoveAll(l, env.cfg.md5(key)))))
  }

  function RemoveFolder(env: Env, st: State, f: QString): (bool, State)
  {
    if !st.open || f !in st.entries then (false, st)
    else
      (true, st.(folder := if st.folder == f then [] else st.folder, entries := st.entries - {f},
                 hashes := st.hashes - {env.cfg.md5(f)}))
  }

  predicate FolderDoesNotExist(env: Env, st: State, f: QString)
  {
    env.cfg.md5(f) !in st.hashes
  }

  predicate EntryDoesNotExist(env: Env, st: State, f: QString, k: QString)
  {
    env.cfg.md5(f) !in st.hashes || env.cfg.md5(k) !in st.hashes[env.cfg.md5(f)]
  }
}
