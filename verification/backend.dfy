/** The Backend class: an open wallet, its index of digests, and the files it is kept in. */
module Backend {
  import opened Options
  import opened Bytes
  import opened Text
  import opened WalletFormat
  import opened WalletFile
  import opened PersistHandler
  import opened BackendState
  import PasswordHash

  // The directory of wallet and salt files, shared by all backends.
  class Disk {
    var files: map<QString, seq<byte>>
    var salts: map<QString, seq<byte>>
    var health: Health

    constructor ()
      ensures files == map[] && salts == map[] && health == HEALTHY
    {
      files, salts, health := map[], map[], HEALTHY;
    }
  }

  class Backend {
    const env: Env
    const disk: Disk
    var name: QString
    var path: QString
    var open: bool
    var useNewHash: bool
    var folder: QString
    var entries: Entries
    var hashes: Index
    var passhash: seq<byte>
    var newPassHash: seq<byte>
    var cipherType: CipherType

    ghost predicate Valid()
      reads this
    {
      env.cfg.Valid() && path == env.encode(name)
    }

    ghost function View(): State
      reads this, disk
    {
      State(name, open, useNewHash, folder, entries, hashes, passhash, newPassHash, cipherType, disk.files, disk.salts, disk.health)
    }

    constructor (env: Env, disk: Disk, name: QString)
      requires env.cfg.Valid()
      ensures Valid() && this.env == env && this.disk == disk
      ensures View() == State(name, false, false, [], map[], map[], [], [], Unknown, disk.files, disk.salts, disk.health)
    {
      this.env, this.disk, this.name := env, disk, name;
      path := env.encode(name);
      open, useNewHash, folder := false, false, [];
      entries, hashes := map[], map[];
      passhash, newPassHash := [], [];
      cipherType := Unknown;
    }

    method SetCipherType(ct: CipherType)
      requires Valid() && cipherType == Unknown
      modifies this`cipherType
      ensures Valid() && View() == old(View()).(cipher := ct)
    {
      cipherType := ct;
    }

    method SwapToNewHash()
      requires Valid()
      modifies this`passhash
      ensures Valid() && View() == BackendState.SwapToNewHash(old(View()))
    {
      if !useNewHash {
        return;
      }
      passhash := newPassHash;
    }

    method SetPassword(password: seq<byte>) returns (ghost drawn: seq<byte>)
      requires Valid()
      modifies this`passhash, this`newPassHash, this`useNewHash, disk
      ensures Valid() && |drawn| == 56
      ensures View() == BackendState.SetPassword(env, old(View()), password, drawn)
    {
      hide PasswordHash.Key, PasswordHash.Iterated;
      newPassHash := Zeros(56);
      passhash := PasswordHash.Password2hash(env.cfg.order, password);
      var salt;
      drawn := Zeros(56);
      if path !in disk.salts || disk.salts[path] == [] || !disk.health.canReadSalt {
        salt, drawn := CreateAndSaveSalt();
      } else {
        salt := disk.salts[path];
      }
      if salt != [] && disk.health.canDerive {
        newPassHash := env.kdf(password, salt);
        useNewHash := true;
      }
    }

    method CreateAndSaveSalt() returns (salt: seq<byte>, ghost drawn: seq<byte>)
      requires Valid()
      modifies disk
      ensures |drawn| == 56 && disk.files == old(disk.files) && disk.health == old(disk.health)
      ensures salt == if disk.health.salting == SaltWritten then drawn else []
      ensures disk.salts == match disk.health.salting
                            case NotOpened => old(disk.salts) - {path}
                            case Partly(left) => old(disk.salts)[path := left]
                            case SaltWritten => old(disk.salts)[path := drawn]
    {
      var random := RandomBytes(56);
      drawn := random;
      disk.salts := disk.salts - {path};
      match disk.health.salting
      case NotOpened =>
        salt := [];
      case Partly(left) =>
        disk.salts := disk.salts[path := left];
        salt := [];
      case SaltWritten =>
        disk.salts := disk.salts[path := random];
        salt := random;
    }

    method Sync() returns (rc: int, ghost filler: seq<byte>)
      requires Valid() && Fits(entries)
      modifies this`passhash, disk
      ensures Valid() && |filler| == 8 + Delta(|Payload(old(entries))|)
      ensures (rc, View()) == BackendState.Sync(env, old(View()), filler)
    {
      hide Payload, Delta, WriteOut;
      filler := Zeros(8 + Delta(|Payload(entries)|));
      if !open {
        return -255, filler;
      }
      if path !in disk.files {
        return -3, filler;
      }
      if !disk.health.canSave {
        return -1, filler;
      }
      if disk.health.writing == FailsAtMagic {
        return -4, filler;
      }
      if useNewHash {
        SwapToNewHash();
      }
      rc, filler := Write();
    }

    // The handler's part of a save.
    method Write() returns (rc: int, ghost filler: seq<byte>)
      requires Valid() && Fits(entries)
      modifies disk
      ensures Valid() && |filler| == 8 + Delta(|Payload(old(entries))|)
      ensures (rc, View()) == WriteOut(env, old(View()), filler)
    {
      hide Payload, Written, Delta;
      filler := Zeros(8 + Delta(|Payload(entries)|));
      if cipherType == Unknown {
        return -4, filler;
      }
      var phandler := new BlowfishPersistHandler(env.cfg, false);
      var out;
      ghost var drawn;
      rc, out, drawn := phandler.Write(entries, useNewHash, passhash,
                                       disk.health.writing != FailsAtHeader, disk.health.writing != FailsAtBody);
      if rc == 0 {
        filler := drawn;
        disk.files := disk.files[path := MAGIC + out];
        Reassociate(MAGIC, Version(useNewHash), Written(env.cfg, passhash, entries, filler));
      }
    }

    method CloseInternal(save: bool) returns (rc: int, ghost filler: seq<byte>)
      requires Valid() && Fits(entries)
      modifies this`passhash, this`entries, this`open, disk
      ensures Valid() && |filler| == 8 + Delta(|Payload(old(entries))|)
      ensures (rc, View()) == BackendState.CloseInternal(env, old(View()), save, filler)
    {
      hide Payload, BackendState.Sync;
      filler := Zeros(8 + Delta(|Payload(entries)|));
      if save {
        rc, filler := Sync();
        if rc != 0 {
          return;
        }
      }
      entries := map[];
      open := false;
      rc := 0;
    }

    method Close(save: bool) returns (rc: int, ghost filler: seq<byte>)
      requires Valid() && Fits(entries)
      modifies this`passhash, this`newPassHash, this`entries, this`open, disk
      ensures Valid() && |filler| == 8 + Delta(|Payload(old(entries))|)
      ensures (rc, View()) == BackendState.Close(env, old(View()), save, filler)
    {
      hide Payload, BackendState.CloseInternal;
      rc, filler := CloseInternal(save);
      if rc != 0 {
        return;
      }
      passhash := Zeros(|passhash|);
      newPassHash := Zeros(|newPassHash|);
    }

    method OpenInternal() returns (rc: int, ghost filler: seq<byte>)
      requires Valid() && Fits(entries)
      modifies this`passhash, this`entries, this`hashes, this`open, this`cipherType, disk
      ensures Valid() && |filler| == 8 + Delta(|Payload(old(entries))|)
      ensures (rc, View()) == BackendState.OpenInternal(env, old(View()), filler)
    {
      hide Payload, BackendState.Sync, BackendState.Load;
      filler := Zeros(8 + Delta(|Payload(entries)|));
      if path !in disk.files || |disk.files[path]| < 60 {
        if !disk.health.canCreate {
          return -2, filler;
        }
        if path !in disk.files {
          disk.files := disk.files[path := []];
        }
        open := true;
        rc, filler := Sync();
        if rc != 0 {
          return -2, filler;
        }
      }
      rc := Load();
    }

    method Load() returns (rc: int)
      requires Valid()
      modifies this`passhash, this`entries, this`hashes, this`open, this`cipherType
      ensures Valid() && (rc, View()) == BackendState.Load(env, old(View()))
    {
      hide BackendState.LoadVersion;
      if path !in disk.files || |disk.files[path]| < 16 || !disk.health.canRead {
        return -2;
      }
      var db := disk.files[path];
      if db[..12] != MAGIC {
        return -3;
      }
      rc := LoadVersion(db[12..16], db[16..]);
    }

    // The version bytes choose the key and the handler, which reads the rest.
    method LoadVersion(magicBuf: seq<byte>, db: seq<byte>) returns (rc: int)
      requires Valid() && |magicBuf| == 4
      modifies this`passhash, this`entries, this`hashes, this`open, this`cipherType
      ensures Valid() && (rc, View()) == BackendState.LoadVersion(env, old(View()), magicBuf, db)
    {
      hide ReadIn, BackendState.SwapToNewHash;
      if magicBuf[0] != 0 {
        return -4;
      }
      if magicBuf[1] == 1 {
        SwapToNewHash();
      } else if magicBuf[1] != 0 {
        return -4;
      }
      var h := HandlerFor(magicBuf);
      if h == NoHandler {
        return -41;
      }
      rc := Read(h.useECBforReading, db);
    }

    // The handler's part of loading.
    method Read(useECBforReading: bool, db: seq<byte>) returns (rc: int)
      requires Valid()
      modifies this`passhash, this`entries, this`hashes, this`open, this`cipherType
      ensures Valid() && (rc, View()) == ReadIn(env, old(View()), useECBforReading, db)
    {
      hide WalletFile.Read;
      var phandler := new BlowfishPersistHandler(env.cfg, useECBforReading);
      cipherType := Blowfish;
      var wiped;
      rc, hashes, entries, wiped := phandler.Read(db, passhash, entries);
      if wiped {
        passhash := Zeros(|passhash|);
      }
      if rc == 0 {
        open := true;
      }
    }

    method Open(password: seq<byte>) returns (rc: int, ghost rnd: Random)
      requires Valid() && Fits(entries)
      modifies this, disk
      ensures Valid() && Drawn(old(View()), rnd)
      ensures (rc, View()) == BackendState.Open(env, old(View()), password, rnd)
    {
      hide Payload, BackendState.OpenInternal, BackendState.SetPassword;
      rnd := Random(Zeros(8 + Delta(|Payload(entries)|)), Zeros(56));
      if open {
        return -255, rnd;
      }
      ghost var st := View();
      ghost var drawn := SetPassword(password);
      PasswordKeeps(env, st, password, drawn);
      ghost var filler;
      rc, filler := OpenInternal();
      rnd := Random(filler, drawn);
    }

    method OpenPreHashed(passwordHash: seq<byte>) returns (rc: int, ghost filler: seq<byte>)
      requires Valid() && Fits(entries)
      modifies this, disk
      ensures Valid() && |filler| == 8 + Delta(|Payload(old(entries))|)
      ensures (rc, View()) == BackendState.OpenPreHashed(env, old(View()), passwordHash, filler)
    {
      hide Payload, BackendState.OpenInternal;
      filler := Zeros(8 + Delta(|Payload(entries)|));
      if open {
        return -255, filler;
      }
      if |passwordHash| != 20 && |passwordHash| != 40 && |passwordHash| != 56 {
        return -42, filler;
      }
      passhash := passwordHash;
      newPassHash := passwordHash;
      useNewHash := true;
      rc, filler := OpenInternal();
    }

    method RenameWallet(newName: QString) returns (rc: int, ghost filler: seq<byte>)
      requires Valid() && Fits(entries)
      modifies this, disk
      ensures Valid() && |filler| == 8 + Delta(|Payload(old(entries))|)
      ensures (rc, View()) == BackendState.RenameWallet(env, old(View()), newName, filler)
    {
      hide Payload, BackendState.CloseInternal, BackendState.MoveAndOpen;
      filler := Zeros(8 + Delta(|Payload(entries)|));
      var newPath := env.encode(newName);
      if newPath == path {
        return 0, filler;
      }
      if newPath in disk.files {
        return -EEXIST, filler;
      }
      ghost var st := View();
      rc, filler := CloseInternal(true);
      if rc != 0 {
        return;
      }
      ClosedFacts(env, st, filler);
      rc := MoveAndOpen(newName);
    }

    // The files of a closed wallet move, and it is opened under its new name.
    method MoveAndOpen(newName: QString) returns (rc: int)
      requires Valid() && entries == map[] && path in disk.files && |disk.files[path]| >= 60
      requires env.encode(newName) != path && env.encode(newName) !in disk.files
      modifies this, disk
      ensures Valid() && (rc, View()) == BackendState.MoveAndOpen(env, old(View()), newName)
    {
      MovedThere(disk.files, path, env.encode(newName));
      hide Payload, BackendState.OpenInternal, Moved;
      var newPath := env.encode(newName);
      disk.files := Moved(disk.files, path, newPath);
      disk.salts := Moved(disk.salts, path, newPath);
      name := newName;
      path := newPath;
      EmptyFits();
      ghost var moved, unused := View(), [];
      rc, unused := OpenInternal();
      FillerUnused(env, moved, unused, Zeros(8 + Delta(|Payload(moved.entries)|)));
    }

    // ---- Folders and entries ----

    // Every folder once, in ascending order, and nothing else.
    method FolderList() returns (l: seq<QString>)
      ensures forall f :: f in l <==> f in entries
      ensures forall i, j :: 0 <= i < j < |l| ==> Before(l[i], l[j])
    {
      l := Sorted(entries.Keys);
    }

    // Every key of the current folder once, in ascending order; none when the folder does not exist.
    method EntryList() returns (l: seq<QString>)
      ensures forall k :: k in l <==> BackendState.HasEntry(View(), k)
      ensures forall i, j :: 0 <= i < j < |l| ==> Before(l[i], l[j])
    {
      l := if folder in entries then Sorted(entries[folder].Keys) else [];
    }

    method HasEntry(key: QString) returns (b: bool)
      ensures b == BackendState.HasEntry(View(), key)
    {
      b := folder in entries && key in entries[folder];
    }

    method ReadEntry(key: QString) returns (e: Option<Entry>)
      ensures e == if open && key in FolderOf(View()) then Some(FolderOf(View())[key]) else None
    {
      e := None;
      var found := HasEntry(key);
      if open && found {
        e := Some(entries[folder][key]);
      }
    }

    method SetFolder(f: QString)
      requires Valid()
      modifies this`folder
      ensures Valid() && View() == old(View()).(folder := f)
    {
      folder := f;
    }

    method CreateFolder(f: QString) returns (rc: bool)
      requires Valid()
      modifies this`entries, this`hashes
      ensures Valid() && (rc, View()) == BackendState.CreateFolder(env, old(View()), f)
    {
      if f in entries {
        return false;
      }
      entries := entries[f := map[]];
      hashes := hashes[env.cfg.md5(f) := []];
      rc := true;
    }

    // removeAll() on the digests of one folder, from front to back.
    method RemoveDigest(d: Digest, x: Digest)
      requires Valid() && d in hashes
      modifies this`hashes
      ensures Valid() && hashes == old(hashes)[d := RemoveAll(old(hashes[d]), x)]
    {
      var kept := Without(hashes[d], x);
      hashes := hashes[d := kept];
    }

    // The loop over the list of one folder.
    static method Without(l: seq<Digest>, x: Digest) returns (kept: seq<Digest>)
      ensures kept == RemoveAll(l, x)
    {
      kept := [];
      for i := 0 to |l|
        invariant kept == RemoveAll(l[..i], x)
      {
        assert l[..i + 1] == l[..i] + [l[i]];
        RemoveAllJoin(l[..i], [l[i]], x);
        if l[i] != x {
          kept := kept + [l[i]];
        }
      }
      assert l[..|l|] == l;
    }

    method RenameEntry(oldName: QString, newName: QString) returns (rc: int)
      requires Valid()
      modifies this`entries, this`hashes
      ensures Valid() && (rc, View()) == BackendState.RenameEntry(env, old(View()), oldName, newName)
    {
      if folder !in entries {
        entries := entries[folder := map[]];
      }
      var emap := entries[folder];
      if oldName in emap && newName !in emap {
        var e := emap[oldName];
        emap := emap - {oldName};
        emap := emap[newName := e];
        entries := entries[folder := emap];
        assert entries == old(entries)[folder := emap];
        var d := env.cfg.md5(folder);
        if d in hashes {
          RemoveDigest(d, env.cfg.md5(oldName));
          hashes := hashes[d := hashes[d] + [env.cfg.md5(newName)]];
          assert hashes == old(hashes)[d := RemoveAll(old(hashes[d]), env.cfg.md5(oldName)) + [env.cfg.md5(newName)]];
        }
        return 0;
      }
      assert entries == old(entries)[folder := emap];
      return -1;
    }

    method WriteEntry(e: Entry)
      requires Valid()
      modifies this`entries, this`hashes
      ensures Valid() && View() == BackendState.WriteEntry(env, old(View()), e)
    {
      if !open {
        return;
      }
      if folder !in entries {
        entries := entries[folder := map[]];
      }
      entries := entries[folder := entries[folder][e.key := e]];
      assert entries == old(entries)[folder := FolderOf(old(View()))[e.key := e]];
      var d := env.cfg.md5(folder);
      if d in hashes {
        hashes := hashes[d := hashes[d] + [env.cfg.md5(e.key)]];
      }
    }

    method RemoveEntry(key: QString) returns (rc: bool)
      requires Valid() && (open ==> folder in entries)
      modifies this`entries, this`hashes
      ensures Valid() && (rc, View()) == BackendState.RemoveEntry(env, old(View()), key)
    {
      if !open {
        return false;
      }
      var fi := entries[folder];
      if key in fi {
        entries := entries[folder := fi - {key}];
        var d := env.cfg.md5(folder);
        if d in hashes {
          RemoveDigest(d, env.cfg.md5(key));
        }
        return true;
      }
      return false;
    }

    method RemoveFolder(f: QString) returns (rc: bool)
      requires Valid()
      modifies this`folder, this`entries, this`hashes
      ensures Valid() && (rc, View()) == BackendState.RemoveFolder(env, old(View()), f)
    {
      if !open {
        return false;
      }
      if f in entries {
        if folder == f {
          folder := [];
        }
        entries := entries - {f};
        hashes := hashes - {env.cfg.md5(f)};
        return true;
      }
      return false;
    }

    method FolderDoesNotExist(f: QString) returns (b: bool)
      ensures b == BackendState.FolderDoesNotExist(env, View(), f)
    {
      b := env.cfg.md5(f) !in hashes;
    }

    method EntryDoesNotExist(f: QString, k: QString) returns (b: bool)
      ensures b == BackendState.EntryDoesNotExist(env, View(), f, k)
    {
      var d := env.cfg.md5(f);
      if d in hashes {
        b := env.cfg.md5(k) !in hashes[d];
      } else {
        b := true;
      }
    }
  }

  lemma PasswordKeeps(env: Env, st: State, password: seq<byte>, drawn: seq<byte>)
    ensures BackendState.SetPassword(env, st, password, drawn).entries == st.entries
  {
  }

  // A backend that has saved and closed leaves a complete file behind.
  lemma ClosedFacts(env: Env, st: State, filler: seq<byte>)
    requires env.cfg.Valid() && |filler| == 8 + Delta(|Payload(st.entries)|)
    requires BackendState.CloseInternal(env, st, true, filler).0 == 0
    ensures
      var closed := BackendState.CloseInternal(env, st, true, filler).1;
      && closed.entries == map[] && closed.name == st.name && closed.files.Keys == st.files.Keys
      && Path(env, st) in closed.files && |closed.files[Path(env, st)]| >= 60
  {
    hide Payload, Written;
    var st' := BackendState.SwapToNewHash(st);
    FileSize(env.cfg, st'.passhash, st'.entries, filler, st'.useNewHash);
  }

  lemma FillerUnused(env: Env, st: State, f1: seq<byte>, f2: seq<byte>)
    requires env.cfg.Valid() && |f1| == 8 + Delta(|Payload(st.entries)|) && |f2| == |f1|
    requires Path(env, st) in st.files && |st.files[Path(env, st)]| >= 60
    ensures BackendState.OpenInternal(env, st, f1) == BackendState.OpenInternal(env, st, f2)
  {
  }

  lemma MovedThere(files: map<QString, seq<byte>>, from: QString, to: QString)
    requires from in files && to !in files
    ensures to in Moved(files, from, to) && Moved(files, from, to)[to] == files[from]
  {
  }

  lemma EmptyFits()
    ensures Fits(map[])
  {
  }
}
