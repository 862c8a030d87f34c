/** The digest index beside the contents: when its answers can be trusted. */
module BackendIndex {
  import opened Bytes
  import opened Text
  import opened WalletFormat
  import opened WalletFile
  import opened BackendState
  import opened BackendRuns

  // No two of the names in ns have the same digest. Sixteen bytes cannot tell all names apart, so what
  // is said of the index is said of the names that occur in a run or are asked about.
  ghost predicate CollisionFree(md5: Md5, ns: iset<QString>)
  {
    forall a, b {:trigger md5(a), md5(b)} :: a in ns && b in ns && md5(a) == md5(b) ==> a == b
  }

  ghost predicate Within(folder: Folder, ns: iset<QString>)
  {
    forall k :: k in folder ==> k in ns
  }

  // All names in the contents, the current folder and the one that replaces it are among ns.
  ghost predicate Covers(ns: iset<QString>, folder: QString, entries: Entries)
  {
    [] in ns && folder in ns && forall f {:trigger f in entries} :: f in entries ==> f in ns && Within(entries[f], ns)
  }

  // The digests kept for one folder tell the truth about key k.
  ghost predicate ListsOnly(md5: Md5, ns: iset<QString>, l: seq<Digest>, folder: Folder)
  {
    forall k {:trigger md5(k)} :: k in ns && md5(k) in l ==> k in folder
  }

  ghost predicate ListsAll(md5: Md5, l: seq<Digest>, folder: Folder)
  {
    forall k {:trigger md5(k)} {:trigger k in folder} :: k in folder ==> md5(k) in l
  }

  // The index reports no name that is not there.
  ghost predicate Sound(md5: Md5, ns: iset<QString>, index: Index, entries: Entries)
  {
    forall f {:trigger md5(f)} :: f in ns && md5(f) in index ==> f in entries && ListsOnly(md5, ns, index[md5(f)], entries[f])
  }

  // And it reports everything that is there.
  ghost predicate Complete(md5: Md5, index: Index, entries: Entries)
  {
    forall f {:trigger md5(f)} {:trigger f in entries} ::
      f in entries ==> md5(f) in index && ListsAll(md5, index[md5(f)], entries[f])
  }

  // Everything is reported but the folders in blind, of which nothing is.
  ghost predicate CompleteBut(md5: Md5, index: Index, entries: Entries, blind: set<QString>)
  {
    && (forall f :: f in blind ==> f in entries)
    && (forall f {:trigger md5(f)} {:trigger f in entries} ::
          f in entries ==> if f in blind then md5(f) !in index else md5(f) in index && ListsAll(md5, index[md5(f)], entries[f]))
  }

  // The index is complete exactly when it is blind to no folder.
  lemma BlindToNone(md5: Md5, index: Index, entries: Entries, blind: set<QString>)
    requires CompleteBut(md5, index, entries, blind)
    ensures Complete(md5, index, entries) <==> blind == {}
  {
    hide ListsAll;
    if blind != {} {
      var f :| f in blind;
      assert f in entries && md5(f) !in index;
    }
  }

  // A folder the index is blind to is denied, with everything in it.
  lemma BlindDenied(env: Env, st: State, blind: set<QString>, f: QString)
    requires CompleteBut(env.cfg.md5, st.hashes, st.entries, blind) && f in blind
    ensures f in st.entries && FolderDoesNotExist(env, st, f) && forall k :: EntryDoesNotExist(env, st, f, k)
  {
    hide ListsAll;
  }

  // What a sound index answers: nothing that is absent is reported.
  lemma SoundAnswers(env: Env, st: State, ns: iset<QString>)
    requires Sound(env.cfg.md5, ns, st.hashes, st.entries)
    ensures forall f :: f in ns && f !in st.entries ==> FolderDoesNotExist(env, st, f)
    ensures forall f, k :: f in ns && k in ns && (f !in st.entries || k !in st.entries[f]) ==> EntryDoesNotExist(env, st, f, k)
  {
  }

  // The two answers are right about every name in ns.
  ghost predicate Truthful(env: Env, st: State, ns: iset<QString>)
  {
    && (forall f :: f in ns ==> (FolderDoesNotExist(env, st, f) <==> f !in st.entries))
    && (forall f, k :: f in ns && k in ns ==> (EntryDoesNotExist(env, st, f, k) <==> !(f in st.entries && k in st.entries[f])))
  }

  lemma ExactAnswers(env: Env, st: State, ns: iset<QString>)
    requires Covers(ns, st.folder, st.entries)
    ensures Truthful(env, st, ns) <==> Sound(env.cfg.md5, ns, st.hashes, st.entries) && Complete(env.cfg.md5, st.hashes, st.entries)
  {
    var md5 := env.cfg.md5;
    if Truthful(env, st, ns) {
      forall f | f in ns && md5(f) in st.hashes ensures f in st.entries && ListsOnly(md5, ns, st.hashes[md5(f)], st.entries[f]) {
        assert !FolderDoesNotExist(env, st, f);
        forall k | k in ns && md5(k) in st.hashes[md5(f)] ensures k in st.entries[f] {
          assert !EntryDoesNotExist(env, st, f, k);
        }
      }
      forall f | f in st.entries ensures md5(f) in st.hashes && ListsAll(md5, st.hashes[md5(f)], st.entries[f]) {
        assert !FolderDoesNotExist(env, st, f) && Within(st.entries[f], ns);
        forall k | k in st.entries[f] ensures md5(k) in st.hashes[md5(f)] {
          assert !EntryDoesNotExist(env, st, f, k);
        }
      }
    }
  }

  // A name that is absent but has the digest of a folder is reported as being there.
  lemma CollisionReported(env: Env, st: State, f: QString, g: QString)
    requires Complete(env.cfg.md5, st.hashes, st.entries) && f in st.entries && g !in st.entries
    requires env.cfg.md5(f) == env.cfg.md5(g)
    ensures !FolderDoesNotExist(env, st, g)
  {
  }

  // ---- After loading ----

  lemma {:induction false} IndexOfLookup(md5: Md5, ns: iset<QString>, fs: seq<QString>, entries: Entries, acc: Index, f: QString)
    requires CollisionFree(md5, ns) && f in ns && forall g :: g in fs ==> g in entries && g in ns
    ensures
      var r := IndexOf(md5, fs, entries, acc);
      && (f in fs ==> md5(f) in r && r[md5(f)] == Digests(md5, Sorted(entries[f].Keys)))
      && (f !in fs ==> (md5(f) in r <==> md5(f) in acc) && (md5(f) in acc ==> r[md5(f)] == acc[md5(f)]))
    decreases fs
  {
    hide Digests, Sorted;
    if fs != [] {
      var acc' := acc[md5(fs[0]) := Digests(md5, Sorted(entries[fs[0]].Keys))];
      IndexOfLookup(md5, ns, fs[1..], entries, acc', f);
    }
  }

  lemma DigestsExact(md5: Md5, ns: iset<QString>, folder: Folder)
    requires CollisionFree(md5, ns) && Within(folder, ns)
    ensures ListsOnly(md5, ns, Digests(md5, Sorted(folder.Keys)), folder)
    ensures ListsAll(md5, Digests(md5, Sorted(folder.Keys)), folder)
  {
    var ks := Sorted(folder.Keys);
    var l := Digests(md5, ks);
    forall k | k in ns && md5(k) in l ensures k in folder {
      var i :| 0 <= i < |l| && l[i] == md5(k);
      assert ks[i] in ks && ks[i] in ns;
      assert ks[i] == k;
    }
    forall k | k in folder ensures md5(k) in l {
      var i :| 0 <= i < |ks| && ks[i] == k;
      assert l[i] == md5(k);
    }
  }

  // The index built by reading a file is exact for the contents read from it.
  lemma LoadedExact(md5: Md5, ns: iset<QString>, folder: QString, entries: Entries)
    requires CollisionFree(md5, ns) && Covers(ns, folder, entries)
    ensures Covers(ns, folder, Normal(entries))
    ensures Sound(md5, ns, FullIndex(md5, entries), Normal(entries))
    ensures Complete(md5, FullIndex(md5, entries), Normal(entries))
  {
    hide Digests, Sorted, ListsOnly, ListsAll, NormalFolder, IndexOf;
    var index := FullIndex(md5, entries);
    forall f | f in ns
      ensures md5(f) in index <==> f in entries
      ensures f in entries ==>
        && ListsOnly(md5, ns, index[md5(f)], Normal(entries)[f]) && ListsAll(md5, index[md5(f)], Normal(entries)[f])
        && Within(Normal(entries)[f], ns)
    {
      assert f in Sorted(entries.Keys) <==> f in entries;
      IndexOfLookup(md5, ns, Sorted(entries.Keys), entries, map[], f);
      if f in entries {
        DigestsExact(md5, ns, entries[f]);
        SameKeys(md5, ns, index[md5(f)], entries[f]);
      }
    }
  }

  lemma SameKeys(md5: Md5, ns: iset<QString>, l: seq<Digest>, folder: Folder)
    requires ListsOnly(md5, ns, l, folder) && ListsAll(md5, l, folder) && Within(folder, ns)
    ensures ListsOnly(md5, ns, l, NormalFolder(folder)) && ListsAll(md5, l, NormalFolder(folder)) && Within(NormalFolder(folder), ns)
  {
  }

  // Opening a wallet, new or not, is where truthful answers start: what OpenStored and OpenNew leave.
  lemma OpenedTruthful(env: Env, st: State, saved: Entries, ns: iset<QString>)
    requires CollisionFree(env.cfg.md5, ns) && Covers(ns, st.folder, saved)
    requires st.entries == Normal(saved) && st.hashes == FullIndex(env.cfg.md5, saved)
    ensures Covers(ns, st.folder, st.entries) && Truthful(env, st, ns)
  {
    hide CollisionFree, Covers, Truthful, Sound, Complete, FullIndex, Normal;
    LoadedExact(env.cfg.md5, ns, st.folder, saved);
    ExactAnswers(env, st, ns);
  }

  // There are digests that tell all names of up to seven code units apart: the length, then the upper
  // and the lower halves of the units.
  function ShortDigest(s: QString): Digest
  {
    seq(16, i requires 0 <= i < 16 => ShortByte(s, i))
  }

  function ShortByte(s: QString, i: nat): byte
  {
    if i == 0 then Truncated(|s|)
    else if i <= |s| && i <= 7 then Truncated(s[i - 1] / 0x100)
    else if 8 <= i < |s| + 8 then Truncated(s[i - 8])
    else 0
  }

  lemma ShortNamesApart()
    ensures CollisionFree(ShortDigest, iset s: QString | |s| <= 7)
  {
    forall a: QString, b: QString | |a| <= 7 && |b| <= 7 && ShortDigest(a) == ShortDigest(b) ensures a == b {
      SameShort(a, b);
    }
  }

  lemma SameShort(a: QString, b: QString)
    requires |a| <= 7 && |b| <= 7 && ShortDigest(a) == ShortDigest(b)
    ensures a == b
  {
    hide ShortDigest;
    SameLength(a, b);
    forall i | 0 <= i < |a| ensures a[i] == b[i] {
      ShortAt(a, i);
      ShortAt(b, i);
      SameUnit(a[i], b[i]);
    }
  }

  lemma ShortAt(s: QString, i: nat)
    requires i < |s| <= 7
    ensures ShortDigest(s)[i + 1] == Truncated(s[i] / 0x100) && ShortDigest(s)[i + 8] == Truncated(s[i])
  {
    hide Truncated;
  }

  lemma SameLength(a: QString, b: QString)
    requires |a| <= 7 && |b| <= 7 && ShortDigest(a) == ShortDigest(b)
    ensures |a| == |b|
  {
    hide Truncated;
    assert ShortDigest(a)[0] == Truncated(|a|) && ShortDigest(b)[0] == Truncated(|b|);
    NatOfTruncated(|a|);
    NatOfTruncated(|b|);
  }

  lemma SameUnit(x: CodeUnit, y: CodeUnit)
    requires Truncated(x / 0x100) == Truncated(y / 0x100) && Truncated(x) == Truncated(y)
    ensures x == y
  {
    hide Truncated;
    NatOfTruncated(x / 0x100);
    NatOfTruncated(y / 0x100);
    NatOfTruncated(x);
    NatOfTruncated(y);
    assert x / 0x100 == y / 0x100 && x % 0x100 == y % 0x100;
  }

  // ---- Over a run ----

  predicate NamesFolder(op: Op)
  {
    op.WriteOp? || op.RenameEntryOp?
  }

  predicate Reloads(env: Env, st: State, op: Op)
  {
    op.ReopenOp? || op.ChangePasswordOp? || (op.RenameWalletOp? && env.encode(op.newName) != Path(env, st))
  }

  // The folders the index is blind to after an operation: a folder written or renamed in before it
  // was created joins them, one that is removed leaves them, and reading the file clears them.
  function BlindAfter(env: Env, st: State, op: Op, blind: set<QString>): set<QString>
  {
    if Reloads(env, st, op) then {}
    else if op.RemoveFolderOp? then blind - {op.f}
    else if NamesFolder(op) && st.folder !in st.entries then blind + {st.folder}
    else blind
  }

  // The names an operation brings in.
  ghost predicate OnlyNames(op: Op, ns: iset<QString>)
  {
    match op
    case CreateFolderOp(f) => f in ns
    case SetFolderOp(f) => f in ns
    case WriteOp(key, _, _) => key in ns
    case RemoveEntryOp(key) => key in ns
    case RenameEntryOp(o, n) => o in ns && n in ns
    case RemoveFolderOp(f) => f in ns
    case _ => true
  }

  // What every operation keeps, as long as names from ns are used.
  ghost predicate Reliable(env: Env, st: State, ns: iset<QString>)
  {
    && CollisionFree(env.cfg.md5, ns) && Covers(ns, st.folder, st.entries)
    && Sound(env.cfg.md5, ns, st.hashes, st.entries)
  }

  // Still reliable, and what the index was blind to before has become what it is blind to now.
  ghost predicate Kept(env: Env, st: State, st': State, ns: iset<QString>, blind: set<QString>, blind': set<QString>)
  {
    && Reliable(env, st', ns)
    && (CompleteBut(env.cfg.md5, st.hashes, st.entries, blind) ==> CompleteBut(env.cfg.md5, st'.hashes, st'.entries, blind'))
  }

  // Soundness is kept by every operation; and what the index is blind to changes as BlindAfter says,
  // so a complete index stays complete exactly when nothing is written or renamed in a missing folder.
  lemma StepIndex(env: Env, st: State, pw: seq<byte>, op: Op, rnd: Random, ns: iset<QString>, blind: set<QString>)
    requires Good(env, st, pw) && Allowed(env, st, op) && Drawn(st, rnd) && Reliable(env, st, ns) && OnlyNames(op, ns)
    ensures Kept(env, st, Step(env, st, pw, op, rnd).1, ns, blind, BlindAfter(env, st, op, blind))
    ensures
      var st' := Step(env, st, pw, op, rnd).1;
      Complete(env.cfg.md5, st.hashes, st.entries) ==>
        (Complete(env.cfg.md5, st'.hashes, st'.entries) <==> (NamesFolder(op) ==> st.folder in st.entries))
  {
    GoodFacts(env, st, pw);
    hide Step, Reliable, Complete, CompleteBut, Reloads, OnlyNames, BlindAfter, NamesFolder, Good;
    var st' := Step(env, st, pw, op, rnd).1;
    StepBlind(env, st, pw, op, rnd, ns, blind);
    if Complete(env.cfg.md5, st.hashes, st.entries) {
      CompleteToAll(env.cfg.md5, st.hashes, st.entries);
      StepBlind(env, st, pw, op, rnd, ns, {});
      BlindToNone(env.cfg.md5, st'.hashes, st'.entries, BlindAfter(env, st, op, {}));
      BlindToFirst(env, st, op);
    }
  }

  lemma CompleteToAll(md5: Md5, index: Index, entries: Entries)
    requires Complete(md5, index, entries)
    ensures CompleteBut(md5, index, entries, {})
  {
  }

  lemma BlindToFirst(env: Env, st: State, op: Op)
    ensures BlindAfter(env, st, op, {}) == {} <==> (NamesFolder(op) ==> st.folder in st.entries)
  {
  }

  lemma StepBlind(env: Env, st: State, pw: seq<byte>, op: Op, rnd: Random, ns: iset<QString>, blind: set<QString>)
    requires Good(env, st, pw) && Allowed(env, st, op) && Drawn(st, rnd) && Reliable(env, st, ns) && OnlyNames(op, ns)
    ensures Kept(env, st, Step(env, st, pw, op, rnd).1, ns, blind, BlindAfter(env, st, op, blind))
  {
    hide OnlyNames, Step, Reliable, Kept, BlindAfter, Reloads;
    if Reloads(env, st, op) {
      ReloadBlind(env, st, pw, op, rnd, ns, blind);
    } else if op.SyncOp? || op.RenameWalletOp? {
      SilentBlind(env, st, pw, op, rnd, ns, blind);
    } else {
      EveryReload(env, st, op);
      EntryStepIndex(env, st, pw, op, rnd, ns, blind);
    }
  }

  lemma EveryReload(env: Env, st: State, op: Op)
    ensures op.ReopenOp? || op.ChangePasswordOp? ==> Reloads(env, st, op)
  {
  }

  lemma ReloadBlind(env: Env, st: State, pw: seq<byte>, op: Op, rnd: Random, ns: iset<QString>, blind: set<QString>)
    requires Good(env, st, pw) && Allowed(env, st, op) && Drawn(st, rnd) && Reliable(env, st, ns) && Reloads(env, st, op)
    ensures Kept(env, st, Step(env, st, pw, op, rnd).1, ns, blind, BlindAfter(env, st, op, blind))
  {
    hide Step, Reliable, Complete, CompleteBut, Reloads;
    ReloadIndex(env, st, pw, op, rnd, ns);
    var st' := Step(env, st, pw, op, rnd).1;
    CompleteToAll(env.cfg.md5, st'.hashes, st'.entries);
  }

  lemma SilentBlind(env: Env, st: State, pw: seq<byte>, op: Op, rnd: Random, ns: iset<QString>, blind: set<QString>)
    requires Good(env, st, pw) && Allowed(env, st, op) && Drawn(st, rnd) && Reliable(env, st, ns)
    requires (op.SyncOp? || op.RenameWalletOp?) && !Reloads(env, st, op)
    ensures Kept(env, st, Step(env, st, pw, op, rnd).1, ns, blind, BlindAfter(env, st, op, blind))
  {
    hide Step, Reliable, Kept, BlindAfter, Reloads;
    SilentIndex(env, st, pw, op, rnd);
    SilentlyBlind(env, st, op, blind);
    KeptSame(env, st, Step(env, st, pw, op, rnd).1, ns, blind);
  }

  lemma SilentlyBlind(env: Env, st: State, op: Op, blind: set<QString>)
    requires (op.SyncOp? || op.RenameWalletOp?) && !Reloads(env, st, op)
    ensures BlindAfter(env, st, op, blind) == blind
  {
  }

  lemma KeptSame(env: Env, st: State, st': State, ns: iset<QString>, blind: set<QString>)
    requires Reliable(env, st, ns) && st'.hashes == st.hashes && st'.entries == st.entries && st'.folder == st.folder
    ensures Kept(env, st, st', ns, blind, blind)
  {
    hide CollisionFree, Covers, Sound, CompleteBut;
  }

  lemma ReloadIndex(env: Env, st: State, pw: seq<byte>, op: Op, rnd: Random, ns: iset<QString>)
    requires Good(env, st, pw) && Allowed(env, st, op) && Drawn(st, rnd) && Reliable(env, st, ns)
    requires Reloads(env, st, op)
    ensures
      var st' := Step(env, st, pw, op, rnd).1;
      Reliable(env, st', ns) && Complete(env.cfg.md5, st'.hashes, st'.entries)
  {
    hide Payload, Accepted, Storable, Reopened, RenameWallet, FullIndex, CollisionFree, Covers, Sound, Complete, Delta, Normal;
    LoadedExact(env.cfg.md5, ns, st.folder, st.entries);
    if op.ReopenOp? {
      ReopenKeeps(env, st, pw, rnd);
    } else if op.RenameWalletOp? {
      RenameWalletKeeps(env, st, pw, op.newName, rnd.filler);
    } else {
      ChangePasswordKeeps(env, st, pw, op.password, rnd);
    }
  }

  // Saving, and renaming a wallet to the name it has.
  lemma SilentIndex(env: Env, st: State, pw: seq<byte>, op: Op, rnd: Random)
    requires Good(env, st, pw) && Allowed(env, st, op) && Drawn(st, rnd)
    requires (op.SyncOp? || op.RenameWalletOp?) && !Reloads(env, st, op)
    ensures
      var st' := Step(env, st, pw, op, rnd).1;
      st'.hashes == st.hashes && st'.entries == st.entries && st'.folder == st.folder
  {
    hide Payload, Accepted, Delta, Sync, CloseInternal, MoveAndOpen, Reopened;
    if op.SyncOp? {
      SyncSaves(env, st, rnd.filler);
    }
  }

  lemma EntryStepIndex(env: Env, st: State, pw: seq<byte>, op: Op, rnd: Random, ns: iset<QString>, blind: set<QString>)
    requires Good(env, st, pw) && Allowed(env, st, op) && Drawn(st, rnd) && Reliable(env, st, ns) && OnlyNames(op, ns)
    requires OnEntries(op)
    ensures Kept(env, st, Step(env, st, pw, op, rnd).1, ns, blind, BlindAfter(env, st, op, blind))
  {
    hide Payload, Accepted, Storable, CollisionFree, Within, Sound, CompleteBut, Delta,
         WriteEntry, RenameEntry, RemoveEntry, RemoveFolder, CreateFolder;
    match op
    case CreateFolderOp(f) => CreateFolderIndex(env, st, f, ns, blind);
    case SetFolderOp(f) =>
    case WriteOp(key, etype, value) => WriteIndex(env, st, Entry(key, etype, value), ns, blind);
    case RemoveEntryOp(key) => RemoveEntryIndex(env, st, key, ns, blind);
    case RenameEntryOp(o, n) => RenameEntryIndex(env, st, o, n, ns, blind);
    case RemoveFolderOp(f) => RemoveFolderIndex(env, st, f, ns, blind);
  }

  lemma CreateFolderIndex(env: Env, st: State, f: QString, ns: iset<QString>, blind: set<QString>)
    requires Reliable(env, st, ns) && f in ns
    ensures Kept(env, st, CreateFolder(env, st, f).1, ns, blind, blind)
  {
    hide CollisionFree, Within, Sound, CompleteBut;
    if f !in st.entries {
      AddedSound(env.cfg.md5, ns, st.hashes, st.entries, f);
      NothingWithin(ns);
      if CompleteBut(env.cfg.md5, st.hashes, st.entries, blind) {
        AddedComplete(env.cfg.md5, ns, st.folder, st.hashes, st.entries, f, blind);
      }
    }
  }

  lemma AddedSound(md5: Md5, ns: iset<QString>, index: Index, entries: Entries, f: QString)
    requires CollisionFree(md5, ns) && Sound(md5, ns, index, entries) && f in ns && f !in entries
    ensures Sound(md5, ns, index[md5(f) := []], entries[f := map[]])
  {
    EmptyLists(md5, ns);
    hide ListsOnly;
    forall g | g in ns && md5(g) in index[md5(f) := []]
      ensures g in entries[f := map[]] && ListsOnly(md5, ns, index[md5(f) := []][md5(g)], entries[f := map[]][g])
    {
      assert g != f ==> md5(g) in index;
    }
  }

  lemma AddedComplete(md5: Md5, ns: iset<QString>, folder: QString, index: Index, entries: Entries, f: QString, blind: set<QString>)
    requires CollisionFree(md5, ns) && Covers(ns, folder, entries) && f in ns && f !in entries
    requires CompleteBut(md5, index, entries, blind)
    ensures CompleteBut(md5, index[md5(f) := []], entries[f := map[]], blind)
  {
    EmptyLists(md5, ns);
    hide ListsAll, Within;
  }

  lemma EmptyLists(md5: Md5, ns: iset<QString>)
    ensures ListsOnly(md5, ns, [], map[]) && ListsAll(md5, [], map[])
  {
  }

  lemma NothingWithin(ns: iset<QString>)
    ensures Within(map[], ns)
  {
  }

  function Joined(st: State, blind: set<QString>): set<QString>
  {
    if st.folder in st.entries then blind else blind + {st.folder}
  }

  // One folder changes, and its list, if there is one, changes with it.
  lemma UpdateIndex(env: Env, st: State, st': State, l: seq<Digest> -> seq<Digest>, folder: Folder, ns: iset<QString>, blind: set<QString>)
    requires Reliable(env, st, ns) && Within(folder, ns)
    requires st'.entries == st.entries[st.folder := folder] && st'.folder == st.folder
    requires st'.hashes == WithList(st.hashes, env.cfg.md5(st.folder), l)
    requires forall d {:trigger l(d)} :: ListsOnly(env.cfg.md5, ns, d, FolderOf(st)) ==> ListsOnly(env.cfg.md5, ns, l(d), folder)
    requires forall d {:trigger l(d)} :: ListsAll(env.cfg.md5, d, FolderOf(st)) ==> ListsAll(env.cfg.md5, l(d), folder)
    ensures Kept(env, st, st', ns, blind, Joined(st, blind))
  {
    hide ListsOnly, ListsAll, Within;
    var md5, blind' := env.cfg.md5, Joined(st, blind);
    assert Covers(ns, st'.folder, st'.entries);
    forall g | g in ns && md5(g) in st'.hashes ensures g in st'.entries && ListsOnly(md5, ns, st'.hashes[md5(g)], st'.entries[g]) {
      assert md5(g) in st.hashes;
    }
    forall g | CompleteBut(md5, st.hashes, st.entries, blind) && g in st'.entries
      ensures if g in blind' then md5(g) !in st'.hashes else md5(g) in st'.hashes && ListsAll(md5, st'.hashes[md5(g)], st'.entries[g])
    {
      if g != st.folder {
        assert g in st.entries;
      }
    }
  }

  lemma FolderWithin(env: Env, st: State, ns: iset<QString>)
    requires Reliable(env, st, ns)
    ensures Within(FolderOf(st), ns)
  {
  }

  lemma WriteIndex(env: Env, st: State, e: Entry, ns: iset<QString>, blind: set<QString>)
    requires Reliable(env, st, ns) && st.open && e.key in ns
    ensures Kept(env, st, WriteEntry(env, st, e), ns, blind, Joined(st, blind))
  {
    FolderWithin(env, st, ns);
    hide Reliable, CompleteBut;
    UpdateIndex(env, st, WriteEntry(env, st, e), l => l + [env.cfg.md5(e.key)], FolderOf(st)[e.key := e], ns, blind);
  }

  lemma RemoveEntryIndex(env: Env, st: State, key: QString, ns: iset<QString>, blind: set<QString>)
    requires Reliable(env, st, ns) && key in ns
    requires st.open && st.folder in st.entries
    ensures Kept(env, st, RemoveEntry(env, st, key).1, ns, blind, blind)
  {
    FolderWithin(env, st, ns);
    if key in st.entries[st.folder] {
      assert CollisionFree(env.cfg.md5, ns);
      hide Reliable, CompleteBut;
      UpdateIndex(env, st, RemoveEntry(env, st, key).1, l => RemoveAll(l, env.cfg.md5(key)), FolderOf(st) - {key}, ns, blind);
    }
  }

  lemma RenameEntryIndex(env: Env, st: State, o: QString, n: QString, ns: iset<QString>, blind: set<QString>)
    requires Reliable(env, st, ns) && o in ns && n in ns
    ensures Kept(env, st, RenameEntry(env, st, o, n).1, ns, blind, Joined(st, blind))
  {
    FolderWithin(env, st, ns);
    var md5, emap := env.cfg.md5, FolderOf(st);
    var st' := RenameEntry(env, st, o, n).1;
    hide Reliable, CompleteBut, ListsOnly, ListsAll;
    if o in emap && n !in emap {
      EntryRenamedIndex(env, st, o, n, ns, blind);
    } else {
      assert st'.hashes == WithList(st.hashes, md5(st.folder), l => l);
      UpdateIndex(env, st, st', l => l, emap, ns, blind);
    }
  }

  lemma EntryRenamedIndex(env: Env, st: State, o: QString, n: QString, ns: iset<QString>, blind: set<QString>)
    requires Reliable(env, st, ns) && o in ns && n in ns && o in FolderOf(st) && n !in FolderOf(st)
    ensures Kept(env, st, RenameEntry(env, st, o, n).1, ns, blind, Joined(st, blind))
  {
    FolderWithin(env, st, ns);
    var md5, emap := env.cfg.md5, FolderOf(st);
    hide Reliable, CompleteBut, ListsOnly, ListsAll;
    var folder := (emap - {o})[n := emap[o]];
    var l := (d: seq<Digest>) => RemoveAll(d, md5(o)) + [md5(n)];
    forall d {:trigger l(d)}
      ensures ListsOnly(md5, ns, d, emap) ==> ListsOnly(md5, ns, l(d), folder)
      ensures ListsAll(md5, d, emap) ==> ListsAll(md5, l(d), folder)
    {
      ReliableFree(env, st, ns);
      RenamedLists(md5, ns, emap, o, n, d);
    }
    UpdateIndex(env, st, RenameEntry(env, st, o, n).1, l, folder, ns, blind);
  }

  lemma ReliableFree(env: Env, st: State, ns: iset<QString>)
    requires Reliable(env, st, ns)
    ensures CollisionFree(env.cfg.md5, ns)
  {
  }

  lemma RenamedLists(md5: Md5, ns: iset<QString>, folder: Folder, o: QString, n: QString, d: seq<Digest>)
    requires CollisionFree(md5, ns) && o in ns && n in ns && Within(folder, ns) && o in folder && n !in folder
    ensures ListsOnly(md5, ns, d, folder) ==> ListsOnly(md5, ns, RemoveAll(d, md5(o)) + [md5(n)], (folder - {o})[n := folder[o]])
    ensures ListsAll(md5, d, folder) ==> ListsAll(md5, RemoveAll(d, md5(o)) + [md5(n)], (folder - {o})[n := folder[o]])
  {
  }

  lemma RemoveFolderIndex(env: Env, st: State, f: QString, ns: iset<QString>, blind: set<QString>)
    requires Reliable(env, st, ns) && st.open && f in ns
    ensures Kept(env, st, RemoveFolder(env, st, f).1, ns, blind, blind - {f})
  {
    hide CollisionFree, Within, Sound, CompleteBut;
    if f in st.entries {
      RemovedSound(env.cfg.md5, ns, st.hashes, st.entries, f);
      if CompleteBut(env.cfg.md5, st.hashes, st.entries, blind) {
        RemovedComplete(env.cfg.md5, ns, st.folder, st.hashes, st.entries, f, blind);
      }
    } else if CompleteBut(env.cfg.md5, st.hashes, st.entries, blind) {
      NeverBlind(env.cfg.md5, st.hashes, st.entries, f, blind);
      assert blind - {f} == blind;
    }
  }

  lemma RemovedSound(md5: Md5, ns: iset<QString>, index: Index, entries: Entries, f: QString)
    requires CollisionFree(md5, ns) && Sound(md5, ns, index, entries) && f in ns
    ensures Sound(md5, ns, index - {md5(f)}, entries - {f})
  {
    hide ListsOnly;
    forall g | g in ns && md5(g) in index - {md5(f)}
      ensures g in entries - {f} && ListsOnly(md5, ns, (index - {md5(f)})[md5(g)], (entries - {f})[g])
    {
      assert md5(g) in index && g != f;
    }
  }

  lemma RemovedComplete(md5: Md5, ns: iset<QString>, folder: QString, index: Index, entries: Entries, f: QString, blind: set<QString>)
    requires CollisionFree(md5, ns) && Covers(ns, folder, entries) && f in ns && CompleteBut(md5, index, entries, blind)
    ensures CompleteBut(md5, index - {md5(f)}, entries - {f}, blind - {f})
  {
    hide ListsAll, Within;
  }

  lemma NeverBlind(md5: Md5, index: Index, entries: Entries, f: QString, blind: set<QString>)
    requires CompleteBut(md5, index, entries, blind) && f !in entries
    ensures f !in blind
  {
  }

  // What the index is blind to at the end of a run.
  ghost function BlindRun(env: Env, st: State, pw: seq<byte>, es: seq<Event>, blind: set<QString>): set<QString>
    requires env.cfg.Valid() && AllowedRun(env, st, pw, es)
    decreases es
  {
    if es == [] then blind
    else
      BlindRun(env, Step(env, st, pw, es[0].op, es[0].rnd).1, PasswordAfter(pw, es[0].op), es[1..],
               BlindAfter(env, st, es[0].op, blind))
  }

  ghost predicate OnlyNamesRun(es: seq<Event>, ns: iset<QString>)
  {
    forall e :: e in es ==> OnlyNames(e.op, ns)
  }

  // In every reachable state the index is sound, and blind to exactly the folders that BlindRun says.
  lemma {:induction false} RunIndex(env: Env, st: State, pw: seq<byte>, es: seq<Event>, ns: iset<QString>, blind: set<QString>)
    requires Good(env, st, pw) && AllowedRun(env, st, pw, es) && Reliable(env, st, ns) && OnlyNamesRun(es, ns)
    ensures Kept(env, st, Run(env, st, pw, es).1, ns, blind, BlindRun(env, st, pw, es, blind))
    decreases es
  {
    hide Step, Reliable, CompleteBut, Good, BlindAfter, OnlyNames;
    if es != [] {
      GoodFacts(env, st, pw);
      StepRefines(env, st, pw, es[0].op, es[0].rnd);
      StepBlind(env, st, pw, es[0].op, es[0].rnd, ns, blind);
      RunIndex(env, Step(env, st, pw, es[0].op, es[0].rnd).1, PasswordAfter(pw, es[0].op), es[1..], ns,
               BlindAfter(env, st, es[0].op, blind));
    }
  }

  // From truthful answers every run leads to truthful ones if and only if BlindRun ends empty.
  lemma RunExact(env: Env, st: State, pw: seq<byte>, es: seq<Event>, ns: iset<QString>)
    requires Good(env, st, pw) && AllowedRun(env, st, pw, es) && OnlyNamesRun(es, ns)
    requires CollisionFree(env.cfg.md5, ns) && Covers(ns, st.folder, st.entries) && Truthful(env, st, ns)
    ensures
      var end := Run(env, st, pw, es).1;
      && Reliable(env, end, ns)
      && (Truthful(env, end, ns) <==> BlindRun(env, st, pw, es, {}) == {})
  {
    GoodFacts(env, st, pw);
    hide CollisionFree, Covers, Truthful, Sound, Complete, CompleteBut, Good, BlindRun, OnlyNamesRun, Run, AllowedRun;
    var end := Run(env, st, pw, es).1;
    ExactAnswers(env, st, ns);
    CompleteToAll(env.cfg.md5, st.hashes, st.entries);
    RunIndex(env, st, pw, es, ns, {});
    BlindToNone(env.cfg.md5, end.hashes, end.entries, BlindRun(env, st, pw, es, {}));
    ExactAnswers(env, end, ns);
  }

  // Nothing is written or renamed in a folder that does not exist.
  ghost predicate Careful(env: Env, st: State, pw: seq<byte>, es: seq<Event>)
    requires env.cfg.Valid() && AllowedRun(env, st, pw, es)
    decreases es
  {
    es == [] ||
    ((NamesFolder(es[0].op) ==> st.folder in st.entries) &&
     Careful(env, Step(env, st, pw, es[0].op, es[0].rnd).1, PasswordAfter(pw, es[0].op), es[1..]))
  }

  // The file is not read again and folder f is not removed.
  ghost predicate Lasting(env: Env, st: State, pw: seq<byte>, es: seq<Event>, f: QString)
    requires env.cfg.Valid() && AllowedRun(env, st, pw, es)
    decreases es
  {
    es == [] ||
    (!Reloads(env, st, es[0].op) && es[0].op != RemoveFolderOp(f) &&
     Lasting(env, Step(env, st, pw, es[0].op, es[0].rnd).1, PasswordAfter(pw, es[0].op), es[1..], f))
  }

  // Until then the index stays blind to a folder.
  lemma {:induction false} StaysBlind(env: Env, st: State, pw: seq<byte>, es: seq<Event>, blind: set<QString>, f: QString)
    requires env.cfg.Valid() && AllowedRun(env, st, pw, es) && Lasting(env, st, pw, es, f) && f in blind
    ensures f in BlindRun(env, st, pw, es, blind)
    decreases es
  {
    hide Step;
    if es != [] {
      StaysBlind(env, Step(env, st, pw, es[0].op, es[0].rnd).1, PasswordAfter(pw, es[0].op), es[1..],
                 BlindAfter(env, st, es[0].op, blind), f);
    }
  }

  // A folder that comes to exist by a write or rename in it is denied, with everything that is ever put
  // in it, until the file is read again or the folder is removed.
  lemma DeniedUntil(env: Env, st: State, pw: seq<byte>, es: seq<Event>, ns: iset<QString>)
    requires Good(env, st, pw) && AllowedRun(env, st, pw, es) && OnlyNamesRun(es, ns)
    requires CollisionFree(env.cfg.md5, ns) && Covers(ns, st.folder, st.entries) && Truthful(env, st, ns)
    requires es != [] && NamesFolder(es[0].op) && st.folder !in st.entries && Lasting(env, st, pw, es, st.folder)
    ensures
      var end := Run(env, st, pw, es).1;
      && st.folder in end.entries && FolderDoesNotExist(env, end, st.folder)
      && forall k :: EntryDoesNotExist(env, end, st.folder, k)
  {
    GoodFacts(env, st, pw);
    hide Step, CollisionFree, Covers, Truthful, Sound, Complete, CompleteBut, Good, Run, OnlyNamesRun;
    ExactAnswers(env, st, ns);
    CompleteToAll(env.cfg.md5, st.hashes, st.entries);
    RunIndex(env, st, pw, es, ns, {});
    StaysBlind(env, Step(env, st, pw, es[0].op, es[0].rnd).1, PasswordAfter(pw, es[0].op), es[1..],
               BlindAfter(env, st, es[0].op, {}), st.folder);
    BlindDenied(env, Run(env, st, pw, es).1, BlindRun(env, st, pw, es, {}), st.folder);
  }

  // Without reading the file again and without removing folders, careful runs are the only ones after
  // which the answers are right.
  lemma CarefulExact(env: Env, st: State, pw: seq<byte>, es: seq<Event>, ns: iset<QString>)
    requires Good(env, st, pw) && AllowedRun(env, st, pw, es) && OnlyNamesRun(es, ns)
    requires CollisionFree(env.cfg.md5, ns) && Covers(ns, st.folder, st.entries) && Truthful(env, st, ns)
    requires forall f :: Lasting(env, st, pw, es, f)
    ensures Truthful(env, Run(env, st, pw, es).1, ns) <==> Careful(env, st, pw, es)
  {
    GoodFacts(env, st, pw);
    hide CollisionFree, Covers, Truthful, Good, Run, OnlyNamesRun, AllowedRun, BlindRun, Careful, Lasting;
    RunExact(env, st, pw, es, ns);
    CarefulNotBlind(env, st, pw, es);
  }

  lemma {:induction false} CarefulNotBlind(env: Env, st: State, pw: seq<byte>, es: seq<Event>)
    requires env.cfg.Valid() && AllowedRun(env, st, pw, es) && forall f :: Lasting(env, st, pw, es, f)
    ensures BlindRun(env, st, pw, es, {}) == {} <==> Careful(env, st, pw, es)
    decreases es
  {
    hide Step;
    if es != [] {
      var st', pw' := Step(env, st, pw, es[0].op, es[0].rnd).1, PasswordAfter(pw, es[0].op);
      assert Lasting(env, st, pw, es, st.folder);
      forall f ensures Lasting(env, st', pw', es[1..], f) {
        assert Lasting(env, st, pw, es, f);
      }
      if NamesFolder(es[0].op) && st.folder !in st.entries {
        StaysBlind(env, st', pw', es[1..], BlindAfter(env, st, es[0].op, {}), st.folder);
      } else {
        CarefulNotBlind(env, st', pw', es[1..]);
        assert BlindAfter(env, st, es[0].op, {}) == {};
      }
    }
  }
}
