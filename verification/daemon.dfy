/** KSecretD: the table of open wallets, its two tables of timers, and the secret-service
    collections that mirror the handles. Opening a wallet is taken as one step; what the user, the
    disk and the settings decide comes in as parameters. */
module Daemon {
  import opened Choice
  import opened Labels
  import opened Timers
  import opened FreshNames

  datatype Wallet = Wallet(name: string, refs: int)
  // A secret-service collection; its handle is -1 while it is locked.
  datatype Collection = Collection(uniqueLabel: FdoUniqueLabel, handle: int)

  type Wallets = map<int, Wallet>
  // The collections in the order of their object paths.
  type Collections = seq<Collection>

  function NameOf(c: Collection): string
  {
    ToName(c.uniqueLabel)
  }

  // getCollectionByWalletName(): the first collection of that name, or -1
  function Find(cs: Collections, name: string): (i: int)
    ensures -1 <= i < |cs|
    ensures i >= 0 ==> NameOf(cs[i]) == name && forall j :: 0 <= j < i ==> NameOf(cs[j]) != name
    ensures i == -1 ==> forall j :: 0 <= j < |cs| ==> NameOf(cs[j]) != name
  {
    if cs == [] then -1
    else if NameOf(cs[0]) == name then 0
    else
      var i := Find(cs[1..], name);
      assert forall j :: 1 <= j < |cs| ==> cs[j] == cs[1..][j - 1];
      if i == -1 then -1 else i + 1
  }

  function Locked(cs: Collections, name: string): Collections
  {
    var i := Find(cs, name);
    if i == -1 then cs else cs[i := cs[i].(handle := -1)]
  }

  // Of all collections of that name only the first one loses its handle.
  lemma LockedMeans(cs: Collections, name: string, k: nat)
    requires k < |cs|
    ensures |Locked(cs, name)| == |cs| && Locked(cs, name)[k].uniqueLabel == cs[k].uniqueLabel
    ensures Locked(cs, name)[k].handle ==
      if ToName(cs[k].uniqueLabel) == name && (forall j :: 0 <= j < k ==> ToName(cs[j].uniqueLabel) != name) then -1 else cs[k].handle
  {
    hide ToName;
    var i := Find(cs, name);
    forall j | 0 <= j < |cs| ensures NameOf(cs[j]) == ToName(cs[j].uniqueLabel) {
    }
    if i != -1 && i < k {
      assert ToName(cs[i].uniqueLabel) == name;
    }
  }

  function Inserted(cs: Collections, at: nat, c: Collection): Collections
    requires at <= |cs|
  {
    cs[..at] + [c] + cs[at..]
  }

  predicate IsOpen(wallets: Wallets, name: string)
  {
    exists h :: h in wallets && wallets[h].name == name
  }

  ghost predicate DistinctNames(wallets: Wallets)
  {
    forall g, h :: g in wallets && h in wallets && wallets[g].name == wallets[h].name ==> g == h
  }

  // A collection that is not locked names the wallet open under its handle, and is the one found by that name.
  ghost predicate Mirrors(wallets: Wallets, cs: Collections)
  {
    && (forall i :: 0 <= i < |cs| ==> Matches(wallets, cs[i]))
    && (forall i, j :: 0 <= j < i < |cs| ==> Apart(cs[j], cs[i]))
  }

  predicate Matches(wallets: Wallets, c: Collection)
  {
    c.handle >= 0 ==> c.handle in wallets && wallets[c.handle].name == NameOf(c)
  }

  predicate Apart(earlier: Collection, c: Collection)
  {
    c.handle >= 0 ==> NameOf(earlier) != NameOf(c)
  }

  // ---- What each change of the tables does to the mirror ----

  lemma OpenMirrors(wallets: Wallets, cs: Collections, h: int, w: Wallet)
    requires Mirrors(wallets, cs) && h !in wallets
    ensures Mirrors(wallets[h := w], cs)
  {
  }

  lemma CloseMirrors(wallets: Wallets, cs: Collections, h: int)
    requires Mirrors(wallets, cs) && h in wallets
    ensures Mirrors(wallets - {h}, Locked(cs, wallets[h].name))
  {
  }

  lemma ReferenceMirrors(wallets: Wallets, cs: Collections, h: int, refs: int)
    requires Mirrors(wallets, cs) && h in wallets
    ensures Mirrors(wallets[h := wallets[h].(refs := refs)], cs)
  {
  }

  lemma UnlockMirrors(wallets: Wallets, cs: Collections, i: nat, h: int)
    requires Mirrors(wallets, cs) && h in wallets && Find(cs, wallets[h].name) == i
    ensures Mirrors(wallets, cs[i := cs[i].(handle := h)])
  {
    var cs' := cs[i := cs[i].(handle := h)];
    forall k, j | 0 <= j < k < |cs'| ensures Apart(cs'[j], cs'[k]) {
      assert Apart(cs[j], cs[k]);
    }
  }

  // A collection without a wallet open under its name is locked.
  lemma NotOpenLocked(wallets: Wallets, cs: Collections, name: string)
    requires Mirrors(wallets, cs) && forall h :: h in wallets ==> wallets[h].name != name
    ensures forall i :: 0 <= i < |cs| && NameOf(cs[i]) == name ==> cs[i].handle < 0
  {
  }

  lemma InsertMirrors(wallets: Wallets, cs: Collections, at: nat, c: Collection)
    requires Mirrors(wallets, cs) && at <= |cs|
    requires forall i :: 0 <= i < |cs| && NameOf(cs[i]) == NameOf(c) ==> cs[i].handle < 0
    requires c.handle >= 0 ==> c.handle in wallets && wallets[c.handle].name == NameOf(c) && Find(cs, NameOf(c)) == -1
    ensures Mirrors(wallets, Inserted(cs, at, c))
  {
    var cs' := Inserted(cs, at, c);
    InsertedAt(cs, at, c);
    hide Inserted;
    forall i | 0 <= i < |cs'| ensures Matches(wallets, cs'[i]) {
    }
    forall i, j | 0 <= j < i < |cs'| ensures Apart(cs'[j], cs'[i]) {
      if i == at {
        assert cs'[j] == cs[j];
      } else if j == at {
        assert cs'[i] == cs[i - 1];
      } else {
        hide Apart;
        assert Apart(cs[if j < at then j else j - 1], cs[if i < at then i else i - 1]);
      }
    }
  }

  // A locked collection may come anywhere but before an unlocked one of its name.
  ghost predicate InsertsWell(cs: Collections, at: nat, name: string)
  {
    forall j :: at <= j < |cs| && NameOf(cs[j]) == name ==> cs[j].handle < 0
  }

  lemma InsertLockedMirrors(wallets: Wallets, cs: Collections, at: nat, c: Collection)
    requires Mirrors(wallets, cs) && at <= |cs| && c.handle < 0
    ensures Mirrors(wallets, Inserted(cs, at, c)) <==> InsertsWell(cs, at, NameOf(c))
  {
    hide Inserted, NameOf;
    InsertedAt(cs, at, c);
    if InsertsWell(cs, at, NameOf(c)) {
      InsertedWell(wallets, cs, Inserted(cs, at, c), at, c);
    } else {
      var j :| at <= j < |cs| && NameOf(cs[j]) == NameOf(c) && cs[j].handle >= 0;
      hide Mirrors;
      BeforeUnlocked(wallets, Inserted(cs, at, c), at, j + 1);
    }
  }

  lemma InsertedWell(wallets: Wallets, cs: Collections, cs': Collections, at: nat, c: Collection)
    requires Mirrors(wallets, cs) && at <= |cs| && c.handle < 0 && InsertsWell(cs, at, NameOf(c))
    requires |cs'| == |cs| + 1 && cs'[at] == c && (forall i :: 0 <= i < at ==> cs'[i] == cs[i])
    requires forall i :: at < i < |cs'| ==> cs'[i] == cs[i - 1]
    ensures Mirrors(wallets, cs')
  {
    hide NameOf;
    forall i, j | 0 <= j < i < |cs'| ensures Apart(cs'[j], cs'[i]) {
      if i != at && j != at {
        hide Apart;
        assert Apart(cs[if j < at then j else j - 1], cs[if i < at then i else i - 1]);
      }
    }
  }

  // A collection of its name before an unlocked one breaks the mirror.
  lemma BeforeUnlocked(wallets: Wallets, cs: Collections, j: nat, i: nat)
    requires j < i < |cs| && NameOf(cs[j]) == NameOf(cs[i]) && cs[i].handle >= 0
    ensures !Mirrors(wallets, cs)
  {
    assert !Apart(cs[j], cs[i]);
  }

  lemma InsertedAt(cs: Collections, at: nat, c: Collection)
    requires at <= |cs|
    ensures |Inserted(cs, at, c)| == |cs| + 1 && Inserted(cs, at, c)[at] == c
    ensures forall i :: 0 <= i < at ==> Inserted(cs, at, c)[i] == cs[i]
    ensures forall i {:trigger Inserted(cs, at, c)[i]} :: at < i <= |cs| ==> Inserted(cs, at, c)[i] == cs[i - 1]
  {
  }

  lemma RemoveMirrors(wallets: Wallets, cs: Collections, at: nat)
    requires Mirrors(wallets, cs) && at < |cs|
    ensures Mirrors(wallets, cs[..at] + cs[at + 1..])
  {
    hide NameOf;
    var cs' := cs[..at] + cs[at + 1..];
    forall i | 0 <= i < |cs'| ensures cs'[i] == if i < at then cs[i] else cs[i + 1] {
    }
  }

  // Relabelling collection i renames the wallet open under its old name. The mirror survives exactly
  // when no other collection holds that handle and, if collection i holds it, no collection before i
  // has the new name already.
  lemma RenameMirrors(wallets: Wallets, cs: Collections, i: nat, h: int, u: FdoUniqueLabel)
    requires Mirrors(wallets, cs) && DistinctNames(wallets) && i < |cs|
    requires h >= 0 && h in wallets && wallets[h].name == NameOf(cs[i])
    requires forall g :: g in wallets ==> wallets[g].name != ToName(u)
    ensures
      Mirrors(wallets[h := wallets[h].(name := ToName(u))], cs[i := cs[i].(uniqueLabel := u)]) <==>
        (forall j :: 0 <= j < |cs| && j != i ==> cs[j].handle != h) &&
        (cs[i].handle >= 0 ==> forall j :: 0 <= j < i ==> NameOf(cs[j]) != ToName(u))
  {
    var wallets' := wallets[h := wallets[h].(name := ToName(u))];
    var cs' := cs[i := cs[i].(uniqueLabel := u)];
    assert NameOf(cs'[i]) == ToName(u);
    if Mirrors(wallets', cs') {
      forall j | 0 <= j < |cs| && j != i ensures cs[j].handle != h {
        assert cs'[j] == cs[j];
      }
      if cs[i].handle >= 0 {
        forall j | 0 <= j < i ensures NameOf(cs[j]) != ToName(u) {
          assert cs'[j] == cs[j];
        }
      }
    }
    NotOpenLocked(wallets, cs, ToName(u));
  }

  ghost predicate Tables(wallets: Wallets, closing: set<int>, syncing: set<int>, closeIdle: bool)
  {
    && (forall h :: h in wallets ==> h > 0)
    && |wallets| <= 21
    && DistinctNames(wallets)
    && closing == (if closeIdle then wallets.Keys else {})
    && syncing <= wallets.Keys
  }

  lemma OneOfAName(wallets: Wallets, h: int)
    requires DistinctNames(wallets) && h in wallets
    ensures forall g :: g in wallets && wallets[g].name == wallets[h].name ==> g == h
  {
  }

  lemma ReferenceTables(wallets: Wallets, closing: set<int>, syncing: set<int>, closeIdle: bool, h: int, refs: int)
    requires Tables(wallets, closing, syncing, closeIdle) && h in wallets
    ensures Tables(wallets[h := wallets[h].(refs := refs)], closing, syncing, closeIdle)
  {
    assert wallets[h := wallets[h].(refs := refs)].Keys == wallets.Keys;
  }

  lemma PutTwice(wallets: Wallets, h: int, v: Wallet, w: Wallet)
    ensures wallets[h := v][h := w] == wallets[h := w]
  {
  }

  lemma CloseTables(wallets: Wallets, closing: set<int>, syncing: set<int>, closeIdle: bool, h: int)
    requires Tables(wallets, closing, syncing, closeIdle) && h in wallets
    ensures Tables(wallets - {h}, if closeIdle then closing - {h} else closing, syncing - {h}, closeIdle)
  {
    assert (wallets - {h}).Keys == wallets.Keys - {h};
  }

  lemma OpenTables(wallets: Wallets, closing: set<int>, syncing: set<int>, closeIdle: bool, h: int, w: Wallet)
    requires Tables(wallets, closing, syncing, closeIdle) && |wallets| <= 20
    requires h > 0 && h !in wallets && forall g :: g in wallets ==> wallets[g].name != w.name
    ensures Tables(wallets[h := w], if closeIdle then closing + {h} else closing, syncing + {h}, closeIdle)
  {
  }

  // A wallet without a name gets no collection.
  function LockedFor(names: seq<string>): Collections
  {
    if names == [] then []
    else LockedFor(names[..|names| - 1]) + (if names[|names| - 1] == "" then [] else [Collection(FromName(names[|names| - 1]), -1)])
  }

  lemma {:induction false} LockedForMeans(names: seq<string>, c: Collection)
    ensures c in LockedFor(names) <==> c.handle == -1 && exists n :: n in names && n != "" && c.uniqueLabel == FromName(n)
  {
    hide FromName;
    if names != [] {
      var last := names[|names| - 1];
      assert names == names[..|names| - 1] + [last];
      LockedForMeans(names[..|names| - 1], c);
      if last != "" && c == Collection(FromName(last), -1) {
        assert last in names;
      }
    }
  }

  lemma NoneLocked()
    ensures LockedFor([]) == []
  {
  }

  lemma LockedOneMore(names: seq<string>, i: nat)
    requires i < |names|
    ensures LockedFor(names[..i + 1]) == LockedFor(names[..i]) + (if names[i] == "" then [] else [Collection(FromName(names[i]), -1)])
  {
    hide FromName;
    assert names[..i + 1][..i] == names[..i];
  }

  lemma InsertedMultiset(cs: Collections, at: nat, c: Collection)
    requires at <= |cs|
    ensures multiset(Inserted(cs, at, c)) == multiset(cs + [c])
  {
    assert cs == cs[..at] + cs[at..];
  }

  lemma AllLocked(cs: Collections, names: seq<string>)
    requires multiset(cs) <= multiset(LockedFor(names))
    ensures Mirrors(map[], cs)
  {
    hide LockedFor, NameOf;
    LockedEach(names);
    forall i | 0 <= i < |cs| ensures cs[i].handle == -1 {
      assert cs[i] in multiset(cs);
      assert cs[i] in LockedFor(names);
    }
  }

  lemma {:induction false} LockedEach(names: seq<string>)
    ensures forall c :: c in LockedFor(names) ==> c.handle == -1
  {
    hide FromName;
    if names != [] {
      LockedEach(names[..|names| - 1]);
    }
  }

  class Service {
    var collections: Collections

    // A locked collection for every wallet there is, unless the secret service is disabled.
    constructor (walletNames: seq<string>, enabled: bool)
      ensures multiset(collections) == if enabled then multiset(LockedFor(walletNames)) else multiset{}
    {
      collections := [];
      new;
      if enabled {
        BuildCollections(walletNames);
      }
    }

    method BuildCollections(walletNames: seq<string>)
      requires collections == []
      modifies this
      ensures multiset(collections) == multiset(LockedFor(walletNames))
    {
      hide Inserted, LockedFor;
      NoneLocked();
      for i := 0 to |walletNames|
        invariant multiset(collections) == multiset(LockedFor(walletNames[..i]))
      {
        LockedOneMore(walletNames, i);
        if walletNames[i] != "" {
          var place := PlaceOfNewPath();
          InsertedMultiset(collections, place, Collection(FromName(walletNames[i]), -1));
          collections := Inserted(collections, place, Collection(FromName(walletNames[i]), -1));
        }
      }
      assert walletNames[..|walletNames|] == walletNames;
    }

    // lockCollection()
    method LockCollection(name: string)
      modifies this
      ensures collections == Locked(old(collections), name)
    {
      var i := Find(collections, name);
      if i != -1 {
        OnWalletChangeState(i, -1);
      }
    }

    // The part of onWalletChangeState() that concerns the handle.
    method OnWalletChangeState(i: nat, handle: int)
      requires i < |collections|
      modifies this
      ensures collections == old(collections)[i := old(collections)[i].(handle := handle)]
    {
      if handle == collections[i].handle {
        assert collections == collections[i := collections[i].(handle := handle)];
        return;
      }
      collections := collections[i := collections[i].(handle := handle)];
    }

    // Where a new path comes in the order of the paths.
    method PlaceOfNewPath() returns (at: nat)
      ensures at <= |collections|
    {
      at :| at <= |collections|;
    }

    // walletCreated()
    method WalletCreated(name: string) returns (ghost at: nat)
      modifies this
      ensures at <= |old(collections)|
      ensures collections == Inserted(old(collections), at, Collection(FromName(name), -1))
    {
      var place := PlaceOfNewPath();
      at := place;
      collections := Inserted(collections, place, Collection(FromName(name), -1));
    }

    // promptUnlockCollection()
    method PromptUnlockCollection(name: string, handle: int) returns (ghost at: nat)
      modifies this
      ensures var i := Find(old(collections), name);
        if i != -1 then collections == old(collections)[i := old(collections)[i].(handle := handle)]
        else at <= |old(collections)| && collections == Inserted(old(collections), at, Collection(FromName(name), handle))
    {
      var i := Find(collections, name);
      at := 0;
      if i != -1 {
        OnWalletChangeState(i, handle);
      } else {
        var place := PlaceOfNewPath();
        at := place;
        collections := Inserted(collections, place, Collection(FromName(name), handle));
      }
    }

    // walletDeleted()
    method WalletDeleted(name: string)
      modifies this
      ensures var i := Find(old(collections), name);
        collections == if i == -1 then old(collections) else old(collections)[..i] + old(collections)[i + 1..]
    {
      var i := Find(collections, name);
      if i != -1 {
        collections := collections[..i] + collections[i + 1..];
      }
    }
  }

  class KSecretD {
    var wallets: Wallets
    const closeTimers: KTimeout
    const syncTimers: KTimeout
    const service: Service
    var closeIdle: bool
    var idleTime: int
    var processing: bool

    const SYNC_TIME: int := 5000

    // Handles are positive, at most 21 wallets are open, under different names; close timers run for
    // exactly the open wallets while idle wallets are to be closed and for none otherwise; sync timers
    // run for open wallets only; every timer runs with its interval in force; and the collections mirror
    // the open wallets.
    ghost predicate Valid()
      reads this, closeTimers, syncTimers, service
    {
      && closeTimers != syncTimers && closeTimers.Valid() && syncTimers.Valid()
      && closeTimers.AllAt(idleTime) && syncTimers.AllAt(SYNC_TIME)
      && Tables(wallets, closeTimers.timers.Keys, syncTimers.timers.Keys, closeIdle)
      && Mirrors(wallets, service.collections)
    }

    constructor (walletNames: seq<string>, enabled: bool)
      ensures Valid() && wallets == map[] && !closeIdle && !processing
      ensures multiset(service.collections) == if enabled then multiset(LockedFor(walletNames)) else multiset{}
      ensures fresh(closeTimers) && fresh(syncTimers) && fresh(service)
    {
      wallets := map[];
      closeTimers := new KTimeout();
      syncTimers := new KTimeout();
      service := new Service(walletNames, enabled);
      closeIdle, idleTime, processing := false, 0, false;
      new;
      hide LockedFor, Mirrors, KTimeout.AllAt, KTimeout.Valid;
      AllLocked(service.collections, walletNames);
      closeTimers.NoneAt(idleTime);
      syncTimers.NoneAt(SYNC_TIME);
    }

    method FindWallet(name: string) returns (h: int)
      requires Valid()
      ensures h == -1 ==> forall g :: g in wallets ==> wallets[g].name != name
      ensures h != -1 ==> h in wallets && wallets[h].name == name
    {
      var left := wallets.Keys;
      while left != {}
        invariant left <= wallets.Keys
        invariant forall g :: g in wallets && g !in left ==> wallets[g].name != name
        decreases left
      {
        ghost var some := Pick(left);
        var g :| g in left;
        if wallets[g].name == name {
          return g;
        }
        left := left - {g};
      }
      h := -1;
    }

    // rand() until the number is neither zero nor in use
    method GenerateHandle() returns (h: int)
      ensures h > 0 && h !in wallets
    {
      ghost var b := BoundExists(wallets.Keys);
      assert b + 1 > 0 && b + 1 !in wallets;
      h :| h > 0 && h !in wallets;
    }

    // initiateSync()
    method InitiateSync(handle: int)
      requires syncTimers.Valid()
      modifies syncTimers
      ensures syncTimers.Valid() && syncTimers.timers.Keys == old(syncTimers.timers.Keys) + {handle}
      ensures syncTimers.Of(handle).interval == 5000 && syncTimers.Of(handle).start >= old(syncTimers.starts)
      ensures old(syncTimers.AllAt(SYNC_TIME)) ==> syncTimers.AllAt(SYNC_TIME)
    {
      syncTimers.AddTimer(handle, SYNC_TIME);
      syncTimers.ResetTimer(handle, SYNC_TIME);
    }

    // getWallet(), used by every operation on a handle
    method GetWallet(handle: int) returns (found: bool)
      requires closeTimers.Valid()
      modifies closeTimers
      ensures found == (handle != 0 && handle in wallets)
      ensures closeTimers.Valid() && closeTimers.timers.Keys == old(closeTimers.timers.Keys)
      ensures found && closeIdle && handle in closeTimers.timers ==> closeTimers.Of(handle) == Running(idleTime, old(closeTimers.starts))
      ensures old(closeTimers.AllAt(idleTime)) ==> closeTimers.AllAt(idleTime)
    {
      if handle == 0 {
        return false;
      }
      found := handle in wallets;
      if found && closeIdle {
        closeTimers.ResetTimer(handle, idleTime);
      }
    }

    // An operation that changes a wallet: createFolder, writeEntry, removeEntry, renameEntry.
    method Change(handle: int) returns (found: bool)
      requires Valid()
      modifies closeTimers, syncTimers
      ensures Valid() && found == (handle in wallets)
      ensures found ==> handle in syncTimers.timers && syncTimers.Of(handle).start >= old(syncTimers.starts)
      ensures found && closeIdle ==> closeTimers.Of(handle).start >= old(closeTimers.starts)
    {
      hide DistinctNames, Mirrors;
      found := GetWallet(handle);
      if found {
        InitiateSync(handle);
      }
    }

    method DropTimers(handle: int)
      requires closeTimers != syncTimers && closeTimers.Valid() && syncTimers.Valid()
      requires closeTimers.AllAt(idleTime) && syncTimers.AllAt(SYNC_TIME)
      modifies closeTimers, syncTimers
      ensures closeTimers.Valid() && syncTimers.Valid() && closeTimers.AllAt(idleTime) && syncTimers.AllAt(SYNC_TIME)
      ensures closeTimers.timers.Keys == if closeIdle then old(closeTimers.timers.Keys) - {handle} else old(closeTimers.timers.Keys)
      ensures syncTimers.timers.Keys == old(syncTimers.timers.Keys) - {handle}
    {
      if closeIdle {
        closeTimers.RemoveTimer(handle);
      }
      syncTimers.RemoveTimer(handle);
    }

    method InternalClose(handle: int)
      requires Valid() && handle in wallets
      modifies this`wallets, closeTimers, syncTimers, service
      ensures Valid() && wallets == old(wallets) - {handle}
      ensures service.collections == Locked(old(service.collections), old(wallets)[handle].name)
    {
      hide Tables, DistinctNames, Mirrors, NameOf, Locked, KTimeout.AllAt, KTimeout.Of, KTimeout.Valid;
      var name := wallets[handle].name;
      CloseMirrors(wallets, service.collections, handle);
      Forget(handle);
      service.LockCollection(name);
    }

    // The timers and the handle go.
    method Forget(handle: int)
      requires closeTimers != syncTimers && closeTimers.Valid() && syncTimers.Valid() && handle in wallets
      requires closeTimers.AllAt(idleTime) && syncTimers.AllAt(SYNC_TIME)
      requires Tables(wallets, closeTimers.timers.Keys, syncTimers.timers.Keys, closeIdle)
      modifies this`wallets, closeTimers, syncTimers
      ensures closeTimers.Valid() && syncTimers.Valid() && closeTimers.AllAt(idleTime) && syncTimers.AllAt(SYNC_TIME)
      ensures Tables(wallets, closeTimers.timers.Keys, syncTimers.timers.Keys, closeIdle) && wallets == old(wallets) - {handle}
    {
      hide Tables, KTimeout.AllAt, KTimeout.Of, KTimeout.Valid;
      CloseTables(wallets, closeTimers.timers.Keys, syncTimers.timers.Keys, closeIdle, handle);
      DropTimers(handle);
      wallets := wallets - {handle};
    }

    method Close(handle: int) returns (rc: int)
      requires Valid()
      modifies this`wallets, closeTimers, syncTimers, service
      ensures Valid() && wallets == old(wallets) - {handle}
      ensures rc == if handle in old(wallets) then 0 else -1
    {
      if handle in wallets {
        InternalClose(handle);
        return 0;
      }
      rc := -1;
    }

    // internalOpen(); ok says whether user and disk let the wallet be opened, brandNew whether it is new.
    // The locked collection of a new wallet goes to place at. Its name is that of the wallet when the copy
    // number is plain; otherwise it can come before an unlocked collection of the name it gets.
    method InternalOpen(name: string, ok: bool, brandNew: bool) returns (rc: int, ghost at: nat)
      requires Valid()
      modifies this`wallets, closeTimers, syncTimers, service
      ensures Valid() <==> brandNew && rc != -1 && !IsOpen(old(wallets), name) ==> InsertsWell(old(service.collections), at, ToName(FromName(name)))
      ensures PlainCopyNumber(name) ==> Valid()
      ensures rc == -1 <==> !IsOpen(old(wallets), name) && (|old(wallets)| > 20 || !ok)
      ensures rc == -1 ==> wallets == old(wallets)
      ensures rc != -1 && IsOpen(old(wallets), name) ==>
        && rc in old(wallets) && old(wallets)[rc].name == name
        && wallets == old(wallets)[rc := Wallet(name, old(wallets)[rc].refs + 1)]
      ensures rc != -1 && !IsOpen(old(wallets), name) ==>
        rc > 0 && rc !in old(wallets) && wallets == old(wallets)[rc := Wallet(name, 1)] && rc in syncTimers.timers
      ensures !brandNew || rc == -1 || IsOpen(old(wallets), name) ==> service.collections == old(service.collections)
      ensures brandNew && rc != -1 && !IsOpen(old(wallets), name) ==>
        && at <= |old(service.collections)|
        && service.collections == Inserted(old(service.collections), at, Collection(FromName(name), -1))
    {
      hide PlainCopyNumber, Mirrors, Tables, DistinctNames, InsertsWell, FromName, ToName, KTimeout.AllAt, KTimeout.Of, KTimeout.Valid;
      at := 0;
      rc := FindWallet(name);
      if rc != -1 {
        ReferenceTables(wallets, closeTimers.timers.Keys, syncTimers.timers.Keys, closeIdle, rc, wallets[rc].refs + 1);
        ReferenceMirrors(wallets, service.collections, rc, wallets[rc].refs + 1);
        wallets := wallets[rc := wallets[rc].(refs := wallets[rc].refs + 1)];
        return;
      }
      if |wallets| > 20 || !ok {
        rc := -1;
        return;
      }
      rc, at := EnterWallet(name, brandNew);
    }

    // The sync timer of a wallet that has just got its handle, and the two folders of a new one.
    method FirstSync(h: int, brandNew: bool)
      requires closeTimers != syncTimers && closeTimers.Valid() && syncTimers.Valid() && h in wallets
      requires closeTimers.AllAt(idleTime) && syncTimers.AllAt(SYNC_TIME)
      modifies closeTimers, syncTimers
      ensures closeTimers.Valid() && syncTimers.Valid() && closeTimers.AllAt(idleTime) && syncTimers.AllAt(SYNC_TIME)
      ensures closeTimers.timers.Keys == old(closeTimers.timers.Keys)
      ensures syncTimers.timers.Keys == old(syncTimers.timers.Keys) + {h}
    {
      hide KTimeout.AllAt, KTimeout.Of;
      syncTimers.AddTimer(h, SYNC_TIME);
      if brandNew {
        var f := GetWallet(h);
        InitiateSync(h);
        f := GetWallet(h);
        InitiateSync(h);
      }
    }

    method FirstClose(h: int)
      requires closeTimers.Valid() && closeTimers.AllAt(idleTime)
      modifies closeTimers
      ensures closeTimers.Valid() && closeTimers.AllAt(idleTime)
      ensures closeTimers.timers.Keys == if closeIdle then old(closeTimers.timers.Keys) + {h} else old(closeTimers.timers.Keys)
    {
      if closeIdle {
        closeTimers.AddTimer(h, idleTime);
      }
    }

    // The part of internalOpen() after a wallet has been opened.
    method EnterWallet(name: string, brandNew: bool) returns (h: int, ghost at: nat)
      requires Valid() && |wallets| <= 20
      requires forall g :: g in wallets ==> wallets[g].name != name
      modifies this`wallets, closeTimers, syncTimers, service
      ensures Valid() <==> brandNew ==> InsertsWell(old(service.collections), at, ToName(FromName(name)))
      ensures PlainCopyNumber(name) ==> Valid()
      ensures h > 0 && h !in old(wallets) && wallets == old(wallets)[h := Wallet(name, 1)]
      ensures h in syncTimers.timers
      ensures !brandNew ==> service.collections == old(service.collections)
      ensures brandNew ==> at <= |old(service.collections)| &&
                             service.collections == Inserted(old(service.collections), at, Collection(FromName(name), -1))
    {
      hide PlainCopyNumber, Mirrors, NameOf, FromName, ToName, Inserted, InsertsWell, Tables, DistinctNames,
           KTimeout.AllAt, KTimeout.Of, KTimeout.Valid;
      h := GenerateHandle();
      at := 0;
      OpenTables(wallets, closeTimers.timers.Keys, syncTimers.timers.Keys, closeIdle, h, Wallet(name, 1));
      NotOpenLocked(wallets, service.collections, name);
      OpenMirrors(wallets, service.collections, h, Wallet(name, 0));
      ghost var before := wallets;
      wallets := wallets[h := Wallet(name, 0)];
      FirstSync(h, brandNew);
      OpenMirrors(old(wallets), service.collections, h, Wallet(name, 1));
      wallets := wallets[h := Wallet(name, 1)];
      PutTwice(before, h, Wallet(name, 0), Wallet(name, 1));
      FirstClose(h);
      if brandNew {
        at := AddCollection(name);
      }
    }

    // The walletCreated signal: a locked collection for a wallet that has just been created.
    method AddCollection(name: string) returns (ghost at: nat)
      requires Valid()
      requires forall i :: 0 <= i < |service.collections| && NameOf(service.collections[i]) == name ==> service.collections[i].handle < 0
      modifies service
      ensures at <= |old(service.collections)|
      ensures service.collections == Inserted(old(service.collections), at, Collection(FromName(name), -1))
      ensures Valid() <==> InsertsWell(old(service.collections), at, ToName(FromName(name)))
      ensures PlainCopyNumber(name) ==> Valid()
    {
      hide PlainCopyNumber, Mirrors, Tables, FromName, ToName, KTimeout.AllAt, KTimeout.Of, KTimeout.Valid;
      at := service.WalletCreated(name);
      InsertLockedMirrors(wallets, old(service.collections), at, Collection(FromName(name), -1));
      NameOfNew(name, -1);
      NameRoundTrip(name);
    }

    // A prompt has got the handle of a wallet. When there is no collection of that name, the new one
    // mirrors the wallet exactly when the name survives being read as a label.
    method PromptUnlockCollection(name: string, handle: int)
      requires Valid() && handle in wallets && wallets[handle].name == name
      modifies service
      ensures Valid() <==> Find(old(service.collections), name) != -1 || PlainCopyNumber(name)
      ensures Valid() ==> var i := Find(service.collections, name); i != -1 && service.collections[i].handle == handle
      ensures var i := Find(old(service.collections), name);
        i != -1 ==> service.collections == old(service.collections)[i := old(service.collections)[i].(handle := handle)]
    {
      assert handle > 0;
      hide PlainCopyNumber, Tables, NameOf;
      ghost var cs := service.collections;
      var i := Find(cs, name);
      ghost var at := service.PromptUnlockCollection(name, handle);
      NameRoundTrip(name);
      if i != -1 {
        UnlockMirrors(wallets, cs, i, handle);
        FindUnlocked(cs, i, name, handle);
      } else {
        ghost var c := Collection(FromName(name), handle);
        NameOfNew(name, handle);
        if PlainCopyNumber(name) {
          InsertMirrors(wallets, cs, at, c);
          FindInserted(cs, at, c);
        } else {
          InsertedAt(cs, at, c);
          assert !Matches(wallets, service.collections[at]);
        }
      }
    }

    // pamOpen(); openrc is what openPreHashed() returns, isOpen whether it has opened the wallet. The
    // wallet gets no reference, and the collection found under its name is unlocked at once. There is none
    // to be found when the wallet had no collection, unless it is new and its collection got its name;
    // the source uses the pointer all the same, which is the fault.
    method PamOpen(name: string, openrc: int, isOpen: bool, brandNew: bool) returns (fault: bool, rc: int, ghost at: nat)
      requires Valid()
      modifies this`wallets, closeTimers, syncTimers, service
      ensures fault <==> wallets != old(wallets) && Find(old(service.collections), name) == -1 && !(brandNew && PlainCopyNumber(name))
      ensures Valid() <==> wallets != old(wallets) && brandNew ==> InsertsWell(old(service.collections), at, ToName(FromName(name)))
      ensures PlainCopyNumber(name) ==> Valid()
      ensures processing ==> rc == -1
      ensures !processing && IsOpen(old(wallets), name) ==> rc in old(wallets) && old(wallets)[rc].name == name
      ensures !processing && !IsOpen(old(wallets), name) && wallets == old(wallets) ==> rc == if |old(wallets)| > 20 then -1 else openrc
      ensures wallets == old(wallets) || (rc > 0 && rc !in old(wallets) && wallets == old(wallets)[rc := Wallet(name, 0)])
      ensures wallets != old(wallets) <==>
        !processing && |old(wallets)| <= 20 && openrc == 0 && isOpen && !IsOpen(old(wallets), name)
      ensures wallets != old(wallets) && brandNew ==> at <= |old(service.collections)|
      ensures wallets != old(wallets) ==>
        var cs := if brandNew then Inserted(old(service.collections), at, Collection(FromName(name), -1)) else old(service.collections);
        var i := Find(cs, name);
        fault == (i == -1) && service.collections == if fault then cs else cs[i := cs[i].(handle := rc)]
      ensures wallets == old(wallets) ==> service.collections == old(service.collections)
    {
      hide PlainCopyNumber, Mirrors, Tables, DistinctNames, InsertsWell, FromName, ToName, NameOf, Inserted, Find,
           KTimeout.AllAt, KTimeout.Of, KTimeout.Valid;
      fault, at := false, 0;
      if processing {
        rc := -1;
        return;
      }
      rc := FindWallet(name);
      if rc != -1 {
        return;
      }
      if |wallets| > 20 {
        return;
      }
      if openrc != 0 || !isOpen {
        rc := openrc;
        return;
      }
      rc, at := PamEnter(name, brandNew);
      fault := UnlockFound(name, rc);
      if brandNew {
        PamFinds(old(service.collections), at, name);
        if !InsertsWell(old(service.collections), at, ToName(FromName(name))) {
          PamBroken(wallets, old(service.collections), at, name, rc);
        }
      }
    }

    // The end of pamOpen(): what getCollectionByWalletName() finds gets the handle.
    method UnlockFound(name: string, handle: int) returns (fault: bool)
      requires handle in wallets && handle > 0 && wallets[handle].name == name
      modifies service
      ensures var i := Find(old(service.collections), name);
        && fault == (i == -1)
        && service.collections == if fault then old(service.collections)
                                  else old(service.collections)[i := old(service.collections)[i].(handle := handle)]
      ensures old(Valid()) ==> Valid()
    {
      hide Tables, NameOf, Find, KTimeout.AllAt, KTimeout.Of, KTimeout.Valid;
      var cs := service.collections;
      var i := Find(cs, name);
      fault := i == -1;
      if !fault {
        service.OnWalletChangeState(i, handle);
        if Mirrors(wallets, cs) {
          UnlockMirrors(wallets, cs, i, handle);
        }
      }
    }

    method PamEnter(name: string, brandNew: bool) returns (h: int, ghost at: nat)
      requires Valid() && |wallets| <= 20
      requires forall g :: g in wallets ==> wallets[g].name != name
      modifies this`wallets, closeTimers, syncTimers, service
      ensures Valid() <==> brandNew ==> InsertsWell(old(service.collections), at, ToName(FromName(name)))
      ensures PlainCopyNumber(name) ==> Valid()
      ensures h > 0 && h !in old(wallets) && wallets == old(wallets)[h := Wallet(name, 0)]
      ensures !brandNew ==> service.collections == old(service.collections)
      ensures brandNew ==> at <= |old(service.collections)| &&
                             service.collections == Inserted(old(service.collections), at, Collection(FromName(name), -1))
    {
      hide PlainCopyNumber, Mirrors, NameOf, FromName, ToName, Inserted, InsertsWell, Tables, DistinctNames,
           KTimeout.AllAt, KTimeout.Of, KTimeout.Valid;
      h := GenerateHandle();
      at := 0;
      OpenTables(wallets, closeTimers.timers.Keys, syncTimers.timers.Keys, closeIdle, h, Wallet(name, 0));
      NotOpenLocked(wallets, service.collections, name);
      OpenMirrors(wallets, service.collections, h, Wallet(name, 0));
      wallets := wallets[h := Wallet(name, 0)];
      FirstSync(h, false);
      FirstClose(h);
      if brandNew {
        at := AddCollection(name);
      }
    }

    method TimedOutClose(id: int)
      requires Valid()
      modifies this`wallets, closeTimers, syncTimers, service
      ensures Valid() && wallets == old(wallets) - {id}
    {
      if id in wallets {
        InternalClose(id);
      }
    }

    method TimedOutSync(handle: int) returns (saved: bool)
      requires Valid()
      modifies syncTimers
      ensures Valid() && syncTimers.timers == old(syncTimers.timers) - {handle} && saved == (handle in wallets)
    {
      syncTimers.RemoveTimer(handle);
      saved := handle in wallets;
    }

    // Wallets whose file is gone are closed.
    method EmitWalletListDirty(walletsInDisk: set<string>)
      requires Valid()
      modifies this`wallets, closeTimers, syncTimers, service
      ensures Valid()
      ensures forall h :: h in wallets <==> h in old(wallets) && old(wallets)[h].name in walletsInDisk
      ensures forall h :: h in wallets ==> wallets[h] == old(wallets)[h]
    {
      hide Valid, Locked;
      var left := wallets.Keys;
      while left != {}
        invariant Valid() && left <= wallets.Keys <= old(wallets.Keys)
        invariant forall h :: h in wallets ==> wallets[h] == old(wallets)[h]
        invariant forall h :: h in old(wallets) && h !in left ==> (h in wallets <==> old(wallets)[h].name in walletsInDisk)
        decreases left
      {
        ghost var some := Pick(left);
        var h :| h in left;
        if wallets[h].name !in walletsInDisk {
          InternalClose(h);
        }
        left := left - {h};
      }
    }

    // reconfigure() with the settings read anew.
    method Reconfigure(closeWhenIdle: bool, newIdleTime: int, enabled: bool)
      requires Valid()
      modifies this`wallets, this`closeIdle, this`idleTime, closeTimers, syncTimers, service
      ensures Valid() && closeIdle == closeWhenIdle && idleTime == newIdleTime
      ensures wallets == if enabled then old(wallets) else map[]
    {
      hide Mirrors, DistinctNames, Tables, KTimeout.AllAt, KTimeout.Of, KTimeout.Valid;
      NewIdle(closeWhenIdle, newIdleTime);
      if !enabled {
        CloseAll();
      }
    }

    // The close timers follow the settings.
    method NewIdle(closeWhenIdle: bool, newIdleTime: int)
      requires closeTimers.Valid() && closeTimers.AllAt(idleTime)
      requires Tables(wallets, closeTimers.timers.Keys, syncTimers.timers.Keys, closeIdle)
      modifies this`closeIdle, this`idleTime, closeTimers
      ensures closeIdle == closeWhenIdle && idleTime == newIdleTime
      ensures closeTimers.Valid() && closeTimers.AllAt(idleTime)
      ensures closeTimers != syncTimers ==> Tables(wallets, closeTimers.timers.Keys, syncTimers.timers.Keys, closeIdle)
    {
      hide DistinctNames, KTimeout.AllAt, KTimeout.Of, KTimeout.Valid;
      var idleSave := closeIdle;
      closeIdle := closeWhenIdle;
      var timeSave := idleTime;
      idleTime := newIdleTime;
      if closeIdle {
        if idleTime != timeSave {
          ResetAll();
        }
        if !idleSave {
          AddAll();
        }
      } else {
        closeTimers.Clear();
        closeTimers.NoneAt(idleTime);
      }
    }

    method CloseAll()
      requires Valid()
      modifies this`wallets, closeTimers, syncTimers, service
      ensures Valid() && wallets == map[]
    {
      hide Valid, Locked;
      while wallets != map[]
        invariant Valid()
        decreases wallets.Keys
      {
        ghost var some := Pick(wallets.Keys);
        var h :| h in wallets;
        InternalClose(h);
      }
    }

    // Restarts the close timers there are.
    method ResetAll()
      requires closeTimers.Valid() && closeTimers.timers.Keys <= wallets.Keys
      modifies closeTimers
      ensures closeTimers.Valid() && closeTimers.timers.Keys == old(closeTimers.timers.Keys)
      ensures closeTimers.AllAt(idleTime)
    {
      var left := wallets.Keys;
      while left != {}
        invariant closeTimers.Valid() && closeTimers.timers.Keys == old(closeTimers.timers.Keys)
        invariant forall h :: h in closeTimers.timers && h !in left ==> closeTimers.Of(h).interval == idleTime
        decreases left
      {
        ghost var some := Pick(left);
        var h :| h in left;
        closeTimers.ResetTimer(h, idleTime);
        left := left - {h};
      }
    }

    // A close timer for every open wallet.
    method AddAll()
      requires closeTimers.Valid()
      modifies closeTimers
      ensures closeTimers.Valid() && closeTimers.timers.Keys == old(closeTimers.timers.Keys) + wallets.Keys
      ensures old(closeTimers.AllAt(idleTime)) ==> closeTimers.AllAt(idleTime)
    {
      hide KTimeout.AllAt, KTimeout.Of, KTimeout.Valid;
      var left := wallets.Keys;
      while left != {}
        invariant left <= wallets.Keys && closeTimers.Valid()
        invariant closeTimers.timers.Keys == old(closeTimers.timers.Keys) + (wallets.Keys - left)
        invariant old(closeTimers.AllAt(idleTime)) ==> closeTimers.AllAt(idleTime)
        decreases left
      {
        ghost var some := Pick(left);
        var h :| h in left;
        closeTimers.AddTimer(h, idleTime);
        left := left - {h};
      }
    }

    // deleteWallet(); onDisk says whether the wallet has a file. An open wallet is closed first, then its
    // collection goes. A wallet that has a file but is not open makes the source close a wallet that is
    // not there, through a null pointer; this is the fault.
    method DeleteWallet(name: string, onDisk: bool) returns (fault: bool, rc: int)
      requires Valid()
      modifies this`wallets, closeTimers, syncTimers, service
      ensures Valid()
      ensures fault <==> onDisk && !IsOpen(old(wallets), name)
      ensures !fault ==> rc == if onDisk then 0 else -1
      ensures forall h :: h in wallets <==> h in old(wallets) && !(onDisk && old(wallets)[h].name == name)
      ensures forall h :: h in wallets ==> wallets[h] == old(wallets)[h]
      ensures var i := Find(old(service.collections), name);
        service.collections == if onDisk && !fault && i != -1 then old(service.collections)[..i] + old(service.collections)[i + 1..]
                               else old(service.collections)
    {
      hide Mirrors, NameOf, Find, Locked, DistinctNames, Tables, KTimeout.AllAt, KTimeout.Of, KTimeout.Valid;
      fault, rc := false, -1;
      if !onDisk {
        return;
      }
      var h := FindWallet(name);
      if h == -1 {
        fault := true;
        return;
      }
      hide Valid;
      CloseByName(name, h);
      RemoveCollection(name);
      LockedRemoved(old(service.collections), name);
      rc := 0;
    }

    method CloseByName(name: string, h: int)
      requires Valid() && h in wallets && wallets[h].name == name
      modifies this`wallets, closeTimers, syncTimers, service
      ensures Valid()
      ensures forall g :: g in wallets <==> g in old(wallets) && old(wallets)[g].name != name
      ensures forall g :: g in wallets ==> wallets[g] == old(wallets)[g]
      ensures service.collections == Locked(old(service.collections), name)
    {
      hide Mirrors, NameOf, Find, Locked, KTimeout.AllAt, KTimeout.Of, KTimeout.Valid;
      OneOfAName(wallets, h);
      InternalClose(h);
    }

    method RemoveCollection(name: string)
      requires Valid()
      modifies service
      ensures Valid()
      ensures var i := Find(old(service.collections), name);
        service.collections == if i == -1 then old(service.collections)
                               else old(service.collections)[..i] + old(service.collections)[i + 1..]
    {
      hide Mirrors, NameOf, Find, DistinctNames, Tables, KTimeout.AllAt, KTimeout.Of, KTimeout.Valid;
      ghost var cs := service.collections;
      service.WalletDeleted(name);
      var i := Find(cs, name);
      if i != -1 {
        RemoveMirrors(wallets, cs, i);
      }
    }

    // setLabel() of collection i; walletsInDisk are the names that are taken, rc is what the backend's
    // renameWallet() returns, and renamed whether the backend has its new name by then. A failed rename
    // leaves the label. Renaming a wallet that is not open goes through a null pointer; this is the fault.
    // When names are taken by files and the collection is the one found by its name, the mirror breaks
    // exactly when the backend has its new name, but could not be opened under it, while a collection
    // holds the handle; Follows says when it breaks otherwise.
    method SetLabel(i: nat, newTitle: string, walletsInDisk: seq<string>, rc: int, renamed: bool)
      returns (fault: bool, ghost u: FdoUniqueLabel, ghost h: int)
      requires Valid() && i < |service.collections| && (rc == 0 ==> renamed)
      modifies this`wallets, service
      ensures fault <==>
        newTitle != old(service.collections)[i].uniqueLabel.title && !IsOpen(old(wallets), NameOf(old(service.collections)[i]))
      ensures fault || newTitle == old(service.collections)[i].uniqueLabel.title || !renamed ==>
        Valid() && wallets == old(wallets) && service.collections == old(service.collections)
      ensures !fault && newTitle != old(service.collections)[i].uniqueLabel.title && renamed ==>
        && u.title == newTitle && ToName(u) !in walletsInDisk
        && h in old(wallets) && old(wallets)[h].name == NameOf(old(service.collections)[i])
        && wallets == old(wallets)[h := old(wallets)[h].(name := ToName(u))]
        && service.collections == (if rc == 0 then old(service.collections)[i := old(service.collections)[i].(uniqueLabel := u)]
                                   else old(service.collections))
        && (Valid() <==> Follows(old(wallets), old(service.collections), i, h, ToName(u), rc == 0))
        && (NamesTaken(old(wallets), old(service.collections), walletsInDisk)
            && Find(old(service.collections), NameOf(old(service.collections)[i])) == i ==>
              (Valid() <==> rc == 0 || forall k :: 0 <= k < |service.collections| ==> service.collections[k].handle != h))
    {
      fault, u, h := false, FdoUniqueLabel("", -1), -1;
      if newTitle == service.collections[i].uniqueLabel.title {
        return;
      }
      var newUniqLabel := MakeUniqueCollectionLabel(newTitle, walletsInDisk);
      u := newUniqLabel;
      hide Mirrors, Tables, NameOf, ToName, Find, Follows, NamesTaken, KTimeout.AllAt, KTimeout.Of, KTimeout.Valid;
      var found := FindWallet(NameOf(service.collections[i]));
      fault, h := found == -1, found;
      if fault || !renamed {
        return;
      }
      if NamesTaken(wallets, service.collections, walletsInDisk) && Find(service.collections, NameOf(service.collections[i])) == i {
        FollowsTaken(wallets, service.collections, i, h, ToName(u), rc == 0, walletsInDisk);
      }
      RenameTo(i, found, newUniqLabel, rc);
    }

    method RenameTo(i: nat, h: int, u: FdoUniqueLabel, rc: int)
      requires Valid() && i < |service.collections| && h in wallets && wallets[h].name == NameOf(service.collections[i])
      modifies this`wallets, service
      ensures wallets == old(wallets)[h := old(wallets)[h].(name := ToName(u))]
      ensures service.collections == if rc == 0 then old(service.collections)[i := old(service.collections)[i].(uniqueLabel := u)]
                                     else old(service.collections)
      ensures Valid() <==> Follows(old(wallets), old(service.collections), i, h, ToName(u), rc == 0)
    {
      hide Mirrors, NameOf, ToName, Find, Follows, DistinctNames, KTimeout.AllAt, KTimeout.Of, KTimeout.Valid;
      RenameTables(wallets, closeTimers.timers.Keys, syncTimers.timers.Keys, closeIdle, h, ToName(u));
      if rc == 0 {
        RenamedBoth(wallets, service.collections, i, h, u);
      } else {
        RenamedOne(wallets, service.collections, i, h, ToName(u));
      }
      hide Tables;
      var c := service.collections[i];
      wallets := wallets[h := wallets[h].(name := ToName(u))];
      if rc == 0 {
        service.collections := service.collections[i := c.(uniqueLabel := u)];
      }
    }
  }

  // Renaming the wallet of collection i keeps names different and the mirror: nothing really changes, or
  // the new name is that of no open wallet and, if the collection follows, no other one has the handle and
  // none before it the new name; if it does not follow, none has the handle.
  ghost predicate Follows(wallets: Wallets, cs: Collections, i: nat, h: int, name: string, both: bool)
    requires i < |cs|
  {
    || name == NameOf(cs[i])
    || (&& (forall g :: g in wallets ==> wallets[g].name != name)
        && if both then
             && (forall j :: 0 <= j < |cs| && j != i ==> cs[j].handle != h)
             && (cs[i].handle >= 0 ==> forall j :: 0 <= j < i ==> NameOf(cs[j]) != name)
           else forall k :: 0 <= k < |cs| ==> cs[k].handle != h)
  }

  // Every open wallet and every collection has a file.
  ghost predicate NamesTaken(wallets: Wallets, cs: Collections, walletsInDisk: seq<string>)
  {
    && (forall g :: g in wallets ==> wallets[g].name in walletsInDisk)
    && (forall j :: 0 <= j < |cs| ==> NameOf(cs[j]) in walletsInDisk)
  }

  lemma FollowsTaken(wallets: Wallets, cs: Collections, i: nat, h: int, name: string, both: bool, walletsInDisk: seq<string>)
    requires Mirrors(wallets, cs) && i < |cs| && Find(cs, NameOf(cs[i])) == i
    requires h > 0 && h in wallets && wallets[h].name == NameOf(cs[i])
    requires NamesTaken(wallets, cs, walletsInDisk) && name !in walletsInDisk
    ensures Follows(wallets, cs, i, h, name, both) <==> both || forall k :: 0 <= k < |cs| ==> cs[k].handle != h
  {
    hide NameOf, Find;
    forall j | both && 0 <= j < |cs| && j != i ensures cs[j].handle != h {
      assert Matches(wallets, cs[j]);
      if j > i {
        assert Apart(cs[i], cs[j]);
      }
    }
  }

  lemma RenameTables(wallets: Wallets, closing: set<int>, syncing: set<int>, closeIdle: bool, h: int, name: string)
    requires Tables(wallets, closing, syncing, closeIdle) && h in wallets
    ensures Tables(wallets[h := wallets[h].(name := name)], closing, syncing, closeIdle) <==>
              DistinctNames(wallets[h := wallets[h].(name := name)])
  {
    assert wallets[h := wallets[h].(name := name)].Keys == wallets.Keys;
  }

  lemma RenamedDistinct(wallets: Wallets, h: int, name: string)
    requires DistinctNames(wallets) && h in wallets
    ensures DistinctNames(wallets[h := wallets[h].(name := name)]) <==>
              name == wallets[h].name || forall g :: g in wallets ==> wallets[g].name != name
  {
    var wallets' := wallets[h := wallets[h].(name := name)];
    if name != wallets[h].name && DistinctNames(wallets') {
      forall g | g in wallets ensures wallets[g].name != name {
        assert g in wallets' && h in wallets';
      }
    }
  }

  // The wallet and the collection get the same name.
  lemma RenamedBoth(wallets: Wallets, cs: Collections, i: nat, h: int, u: FdoUniqueLabel)
    requires Mirrors(wallets, cs) && DistinctNames(wallets) && i < |cs|
    requires h > 0 && h in wallets && wallets[h].name == NameOf(cs[i])
    ensures
      var wallets', cs' := wallets[h := wallets[h].(name := ToName(u))], cs[i := cs[i].(uniqueLabel := u)];
      DistinctNames(wallets') && Mirrors(wallets', cs') <==> Follows(wallets, cs, i, h, ToName(u), true)
  {
    RenamedDistinct(wallets, h, ToName(u));
    if ToName(u) == NameOf(cs[i]) {
      assert wallets[h := wallets[h].(name := ToName(u))] == wallets;
      SameNamesMirror(wallets, cs, i, u);
    } else if forall g :: g in wallets ==> wallets[g].name != ToName(u) {
      RenameMirrors(wallets, cs, i, h, u);
    }
  }

  lemma SameNamesMirror(wallets: Wallets, cs: Collections, i: nat, u: FdoUniqueLabel)
    requires Mirrors(wallets, cs) && i < |cs| && ToName(u) == NameOf(cs[i])
    ensures Mirrors(wallets, cs[i := cs[i].(uniqueLabel := u)])
  {
    var cs' := cs[i := cs[i].(uniqueLabel := u)];
    forall k, j | 0 <= j < k < |cs'| ensures Apart(cs'[j], cs'[k]) {
      assert Apart(cs[j], cs[k]);
    }
    forall k | 0 <= k < |cs'| ensures Matches(wallets, cs'[k]) {
      assert Matches(wallets, cs[k]);
    }
  }

  // Only the wallet gets another name.
  lemma RenamedOne(wallets: Wallets, cs: Collections, i: nat, h: int, name: string)
    requires Mirrors(wallets, cs) && DistinctNames(wallets) && i < |cs|
    requires h > 0 && h in wallets && wallets[h].name == NameOf(cs[i])
    ensures
      var wallets' := wallets[h := wallets[h].(name := name)];
      DistinctNames(wallets') && Mirrors(wallets', cs) <==> Follows(wallets, cs, i, h, name, false)
  {
    RenamedDistinct(wallets, h, name);
    var wallets' := wallets[h := wallets[h].(name := name)];
    if name == NameOf(cs[i]) {
      assert wallets' == wallets;
    } else {
      forall k | 0 <= k < |cs| ensures Matches(wallets', cs[k]) <==> cs[k].handle != h {
        assert Matches(wallets, cs[k]);
      }
    }
  }

  // When pamOpen() has its collection, and that unlocking it mends nothing.
  lemma PamFinds(cs: Collections, at: nat, name: string)
    requires at <= |cs|
    ensures Find(Inserted(cs, at, Collection(FromName(name), -1)), name) == -1 <==> Find(cs, name) == -1 && !PlainCopyNumber(name)
  {
    hide PlainCopyNumber, NameOf, FromName, ToName, Find, Inserted;
    var c := Collection(FromName(name), -1);
    InsertedAt(cs, at, c);
    NameRoundTrip(name);
    NameOfNew(name, -1);
    var cs' := Inserted(cs, at, c);
    var i := Find(cs, name);
    if i != -1 {
      assert cs'[if i < at then i else i + 1] == cs[i];
    } else {
      forall k | 0 <= k < |cs'| && k != at ensures NameOf(cs'[k]) != name {
        assert cs'[k] == cs[if k < at then k else k - 1];
      }
      assert cs'[at] == c;
    }
  }

  lemma PamBroken(wallets: Wallets, cs: Collections, at: nat, name: string, h: int)
    requires at <= |cs| && h >= 0 && !InsertsWell(cs, at, ToName(FromName(name)))
    ensures
      var cs' := Inserted(cs, at, Collection(FromName(name), -1));
      var i := Find(cs', name);
      !Mirrors(wallets, if i == -1 then cs' else cs'[i := cs'[i].(handle := h)])
  {
    hide Inserted, FromName, ToName, Find, NameOf, Mirrors;
    var c := Collection(FromName(name), -1);
    InsertedAt(cs, at, c);
    NameOfNew(name, -1);
    var j :| at <= j < |cs| && NameOf(cs[j]) == ToName(FromName(name)) && cs[j].handle >= 0;
    var cs' := Inserted(cs, at, c);
    var i := Find(cs', name);
    assert cs'[at] == c && cs'[j + 1] == cs[j];
    if i == -1 {
      BeforeUnlocked(wallets, cs', at, j + 1);
    } else {
      StillBefore(wallets, cs', at, j + 1, i, h);
    }
  }

  lemma StillBefore(wallets: Wallets, cs: Collections, j: nat, k: nat, i: nat, h: int)
    requires j < k < |cs| && i < |cs| && NameOf(cs[j]) == NameOf(cs[k]) && cs[k].handle >= 0 && h >= 0
    ensures !Mirrors(wallets, cs[i := cs[i].(handle := h)])
  {
    hide NameOf, Mirrors;
    SameName(cs[i], h);
    BeforeUnlocked(wallets, cs[i := cs[i].(handle := h)], j, k);
  }

  // Locking a collection first makes no difference when it is removed next.
  lemma LockedRemoved(cs: Collections, name: string)
    ensures var i := Find(cs, name);
      Find(Locked(cs, name), name) == i && (i == -1 ==> Locked(cs, name) == cs) &&
      (i != -1 ==> |Locked(cs, name)| == |cs| && Locked(cs, name)[..i] + Locked(cs, name)[i + 1..] == cs[..i] + cs[i + 1..])
  {
    var i := Find(cs, name);
    if i != -1 {
      FindUnlocked(cs, i, name, -1);
    }
  }

  lemma NameOfNew(name: string, handle: int)
    ensures NameOf(Collection(FromName(name), handle)) == ToName(FromName(name))
  {
  }

  lemma SameName(c: Collection, h: int)
    ensures NameOf(c.(handle := h)) == NameOf(c)
  {
  }

  lemma FindUnlocked(cs: Collections, i: nat, name: string, h: int)
    requires i < |cs| && Find(cs, name) == i
    ensures Find(cs[i := cs[i].(handle := h)], name) == i
  {
    var k := Find(cs[i := cs[i].(handle := h)], name);
    assert NameOf(cs[i := cs[i].(handle := h)][i]) == name;
  }

  lemma FindInserted(cs: Collections, at: nat, c: Collection)
    requires at <= |cs| && Find(cs, NameOf(c)) == -1
    ensures Find(Inserted(cs, at, c), NameOf(c)) == at
  {
    InsertedAt(cs, at, c);
    hide Inserted, NameOf, Find;
  }
}
