/** The three stores of a secret-service collection: its items with their labels, what is stored about
    each location, and the entries of the wallet. When they agree, and what each operation does to that. */
module Items {
  import opened Attributes
  import opened Labels
  import opened Options

  // A path of the collection followed by this number.
  datatype ItemPath = ItemPath(number: nat)
  datatype Secret = Secret(kind: int, value: seq<bv8>)

  const KIND_UNKNOWN: int := 0
  const KIND_PASSWORD: int := 1
  const KIND_STREAM: int := 2
  const KIND_MAP: int := 3

  type ItemMap = map<ItemPath, FdoUniqueLabel>
  type WalletMap = map<string, map<string, Secret>>

  datatype Stores = Stores(items: ItemMap, params: ParamMap, wallet: WalletMap)

  // ---- The wallet ----

  predicate Has(wallet: WalletMap, loc: EntryLocation)
  {
    loc.folder in wallet && loc.key in wallet[loc.folder]
  }

  function Get(wallet: WalletMap, loc: EntryLocation): Secret
    requires Has(wallet, loc)
  {
    wallet[loc.folder][loc.key]
  }

  // What the wallet answers when it is asked for an entry: kind and bytes, or neither.
  function EntryAt(wallet: WalletMap, loc: EntryLocation): Secret
  {
    if Has(wallet, loc) then Get(wallet, loc) else Secret(KIND_UNKNOWN, [])
  }

  function FolderOf(wallet: WalletMap, folder: string): map<string, Secret>
  {
    if folder in wallet then wallet[folder] else map[]
  }

  function Written(wallet: WalletMap, loc: EntryLocation, e: Secret): WalletMap
  {
    wallet[loc.folder := FolderOf(wallet, loc.folder)[loc.key := e]]
  }

  function Removed(wallet: WalletMap, loc: EntryLocation): WalletMap
  {
    if loc.folder in wallet then wallet[loc.folder := wallet[loc.folder] - {loc.key}] else wallet
  }

  // Nothing moves when the entry is missing or the new name is taken, but the folder comes to exist.
  function Renamed(wallet: WalletMap, folder: string, oldName: string, newName: string): WalletMap
  {
    var m := FolderOf(wallet, folder);
    wallet[folder := if oldName in m && newName !in m then m[newName := m[oldName]] - {oldName} else m]
  }

  // ---- Agreement ----

  // A label that names a location and is the label of that location.
  predicate Good(u: FdoUniqueLabel)
  {
    FromEntryLocation(FromUniqueLabel(u)) == u
  }

  ghost predicate Covered(items: ItemMap, loc: EntryLocation)
  {
    exists p :: p in items && FromUniqueLabel(items[p]) == loc
  }

  // Every item names an entry, ...
  ghost predicate ItemsNameEntries(s: Stores)
  {
    forall p :: p in s.items ==> Good(s.items[p]) && Has(s.wallet, FromUniqueLabel(s.items[p]))
  }

  // ... no two items the same one, ...
  ghost predicate ItemsApart(items: ItemMap)
  {
    forall p, q :: p in items && q in items && FromUniqueLabel(items[p]) == FromUniqueLabel(items[q]) ==> p == q
  }

  // ... every entry has an item, ...
  ghost predicate EntriesCovered(s: Stores)
  {
    forall loc :: Has(s.wallet, loc) ==> Covered(s.items, loc)
  }

  // ... and attributes are stored for exactly the entries.
  ghost predicate AttributesKept(s: Stores)
  {
    && (forall loc :: Has(s.wallet, loc) ==> LocationText(loc) in s.params)
    && (forall t :: t in s.params ==> LocationText(SplitLocation(t)) == t && Has(s.wallet, SplitLocation(t)))
  }

  ghost predicate Agree(s: Stores)
  {
    ItemsNameEntries(s) && ItemsApart(s.items) && EntriesCovered(s) && AttributesKept(s)
  }

  // The location of a good label is canonical, so neither of its texts is ambiguous.
  lemma GoodCanonical(u: FdoUniqueLabel)
    requires Good(u)
    ensures Canonical(FromUniqueLabel(u)) && '/' !in FromUniqueLabel(u).folder
    ensures SplitLocation(LocationText(FromUniqueLabel(u))) == FromUniqueLabel(u)
  {
    hide FromEntryLocation, FromUniqueLabel, PlainCopyNumber, FromName, SplitLocation, LocationText;
    LocationRoundTrip(FromUniqueLabel(u));
    SplitOfText(FromUniqueLabel(u));
  }

  // In stores that agree, an entry has one item, and its location is canonical.
  lemma EntryItem(s: Stores, loc: EntryLocation) returns (p: ItemPath)
    requires Agree(s) && Has(s.wallet, loc)
    ensures p in s.items && FromUniqueLabel(s.items[p]) == loc && s.items[p] == FromEntryLocation(loc)
    ensures Canonical(loc) && SplitLocation(LocationText(loc)) == loc
  {
    hide FromEntryLocation, FromUniqueLabel, Canonical, Has, SplitLocation, LocationText;
    assert Covered(s.items, loc);
    p :| p in s.items && FromUniqueLabel(s.items[p]) == loc;
    GoodCanonical(s.items[p]);
  }

  lemma ItemsEntry(s: Stores, p: ItemPath)
    requires Agree(s) && p in s.items
    ensures Good(s.items[p]) && Has(s.wallet, FromUniqueLabel(s.items[p]))
  {
  }

  lemma EntryText(s: Stores, loc: EntryLocation)
    requires Agree(s) && Has(s.wallet, loc)
    ensures LocationText(loc) in s.params
  {
  }

  // A label for a location that no item names, on a new item or on one that had another.
  lemma ApartAdded(items: ItemMap, p: ItemPath, u: FdoUniqueLabel)
    requires ItemsApart(items) && !Covered(items, FromUniqueLabel(u))
    ensures ItemsApart(items[p := u])
  {
    hide FromUniqueLabel;
  }

  lemma FreeNotCovered(s: Stores, loc: EntryLocation)
    requires ItemsNameEntries(s) && !Has(s.wallet, loc)
    ensures !Covered(s.items, loc)
  {
    hide FromUniqueLabel, Has;
  }

  // Two different entries are stored under different texts.
  lemma TextsDiffer(s: Stores, a: EntryLocation, b: EntryLocation)
    requires Agree(s) && Has(s.wallet, a) && Has(s.wallet, b) && LocationText(a) == LocationText(b)
    ensures a == b
  {
    hide Agree, Has, LocationText, SplitLocation, Canonical;
    var p := EntryItem(s, a);
    var q := EntryItem(s, b);
  }

  // ---- Creating an item ----

  // A new item at path p, or the item there replaced.
  function Created(s: Stores, p: ItemPath, loc: EntryLocation, ps: Params, e: Secret): Stores
  {
    Stores(s.items[p := FromEntryLocation(loc)], s.params[LocationText(loc) := ps], Written(s.wallet, loc, e))
  }

  // Creation stopped before the secret was written.
  function HalfCreated(s: Stores, p: ItemPath, loc: EntryLocation, ps: Params): Stores
  {
    Stores(s.items[p := FromEntryLocation(loc)], s.params[LocationText(loc) := ps], s.wallet)
  }

  // Succeeding with a new item keeps the agreement exactly when the new location is canonical.
  lemma CreateAgrees(s: Stores, p: ItemPath, loc: EntryLocation, ps: Params, e: Secret)
    requires Agree(s) && p !in s.items && !Has(s.wallet, loc)
    ensures Agree(Created(s, p, loc, ps, e)) <==> Canonical(loc)
  {
    hide FromEntryLocation, FromUniqueLabel, Canonical, SplitLocation, LocationText, Has, Written, Agree;
    var s' := Created(s, p, loc, ps, e);
    if Agree(s') {
      HasWritten(s.wallet, loc, e, loc);
      var q := EntryItem(s', loc);
    }
    if Canonical(loc) {
      LocationRoundTrip(loc);
      AddedAgrees(s, s', p, loc);
    }
  }

  // One more item, for one more entry, with its attributes.
  lemma AddedAgrees(s: Stores, s': Stores, p: ItemPath, loc: EntryLocation)
    requires Agree(s) && p !in s.items && !Has(s.wallet, loc)
    requires FromUniqueLabel(FromEntryLocation(loc)) == loc
    requires s'.items == s.items[p := FromEntryLocation(loc)]
    requires s'.params.Keys == s.params.Keys + {LocationText(loc)}
    requires exists e :: s'.wallet == Written(s.wallet, loc, e)
    ensures Agree(s')
  {
    hide FromEntryLocation, FromUniqueLabel, Canonical, SplitLocation, LocationText, Has, Written;
    var e :| s'.wallet == Written(s.wallet, loc, e);
    forall l ensures Has(s'.wallet, l) <==> Has(s.wallet, l) || l == loc {
      HasWritten(s.wallet, loc, e, l);
    }
    forall l | Has(s'.wallet, l) ensures Covered(s'.items, l) {
      if l == loc {
        assert p in s'.items;
      } else {
        var q := EntryItem(s, l);
        assert q in s'.items;
      }
    }
    GoodCanonical(FromEntryLocation(loc));
  }

  lemma HasWritten(wallet: WalletMap, loc: EntryLocation, e: Secret, l: EntryLocation)
    ensures Has(Written(wallet, loc, e), l) <==> Has(wallet, l) || l == loc
    ensures Get(Written(wallet, loc, e), loc) == e
    ensures Has(wallet, l) && l != loc ==> Get(Written(wallet, loc, e), l) == Get(wallet, l)
  {
  }

  // Replacing an item keeps the agreement, even when it stops before the secret is written.
  lemma ReplaceAgrees(s: Stores, p: ItemPath, loc: EntryLocation, ps: Params, e: Secret)
    requires Agree(s) && p in s.items && Has(s.wallet, loc) && s.items[p] == FromEntryLocation(loc)
    ensures Agree(Created(s, p, loc, ps, e)) && Agree(HalfCreated(s, p, loc, ps))
  {
    hide FromEntryLocation, FromUniqueLabel, Canonical, SplitLocation, LocationText, Has, Written;
    forall l ensures Has(Written(s.wallet, loc, e), l) <==> Has(s.wallet, l) {
      HasWritten(s.wallet, loc, e, l);
    }
    assert s.items[p := FromEntryLocation(loc)] == s.items;
    SameAgrees(s, Created(s, p, loc, ps, e));
    SameAgrees(s, HalfCreated(s, p, loc, ps));
  }

  // The same items, entries and texts.
  lemma SameAgrees(s: Stores, s': Stores)
    requires Agree(s) && s'.items == s.items && s'.params.Keys == s.params.Keys
    requires forall l :: Has(s'.wallet, l) <==> Has(s.wallet, l)
    ensures Agree(s')
  {
    hide FromEntryLocation, FromUniqueLabel, Canonical, SplitLocation, LocationText, Has, Written;
  }

  // A new item whose secret could not be read stays behind without an entry.
  lemma HalfCreatedDisagrees(s: Stores, p: ItemPath, loc: EntryLocation, ps: Params)
    requires Agree(s) && p !in s.items
    ensures !Agree(HalfCreated(s, p, loc, ps))
  {
    hide FromEntryLocation, FromUniqueLabel, Canonical, SplitLocation, LocationText, Has, Good;
    var s' := HalfCreated(s, p, loc, ps);
    assert p in s'.items;
    var l := FromUniqueLabel(s'.items[p]);
    if Has(s.wallet, l) {
      var q := EntryItem(s, l);
      TwoOfOneLocation(s.items, p, FromEntryLocation(loc), q);
    }
  }

  lemma TwoOfOneLocation(items: ItemMap, p: ItemPath, u: FdoUniqueLabel, q: ItemPath)
    requires q in items && q != p && FromUniqueLabel(items[q]) == FromUniqueLabel(u)
    ensures !ItemsApart(items[p := u])
  {
    hide FromUniqueLabel;
    assert q in items[p := u] && p in items[p := u];
  }

  // ---- Deleting an item ----

  function Deleted(s: Stores, p: ItemPath): Stores
    requires p in s.items
  {
    var loc := FromUniqueLabel(s.items[p]);
    Stores(s.items - {p}, s.params - {LocationText(loc)}, Removed(s.wallet, loc))
  }

  lemma HasRemoved(wallet: WalletMap, loc: EntryLocation, l: EntryLocation)
    ensures Has(Removed(wallet, loc), l) <==> Has(wallet, l) && l != loc
    ensures Has(wallet, l) && l != loc ==> Get(Removed(wallet, loc), l) == Get(wallet, l)
  {
  }

  lemma DeleteAgrees(s: Stores, p: ItemPath)
    requires Agree(s) && p in s.items
    ensures Agree(Deleted(s, p))
  {
    hide FromEntryLocation, FromUniqueLabel, SplitLocation, LocationText, Has, Removed, Good, EntriesCovered, AttributesKept, ItemsNameEntries;
    var loc := FromUniqueLabel(s.items[p]);
    var s' := Deleted(s, p);
    ItemsEntry(s, p);
    forall l ensures Has(s'.wallet, l) <==> Has(s.wallet, l) && l != loc {
      HasRemoved(s.wallet, loc, l);
    }
    NamedLess(s, s', p, loc);
    CoveredLess(s, s', p, loc);
    AttributesLess(s, s', loc);
  }

  lemma NamedLess(s: Stores, s': Stores, p: ItemPath, loc: EntryLocation)
    requires ItemsNameEntries(s) && ItemsApart(s.items) && p in s.items && FromUniqueLabel(s.items[p]) == loc
    requires s'.items == s.items - {p} && forall l :: Has(s'.wallet, l) <==> Has(s.wallet, l) && l != loc
    ensures ItemsNameEntries(s')
  {
    hide FromUniqueLabel, Has, Good;
  }

  lemma CoveredLess(s: Stores, s': Stores, p: ItemPath, loc: EntryLocation)
    requires EntriesCovered(s) && p in s.items && FromUniqueLabel(s.items[p]) == loc
    requires s'.items == s.items - {p} && forall l :: Has(s'.wallet, l) <==> Has(s.wallet, l) && l != loc
    ensures EntriesCovered(s')
  {
    hide FromUniqueLabel, Has;
    forall l | Has(s'.wallet, l) ensures Covered(s'.items, l) {
      assert Covered(s.items, l);
      var q :| q in s.items && FromUniqueLabel(s.items[q]) == l;
      assert q in s'.items;
    }
  }

  lemma AttributesLess(s: Stores, s': Stores, loc: EntryLocation)
    requires Agree(s) && Has(s.wallet, loc) && s'.params == s.params - {LocationText(loc)}
    requires forall l :: Has(s'.wallet, l) <==> Has(s.wallet, l) && l != loc
    ensures AttributesKept(s')
  {
    hide FromEntryLocation, FromUniqueLabel, SplitLocation, LocationText, Has, ItemsNameEntries, ItemsApart, EntriesCovered;
    forall l | Has(s'.wallet, l) ensures LocationText(l) in s'.params {
      if LocationText(l) == LocationText(loc) {
        TextsDiffer(s, l, loc);
      }
    }
    var p := EntryItem(s, loc);
  }

  // A locked wallet keeps the entry.
  lemma LockedDeleteDisagrees(s: Stores, p: ItemPath)
    requires Agree(s) && p in s.items
    ensures !Agree(Deleted(s, p).(wallet := s.wallet))
  {
    hide FromEntryLocation, FromUniqueLabel, LocationText, SplitLocation, Has, Good, Agree, Removed;
    var loc, s' := FromUniqueLabel(s.items[p]), Deleted(s, p).(wallet := s.wallet);
    ItemsEntry(s, p);
    if Agree(s') {
      var q := EntryItem(s', loc);
      AgreeApart(s);
    }
  }

  // ---- Giving an item another label ----

  function Relabelled(s: Stores, p: ItemPath, u: FdoUniqueLabel, now: string): Stores
    requires p in s.items
  {
    RelabelledWith(s, p, u, now, None)
  }

  // The signal that the wallet sends back may reach another item under the old label.
  function RelabelledWith(s: Stores, p: ItemPath, u: FdoUniqueLabel, now: string, hit: Option<ItemPath>): Stores
    requires p in s.items
  {
    var loc := FromUniqueLabel(s.items[p]);
    var to := FromUniqueLabel(u);
    var s' := Echoed(s.(items := s.items[p := u]), hit, loc, to);
    Stores(s'.items, Relocated(WithParam(s'.params, loc, KEY_MODIFIED, now), loc, to), Moved(s.wallet, loc, to))
  }

  // That item goes when the entry was removed, and follows when it was renamed.
  function Echoed(s: Stores, hit: Option<ItemPath>, loc: EntryLocation, to: EntryLocation): Stores
  {
    if hit.None? then s
    else if to.folder != loc.folder then
      s.(items := s.items - {hit.value}, params := s.params - {LocationText(FromUniqueLabel(FromEntryLocation(loc)))})
    else
      s.(items := s.items[hit.value := FromEntryLocation(to)], params := Relocated(s.params, loc, to))
  }

  // Between folders what is read is written over whatever is there; within one the entry is renamed.
  function Moved(wallet: WalletMap, loc: EntryLocation, to: EntryLocation): WalletMap
  {
    if to.folder != loc.folder then Removed(Written(wallet, to, EntryAt(wallet, loc)), loc)
    else if to.key != loc.key then Renamed(wallet, loc.folder, loc.key, to.key)
    else wallet
  }

  lemma MovedToFree(wallet: WalletMap, loc: EntryLocation, to: EntryLocation, l: EntryLocation)
    requires Has(wallet, loc) && !Has(wallet, to)
    ensures Has(Moved(wallet, loc, to), l) <==> l == to || (Has(wallet, l) && l != loc)
    ensures Has(Moved(wallet, loc, to), to) && Get(Moved(wallet, loc, to), to) == Get(wallet, loc)
    ensures Has(wallet, l) && l != loc ==> Get(Moved(wallet, loc, to), l) == Get(wallet, l)
  {
  }

  // A relabel to a free location moves kind, value, attributes and all stamps but the modified one,
  // and touches nothing else.
  lemma RelabelMoves(s: Stores, p: ItemPath, u: FdoUniqueLabel, now: string)
    requires Agree(s) && p in s.items && Good(u) && !Has(s.wallet, FromUniqueLabel(u))
    ensures
      var loc, to, s' := FromUniqueLabel(s.items[p]), FromUniqueLabel(u), Relabelled(s, p, u, now);
      && Has(s'.wallet, to) && Get(s'.wallet, to) == Get(s.wallet, loc) && !Has(s'.wallet, loc)
      && LocationText(loc) !in s'.params && LocationText(to) in s'.params
      && s'.params[LocationText(to)].attributes == s.params[LocationText(loc)].attributes
      && s'.params[LocationText(to)].fields == s.params[LocationText(loc)].fields["$fdo_modified" := now]
    ensures
      var loc, to, s' := FromUniqueLabel(s.items[p]), FromUniqueLabel(u), Relabelled(s, p, u, now);
      forall l :: l != loc && l != to ==>
        && (Has(s'.wallet, l) <==> Has(s.wallet, l))
        && (Has(s.wallet, l) ==> Get(s'.wallet, l) == Get(s.wallet, l))
        && (Has(s.wallet, l) ==> LocationText(l) in s.params && LocationText(l) in s'.params
                                 && s'.params[LocationText(l)] == s.params[LocationText(l)])
  {
    hide FromEntryLocation, FromUniqueLabel, Canonical, SplitLocation, LocationText, Has, Moved, Get;
    var loc, to := FromUniqueLabel(s.items[p]), FromUniqueLabel(u);
    MovedToFree(s.wallet, loc, to, loc);
    GoodCanonical(u);
    assert LocationText(to) !in s.params;
    forall l | l != loc && l != to && Has(s.wallet, l)
      ensures LocationText(l) != LocationText(loc) && LocationText(l) != LocationText(to)
    {
      if LocationText(l) == LocationText(loc) {
        TextsDiffer(s, l, loc);
      }
      var q := EntryItem(s, l);
    }
    forall l ensures Has(Moved(s.wallet, loc, to), l) <==> l == to || (Has(s.wallet, l) && l != loc) {
      MovedToFree(s.wallet, loc, to, l);
    }
    forall l | Has(s.wallet, l) && l != loc ensures Get(Moved(s.wallet, loc, to), l) == Get(s.wallet, l) {
      MovedToFree(s.wallet, loc, to, l);
    }
  }

  // Relabelling keeps the agreement exactly when the new label is good and its location is the
  // old one or free.
  lemma RelabelAgrees(s: Stores, p: ItemPath, u: FdoUniqueLabel, now: string)
    requires Agree(s) && p in s.items
    ensures Agree(Relabelled(s, p, u, now)) <==>
      Good(u) && (FromUniqueLabel(u) == FromUniqueLabel(s.items[p]) || !Has(s.wallet, FromUniqueLabel(u)))
  {
    hide FromEntryLocation, FromUniqueLabel, Canonical, SplitLocation, LocationText, Has, Moved, Get, Good;
    var loc, to, s' := FromUniqueLabel(s.items[p]), FromUniqueLabel(u), Relabelled(s, p, u, now);
    assert p in s'.items;
    if to != loc && Has(s.wallet, to) {
      var q := EntryItem(s, to);
      TwoOfOneLocation(s.items, p, u, q);
    }
    if Good(u) && to == loc {
      assert s.items[p] == u by {
        SameLabel(s.items[p], u);
      }
      assert s'.items == s.items;
      assert Moved(s.wallet, loc, to) == s.wallet by {
        MovedNowhere(s.wallet, loc);
      }
      SameAgrees(s, s');
    }
    if Good(u) && !Has(s.wallet, to) {
      RelabelFree(s, p, u, now);
    }
  }

  // Across folders a location that is taken is overwritten: the secret of its item is lost.
  lemma RelabelOverwrites(s: Stores, p: ItemPath, u: FdoUniqueLabel, now: string)
    requires Agree(s) && p in s.items && Has(s.wallet, FromUniqueLabel(u))
    requires FromUniqueLabel(u).folder != FromUniqueLabel(s.items[p]).folder
    ensures var s' := Relabelled(s, p, u, now);
      && Has(s'.wallet, FromUniqueLabel(u)) && Get(s'.wallet, FromUniqueLabel(u)) == Get(s.wallet, FromUniqueLabel(s.items[p]))
      && !Has(s'.wallet, FromUniqueLabel(s.items[p])) && !Agree(s')
  {
    hide FromUniqueLabel, FromEntryLocation, Agree;
    RelabelAgrees(s, p, u, now);
    assert Has(s.wallet, FromUniqueLabel(s.items[p])) by {
      ItemsEntry(s, p);
    }
  }

  lemma SameLabel(u: FdoUniqueLabel, v: FdoUniqueLabel)
    requires Good(u) && Good(v) && FromUniqueLabel(u) == FromUniqueLabel(v)
    ensures u == v
  {
  }

  lemma MovedNowhere(wallet: WalletMap, loc: EntryLocation)
    ensures Moved(wallet, loc, loc) == wallet
  {
  }

  lemma RelabelFree(s: Stores, p: ItemPath, u: FdoUniqueLabel, now: string)
    requires Agree(s) && p in s.items && Good(u) && !Has(s.wallet, FromUniqueLabel(u))
    ensures Agree(Relabelled(s, p, u, now))
  {
    hide FromEntryLocation, FromUniqueLabel, SplitLocation, LocationText, Has, Moved;
    var loc, to := FromUniqueLabel(s.items[p]), FromUniqueLabel(u);
    ItemsEntry(s, p);
    var stamped := s.(params := WithParam(s.params, loc, KEY_MODIFIED, now));
    SameAgrees(s, stamped);
    assert u == FromEntryLocation(to);
    forall l ensures Has(Moved(s.wallet, loc, to), l) <==> l == to || (Has(s.wallet, l) && l != loc) {
      MovedToFree(s.wallet, loc, to, l);
    }
    hide WithParam, Agree;
    FollowedToFree(stamped, Relabelled(s, p, u, now), p, loc, to);
  }

  // In a locked collection the item gets its label and the entry stays where it was.
  lemma LockedRelabelAgrees(s: Stores, p: ItemPath, u: FdoUniqueLabel, now: string)
    requires Agree(s) && p in s.items
    ensures Agree(Relabelled(s, p, u, now).(wallet := s.wallet)) <==> u == s.items[p]
  {
    hide FromEntryLocation, FromUniqueLabel, LocationText, SplitLocation, Has, Moved, Good, Agree;
    var loc, to, s' := FromUniqueLabel(s.items[p]), FromUniqueLabel(u), Relabelled(s, p, u, now).(wallet := s.wallet);
    ItemsEntry(s, p);
    EntryText(s, loc);
    if u == s.items[p] {
      assert s'.items == s.items;
      SameAgrees(s, s');
    } else if Agree(s') {
      ItemsEntry(s', p);
      var q := EntryItem(s, to);
      if to == loc {
        SameLabel(u, s.items[p]);
      } else {
        TwoOfOneLocation(s.items, p, u, q);
        AgreeApart(s');
      }
    }
  }

  lemma AgreeApart(s: Stores)
    requires Agree(s)
    ensures ItemsApart(s.items)
  {
  }

  // ---- The wallet renames an entry, and the collection follows ----

  // The item found under the old location, if any, gets the new label whether or not the entry moved.
  function FollowedRename(s: Stores, p: ItemPath, loc: EntryLocation, newName: string): Stores
  {
    var to := EntryLocation(loc.folder, newName);
    Stores(s.items[p := FromEntryLocation(to)], Relocated(s.params, loc, to), Renamed(s.wallet, loc.folder, loc.key, newName))
  }

  lemma HasRenamed(wallet: WalletMap, loc: EntryLocation, newName: string, l: EntryLocation)
    requires Has(wallet, loc)
    ensures
      var to := EntryLocation(loc.folder, newName);
      Has(Renamed(wallet, loc.folder, loc.key, newName), l) <==>
        if Has(wallet, to) then Has(wallet, l) else l == to || (Has(wallet, l) && l != loc)
  {
  }

  // The entry that has moved is the one that was there, and no other one changes; when the new name is
  // taken, none does.
  lemma RenamedKeeps(wallet: WalletMap, loc: EntryLocation, newName: string, l: EntryLocation)
    requires Has(wallet, loc)
    ensures
      var to, wallet' := EntryLocation(loc.folder, newName), Renamed(wallet, loc.folder, loc.key, newName);
      && (Has(wallet, to) ==> wallet' == wallet)
      && (!Has(wallet, to) ==> !Has(wallet', loc) && Has(wallet', to) && Get(wallet', to) == Get(wallet, loc))
      && (l != loc && l != to ==> (Has(wallet', l) <==> Has(wallet, l)) && (Has(wallet, l) ==> Get(wallet', l) == Get(wallet, l)))
  {
  }

  // When the wallet renames an entry to a free name, its item, its secret and all that is stored about it
  // go with it.
  lemma FollowedRenameMoves(s: Stores, p: ItemPath, loc: EntryLocation, newName: string)
    requires Agree(s) && Has(s.wallet, loc) && p in s.items && s.items[p] == FromEntryLocation(loc)
    requires !Has(s.wallet, EntryLocation(loc.folder, newName)) && Canonical(EntryLocation(loc.folder, newName))
    ensures
      var to, s' := EntryLocation(loc.folder, newName), FollowedRename(s, p, loc, newName);
      && FromUniqueLabel(s'.items[p]) == to && (forall q :: q in s.items && q != p ==> q in s'.items && s'.items[q] == s.items[q])
      && Has(s'.wallet, to) && Get(s'.wallet, to) == Get(s.wallet, loc) && !Has(s'.wallet, loc)
      && LocationText(loc) in s.params && LocationText(to) in s'.params && LocationText(loc) !in s'.params
      && s'.params[LocationText(to)] == s.params[LocationText(loc)]
  {
    hide FromEntryLocation, FromUniqueLabel, Canonical, SplitLocation, LocationText, Has, Good, Renamed, Get, Agree;
    var to := EntryLocation(loc.folder, newName);
    RenamedKeeps(s.wallet, loc, newName, loc);
    LocationRoundTrip(to);
    EntryText(s, loc);
    OtherKeyOtherText(loc, to);
  }

  // The agreement survives a rename exactly when the new name is the old one, or is free and canonical.
  lemma FollowedRenameAgrees(s: Stores, p: ItemPath, loc: EntryLocation, newName: string)
    requires Agree(s) && Has(s.wallet, loc) && p in s.items && s.items[p] == FromEntryLocation(loc)
    ensures
      var to := EntryLocation(loc.folder, newName);
      Agree(FollowedRename(s, p, loc, newName)) <==> to == loc || (!Has(s.wallet, to) && Canonical(to))
  {
    hide FromEntryLocation, FromUniqueLabel, Canonical, SplitLocation, LocationText, Has, Good, Renamed;
    var to := EntryLocation(loc.folder, newName);
    var s' := FollowedRename(s, p, loc, newName);
    forall l
      ensures Has(s'.wallet, l) <==> if Has(s.wallet, to) then Has(s.wallet, l) else l == to || (Has(s.wallet, l) && l != loc)
    {
      HasRenamed(s.wallet, loc, newName, l);
    }
    var p0 := EntryItem(s, loc);
    if to == loc {
      assert s'.items == s.items;
      SameAgrees(s, s');
    } else if Has(s.wallet, to) {
      var q := EntryItem(s, to);
      TwoOfOneLocation(s.items, p, FromEntryLocation(to), q);
    } else if Canonical(to) {
      LocationRoundTrip(to);
      FollowedToFree(s, s', p, loc, to);
    } else if Agree(s') {
      var q := EntryItem(s', to);
    }
  }

  // One item with its attributes has gone to a free location together with its entry.
  lemma FollowedToFree(s: Stores, s': Stores, p: ItemPath, loc: EntryLocation, to: EntryLocation)
    requires Agree(s) && Has(s.wallet, loc) && !Has(s.wallet, to)
    requires p in s.items && FromUniqueLabel(s.items[p]) == loc && FromUniqueLabel(FromEntryLocation(to)) == to
    requires s'.items == s.items[p := FromEntryLocation(to)] && s'.params == Relocated(s.params, loc, to)
    requires forall l :: Has(s'.wallet, l) <==> l == to || (Has(s.wallet, l) && l != loc)
    ensures Agree(s')
  {
    hide FromEntryLocation, FromUniqueLabel, SplitLocation, LocationText, Has, AttributesKept, EntriesCovered, ItemsApart;
    assert ItemsApart(s'.items) by {
      FreeNotCovered(s, to);
      ApartAdded(s.items, p, FromEntryLocation(to));
    }
    assert EntriesCovered(s') by {
      CoveredFollow(s, s', p, loc, to);
    }
    GoodCanonical(FromEntryLocation(to));
    EntryText(s, loc);
    AttributesFollow(s, s', loc, to);
    assert ItemsNameEntries(s') by {
      NamedFollow(s, s', p, loc, to);
    }
  }

  lemma NamedFollow(s: Stores, s': Stores, p: ItemPath, loc: EntryLocation, to: EntryLocation)
    requires ItemsNameEntries(s) && ItemsApart(s.items) && p in s.items && FromUniqueLabel(s.items[p]) == loc
    requires p in s'.items && FromUniqueLabel(s'.items[p]) == to && Good(s'.items[p]) && s'.items == s.items[p := s'.items[p]]
    requires forall l :: Has(s'.wallet, l) <==> l == to || (Has(s.wallet, l) && l != loc)
    ensures ItemsNameEntries(s')
  {
    hide FromEntryLocation, FromUniqueLabel, Has, Good;
  }

  lemma CoveredFollow(s: Stores, s': Stores, p: ItemPath, loc: EntryLocation, to: EntryLocation)
    requires EntriesCovered(s) && p in s.items && FromUniqueLabel(s.items[p]) == loc
    requires p in s'.items && FromUniqueLabel(s'.items[p]) == to && s'.items == s.items[p := s'.items[p]]
    requires forall l :: Has(s'.wallet, l) <==> l == to || (Has(s.wallet, l) && l != loc)
    ensures EntriesCovered(s')
  {
    hide FromUniqueLabel, Has;
    forall l | Has(s'.wallet, l) ensures Covered(s'.items, l) {
      if l != to {
        assert Covered(s.items, l);
        var q :| q in s.items && FromUniqueLabel(s.items[q]) == l;
        assert q in s'.items;
      }
    }
  }

  lemma AttributesFollow(s: Stores, s': Stores, loc: EntryLocation, to: EntryLocation)
    requires Agree(s) && Has(s.wallet, loc) && SplitLocation(LocationText(to)) == to
    requires s'.params.Keys == s.params.Keys - {LocationText(loc)} + {LocationText(to)}
    requires forall l :: Has(s'.wallet, l) <==> l == to || (Has(s.wallet, l) && l != loc)
    ensures AttributesKept(s')
  {
    hide FromEntryLocation, FromUniqueLabel, SplitLocation, LocationText, Has, ItemsNameEntries, ItemsApart, EntriesCovered;
    forall l | Has(s'.wallet, l) && l != to ensures LocationText(l) in s'.params {
      if LocationText(l) == LocationText(loc) {
        TextsDiffer(s, l, loc);
      }
    }
    var p := EntryItem(s, loc);
  }

  // An entry that is not there is not moved, but an item can have the label of its location all the same,
  // or the location a text under which another entry's attributes are stored. The agreement survives
  // exactly when the new label is the same and those attributes are not taken away.
  lemma FollowedMissing(s: Stores, p: ItemPath, loc: EntryLocation, newName: string)
    requires Agree(s) && !Has(s.wallet, loc) && p in s.items && s.items[p] == FromEntryLocation(loc)
    ensures
      var to := EntryLocation(loc.folder, newName);
      Agree(FollowedRename(s, p, loc, newName)) <==>
        FromEntryLocation(to) == FromEntryLocation(loc) && (to == loc || LocationText(loc) !in s.params)
  {
    hide FromEntryLocation, FromUniqueLabel, Canonical, SplitLocation, LocationText, Has, Good, Renamed, Agree;
    var to := EntryLocation(loc.folder, newName);
    var s' := FollowedRename(s, p, loc, newName);
    forall l ensures Has(s'.wallet, l) <==> Has(s.wallet, l) {
      HasRenamedMissing(s.wallet, loc, newName, l);
    }
    if FromEntryLocation(to) != FromEntryLocation(loc) {
      OtherLabel(s, s', p, FromEntryLocation(to));
    } else {
      assert s'.items == s.items;
      if to == loc || LocationText(loc) !in s.params {
        SameAgrees(s, s');
      } else {
        OtherKeyOtherText(loc, to);
        TextLost(s, s', LocationText(loc));
      }
    }
  }

  lemma HasRenamedMissing(wallet: WalletMap, loc: EntryLocation, newName: string, l: EntryLocation)
    requires !Has(wallet, loc)
    ensures Has(Renamed(wallet, loc.folder, loc.key, newName), l) <==> Has(wallet, l)
  {
  }

  // With the same entries no item can have another label.
  lemma OtherLabel(s: Stores, s': Stores, p: ItemPath, u: FdoUniqueLabel)
    requires Agree(s) && p in s.items && u != s.items[p] && s'.items == s.items[p := u]
    requires forall l :: Has(s'.wallet, l) <==> Has(s.wallet, l)
    ensures !Agree(s')
  {
    hide FromEntryLocation, FromUniqueLabel, Has, Good, Agree;
    if Agree(s') {
      ItemsEntry(s', p);
      ItemsEntry(s, p);
      var q := EntryItem(s, FromUniqueLabel(u));
      var mine := s.items[p];
      if FromUniqueLabel(mine) == FromUniqueLabel(u) {
        SameLabel(u, mine);
      } else {
        TwoOfOneLocation(s.items, p, u, q);
        AgreeApart(s');
      }
    }
  }

  lemma OtherKeyOtherText(a: EntryLocation, b: EntryLocation)
    requires a.folder == b.folder && a != b
    ensures LocationText(a) != LocationText(b)
  {
    assert LocationText(a)[|a.folder| + 1..] == a.key && LocationText(b)[|b.folder| + 1..] == b.key;
  }

  // Nor can a text go.
  lemma TextLost(s: Stores, s': Stores, t: string)
    requires Agree(s) && t in s.params && t !in s'.params
    requires forall l :: Has(s'.wallet, l) <==> Has(s.wallet, l)
    ensures !Agree(s')
  {
    hide FromEntryLocation, FromUniqueLabel, SplitLocation, LocationText, Has;
    assert Has(s'.wallet, SplitLocation(t));
  }

  // ---- Unlocking ----

  // What the attributes file gives a locked collection: items with attributes, for entries that exist.
  ghost predicate Half(s: Stores)
  {
    && ItemsNameEntries(s) && ItemsApart(s.items)
    && (forall p :: p in s.items ==> LocationText(FromUniqueLabel(s.items[p])) in s.params)
    && (forall t :: t in s.params ==> LocationText(SplitLocation(t)) == t && Covered(s.items, SplitLocation(t)))
  }

  lemma HalfAgrees(s: Stores)
    ensures Agree(s) <==> Half(s) && EntriesCovered(s)
  {
    hide FromEntryLocation, FromUniqueLabel, Canonical, SplitLocation, LocationText, Has, Good;
    if Half(s) && EntriesCovered(s) {
      forall l | Has(s.wallet, l) ensures LocationText(l) in s.params {
        assert Covered(s.items, l);
      }
    }
  }

  // An item for one more entry.
  lemma HalfAdded(s: Stores, s': Stores, p: ItemPath, loc: EntryLocation)
    requires Half(s) && p !in s.items && Has(s.wallet, loc) && Canonical(loc) && FromEntryLocation(loc) !in s.items.Values
    requires s'.items == s.items[p := FromEntryLocation(loc)] && s'.wallet == s.wallet
    requires s'.params.Keys == s.params.Keys + {LocationText(loc)}
    ensures Half(s') && Covered(s'.items, loc)
    ensures forall l :: Covered(s.items, l) ==> Covered(s'.items, l)
  {
    hide FromEntryLocation, FromUniqueLabel, Canonical, SplitLocation, LocationText, Has, Good;
    LocationRoundTrip(loc);
    assert Good(FromEntryLocation(loc)) by { GoodFrom(loc); }
    GoodCanonical(FromEntryLocation(loc));
    NotCovered(s.items, loc);
    ApartAdded(s.items, p, FromEntryLocation(loc));
    CoveredMore(s.items, p, FromEntryLocation(loc));
  }

  lemma CoveredMore(items: ItemMap, p: ItemPath, u: FdoUniqueLabel)
    requires p !in items
    ensures Covered(items[p := u], FromUniqueLabel(u))
    ensures forall l :: Covered(items, l) ==> Covered(items[p := u], l)
  {
    hide FromUniqueLabel;
    assert p in items[p := u];
    forall l | Covered(items, l) ensures Covered(items[p := u], l) {
      var q :| q in items && FromUniqueLabel(items[q]) == l;
      assert q in items[p := u];
    }
  }

  lemma GoodFrom(loc: EntryLocation)
    requires FromUniqueLabel(FromEntryLocation(loc)) == loc
    ensures Good(FromEntryLocation(loc))
  {
  }

  lemma NotCovered(items: ItemMap, loc: EntryLocation)
    requires (forall p :: p in items ==> Good(items[p])) && FromEntryLocation(loc) !in items.Values
    ensures !Covered(items, loc)
  {
    hide FromEntryLocation, FromUniqueLabel;
  }

}
