/** KWalletFreedesktopCollection and its items, with the wallet operations they call and the signals
    the wallet sends back while such an operation is still under way. */
module SecretCollection {
  import opened Attributes
  import opened Choice
  import opened Decimal
  import opened FreshNames
  import opened Items
  import opened Labels
  import opened Options

  datatype Event = ItemCreated(path: ItemPath) | ItemChanged(path: ItemPath) | ItemDeleted(path: ItemPath)

  // The kind of entry a secret becomes.
  function KindOf(attribs: Strings, mime: string): int
  {
    if "type" in attribs && attribs["type"] == "map" then KIND_MAP
    else if ("xdg:schema" in attribs && attribs["xdg:schema"] == "org.kde.KWallet.Password") || "text/" <= mime then KIND_PASSWORD
    else KIND_STREAM
  }

  // In numbers: 3 for a map, 1 for text, 2 for all else.
  lemma KindMeans(attribs: Strings, mime: string)
    ensures KindOf(attribs, mime) ==
      if "type" in attribs && attribs["type"] == "map" then 3
      else if ("xdg:schema" in attribs && attribs["xdg:schema"] == "org.kde.KWallet.Password") || "text/" <= mime then 1
      else 2
  {
  }

  function NewParams(mime: string, now: string, attribs: Strings): Params
  {
    Params(map[KEY_MIME := mime, KEY_CREATED := now, KEY_MODIFIED := now], attribs)
  }

  lemma NewParamsMean(mime: string, now: string, attribs: Strings)
    ensures NewParams(mime, now, attribs) ==
      Params(map["$fdo_mime_type" := mime, "$fdo_created" := now, "$fdo_modified" := now], attribs)
  {
  }

  // What an unlocked collection writes about an entry that it finds.
  function FoundParams(loc: EntryLocation, kind: int, now: string): Params
  {
    Params(map[KEY_CREATED := now, KEY_MODIFIED := now],
           map["server" := loc.folder, "user" := loc.key,
               "type" := if kind == KIND_STREAM then "binary" else if kind == KIND_MAP then "map" else "plaintext"])
  }

  // The names and values in full: folder, key and kind of the entry, and the two stamps.
  lemma FoundParamsMean(folder: string, key: string, kind: int, now: string)
    ensures
      var ps := FoundParams(EntryLocation(folder, key), kind, now);
      && ps.fields == map["$fdo_created" := now, "$fdo_modified" := now]
      && ps.attributes == map["server" := folder, "user" := key,
                              "type" := if kind == 2 then "binary" else if kind == 3 then "map" else "plaintext"]
  {
  }

  // Attributes are there as they were, and new ones only for entries.
  ghost predicate Described(s: Stores, s': Stores, now: string)
  {
    && (forall t :: t in s.params ==> t in s'.params && s'.params[t] == s.params[t])
    && (forall t :: t in s'.params && t !in s.params ==>
          && Has(s.wallet, SplitLocation(t))
          && s'.params[t] == FoundParams(SplitLocation(t), Get(s.wallet, SplitLocation(t)).kind, now))
  }

  // The location that the first match names.
  ghost function FirstMatch(params: ParamMap, attribs: Strings, order: seq<string>): Option<EntryLocation>
    requires Lists(order, params)
  {
    var found := MatchesIn(params, attribs, order);
    if found == [] then None else Some(found[0])
  }

  function Keys(wallet: WalletMap): map<string, set<string>>
  {
    map f | f in wallet :: wallet[f].Keys
  }

  // A location that makeUniqueEntryLocation() may return for a label: the first free one.
  ghost predicate FreeFor(title: string, wallet: WalletMap, loc: EntryLocation)
  {
    && loc.folder == FolderAndName(title).0
    && !Has(wallet, loc)
    && exists k: nat :: loc.key == NumberedName(FolderAndName(title).1, k) && TakenBelow(title, wallet, k)
  }

  ghost predicate TakenBelow(title: string, wallet: WalletMap, k: nat)
  {
    forall i: nat :: i < k ==> Has(wallet, EntryLocation(FolderAndName(title).0, NumberedName(FolderAndName(title).1, i)))
  }

  class Collection {
    const attributes: AttributeStore
    var items: ItemMap
    var itemCounter: nat
    // the entries of the wallet, and the handle it is open under, or -1
    var wallet: WalletMap
    var handle: int
    // the signals sent to clients
    var events: seq<Event>

    ghost function View(): Stores
      reads this, attributes
    {
      Stores(items, attributes.params, wallet)
    }

    // The entries that can be reached: none while the collection is locked.
    function Reachable(): WalletMap
      reads this
    {
      if handle >= 0 then wallet else map[]
    }

    // No item has a path that is still to be given out.
    ghost predicate Valid()
      reads this
    {
      forall p :: p in items ==> p.number < itemCounter
    }

    // An unlocked collection starts without items. A locked one gets those that the attributes file
    // lists; what is on file is good when every text in it is the canonical location of an entry.
    constructor (h: int, stored: ParamMap, w: WalletMap)
      ensures Valid() && fresh(attributes) && handle == h && wallet == w && attributes.params == stored && events == []
      ensures h != -1 ==> items == map[]
      ensures h == -1 ==> forall t :: t in stored ==> FromEntryLocation(SplitLocation(t)) in items.Values
      ensures h == -1 && OnFile(stored, w) ==> Half(View())
    {
      attributes := new AttributeStore(stored);
      items, itemCounter, wallet, handle, events := map[], 0, w, h, [];
      new;
      if handle == -1 {
        ListedItems();
      }
    }

    method ListedItems()
      requires items == map[] && Valid()
      modifies this`items, this`itemCounter, this`events
      ensures Valid() && events == old(events)
      ensures forall t :: t in attributes.params ==> FromEntryLocation(SplitLocation(t)) in items.Values
      ensures OnFile(attributes.params, wallet) ==> Half(View())
    {
      hide OnFile, FromEntryLocation, FromUniqueLabel, SplitLocation, LocationText, Has;
      var left := attributes.params.Keys;
      while left != {}
        invariant Valid() && events == old(events) && left <= attributes.params.Keys
        invariant forall t :: t in attributes.params && t !in left ==> FromEntryLocation(SplitLocation(t)) in items.Values
        invariant OnFile(attributes.params, wallet) ==> Listed(View())
        decreases left
      {
        var t :| t in left;
        var found := FindItemByEntryLocation(SplitLocation(t));
        if found.None? {
          var p := NextItemPath();
          ghost var s := View();
          PushNewItem(FromEntryLocation(SplitLocation(t)), p);
          KeepsLabels(s.items, p, items[p]);
          if OnFile(attributes.params, wallet) {
            ListedOneMore(s, p, t);
          }
        }
        left := left - {t};
      }
      if OnFile(attributes.params, wallet) {
        ListedAll(View());
      }
    }

    // ---- Items ----

    method NextItemPath() returns (p: ItemPath)
      requires Valid()
      modifies this`itemCounter
      ensures Valid() && p !in items && p.number < itemCounter
    {
      p := ItemPath(itemCounter);
      itemCounter := itemCounter + 1;
    }

    method FindItemByEntryLocation(loc: EntryLocation) returns (found: Option<ItemPath>)
      ensures found.None? <==> FromEntryLocation(loc) !in items.Values
      ensures found.Some? ==> found.value in items && items[found.value] == FromEntryLocation(loc)
    {
      var u := FromEntryLocation(loc);
      var left := items.Keys;
      while left != {}
        invariant left <= items.Keys
        invariant forall p :: p in items && p !in left ==> items[p] != u
        decreases left
      {
        var p :| p in left;
        if items[p] == u {
          return Some(p);
        }
        left := left - {p};
      }
      found := None;
    }

    method OnItemChanged(p: ItemPath)
      modifies this`events
      ensures events == old(events) + [ItemChanged(p)]
    {
      events := events + [ItemChanged(p)];
    }

    // An item that has gone already is left alone.
    method OnItemDeleted(p: ItemPath)
      modifies this`items, this`events, attributes
      ensures p !in old(items) ==> View() == old(View()) && events == old(events)
      ensures p in old(items) ==>
        && items == old(items) - {p} && events == old(events) + [ItemDeleted(p)]
        && attributes.params == old(attributes.params) - {LocationText(FromUniqueLabel(old(items)[p]))}
    {
      if p !in items {
        return;
      }
      attributes.Remove(FromUniqueLabel(items[p]));
      items := items - {p};
      events := events + [ItemDeleted(p)];
    }

    // An item that was at the path is destroyed first, and says that it changed.
    method PushNewItem(u: FdoUniqueLabel, p: ItemPath)
      requires Valid() && p.number < itemCounter
      modifies this`items, this`events
      ensures Valid()
      ensures items == old(items)[p := u]
      ensures events == if p in old(items) then old(events) + [ItemChanged(p)] else old(events)
    {
      if p in items {
        items := items - {p};
        OnItemChanged(p);
      }
      items := items[p := u];
    }

    method MakeUniqueLocation(title: string) returns (loc: EntryLocation)
      ensures FreeFor(title, Reachable(), loc)
    {
      loc := MakeUniqueEntryLocation(title, Keys(Reachable()));
      ghost var name := FolderAndName(title).1;
      ghost var taken := if loc.folder in Keys(Reachable()) then Keys(Reachable())[loc.folder] else {};
      ghost var k: nat :| k <= |taken| && FirstFree((k: nat) => NumberedName(name, k), taken, k) && loc.key == NumberedName(name, k);
      assert TakenBelow(title, Reachable(), k) by {
        FirstFreeTaken(title, Reachable(), taken, k);
      }
    }

    // ---- The wallet, and what its signals bring about ----

    // Nothing happens to a wallet that is not open.
    method WriteEntry(loc: EntryLocation, e: Secret)
      modifies this`wallet
      ensures wallet == if handle >= 0 then Written(old(wallet), loc, e) else old(wallet)
    {
      if handle >= 0 {
        var m := if loc.folder in wallet then wallet[loc.folder] else map[];
        wallet := wallet[loc.folder := m[loc.key := e]];
      }
    }

    // entryType() and readEntry()
    method ReadEntry(loc: EntryLocation) returns (e: Secret)
      ensures e == EntryAt(Reachable(), loc)
      ensures !Has(Reachable(), loc) ==> e == Secret(0, [])
    {
      e := Secret(KIND_UNKNOWN, []);
      if handle >= 0 && loc.folder in wallet && loc.key in wallet[loc.folder] {
        e := wallet[loc.folder][loc.key];
      }
    }

    // gone is the item that the signal entryDeleted has taken away.
    method RemoveEntry(folder: string, key: string) returns (ghost gone: Option<ItemPath>)
      modifies this`wallet, this`items, this`events, attributes
      ensures wallet == if handle >= 0 then Removed(old(wallet), EntryLocation(folder, key)) else old(wallet)
      ensures handle < 0 ==> gone.None?
      ensures gone.None? ==>
        && items == old(items) && events == old(events) && attributes.params == old(attributes.params)
        && (folder in old(Reachable()) ==> FromEntryLocation(EntryLocation(folder, key)) !in items.Values)
      ensures gone.Some? ==>
        && gone.value in old(items) && old(items)[gone.value] == FromEntryLocation(EntryLocation(folder, key))
        && items == old(items) - {gone.value} && events == old(events) + [ItemDeleted(gone.value)]
        && attributes.params == old(attributes.params) - {LocationText(FromUniqueLabel(old(items)[gone.value]))}
      ensures handle >= 0 && Agree(old(View())) ==> (Agree(View()) <==> Canonical(EntryLocation(folder, key)) || gone.None?)
    {
      hide FromEntryLocation, FromUniqueLabel, Agree, Canonical;
      ghost var s := View();
      gone := None;
      if handle < 0 || folder !in wallet {
        return;
      }
      wallet := wallet[folder := wallet[folder] - {key}];
      gone := EntryDeleted(folder, key);
      if Agree(s) {
        RemovedAgrees(s, EntryLocation(folder, key), gone);
      }
    }

    method EntryDeleted(folder: string, key: string) returns (ghost gone: Option<ItemPath>)
      modifies this`items, this`events, attributes
      ensures gone.None? ==>
        && items == old(items) && events == old(events) && attributes.params == old(attributes.params)
        && FromEntryLocation(EntryLocation(folder, key)) !in items.Values
      ensures gone.Some? ==>
        && gone.value in old(items) && old(items)[gone.value] == FromEntryLocation(EntryLocation(folder, key))
        && items == old(items) - {gone.value} && events == old(events) + [ItemDeleted(gone.value)]
        && attributes.params == old(attributes.params) - {LocationText(FromUniqueLabel(old(items)[gone.value]))}
    {
      var item := FindItemByEntryLocation(EntryLocation(folder, key));
      gone := item;
      if item.Some? {
        OnItemDeleted(item.value);
      }
    }

    // followed is the item that the signal entryRenamed has given a new label.
    method RenameEntry(folder: string, oldName: string, newName: string) returns (ghost followed: Option<ItemPath>)
      modifies this`wallet, this`items, this`events, attributes
      ensures handle < 0 ==> followed.None? && View() == old(View()) && events == old(events)
      ensures handle >= 0 && followed.None? ==>
        && View() == old(View()).(wallet := Renamed(old(wallet), folder, oldName, newName)) && events == old(events)
        && FromEntryLocation(EntryLocation(folder, oldName)) !in items.Values
      ensures followed.Some? ==>
        && followed.value in old(items) && old(items)[followed.value] == FromEntryLocation(EntryLocation(folder, oldName))
        && View() == FollowedRename(old(View()), followed.value, EntryLocation(folder, oldName), newName)
        && events == old(events) + [ItemChanged(followed.value)]
      ensures handle >= 0 && Agree(old(View())) ==>
        var from, to := EntryLocation(folder, oldName), EntryLocation(folder, newName);
        Agree(View()) <==>
          if Has(old(wallet), from) then to == from || (!Has(old(wallet), to) && Canonical(to))
          else followed.None? || (FromEntryLocation(to) == FromEntryLocation(from)
                                  && (to == from || LocationText(from) !in old(attributes.params)))
    {
      hide FromEntryLocation, FromUniqueLabel, Agree, Canonical;
      ghost var s := View();
      followed := None;
      if handle < 0 {
        return;
      }
      var m := if folder in wallet then wallet[folder] else map[];
      if oldName in m && newName !in m {
        m := m[newName := m[oldName]] - {oldName};
      }
      wallet := wallet[folder := m];
      followed := EntryRenamed(folder, oldName, newName);
      if Agree(s) {
        RenamedAgrees(s, EntryLocation(folder, oldName), newName, followed);
      }
    }

    method EntryRenamed(folder: string, oldName: string, newName: string) returns (ghost followed: Option<ItemPath>)
      modifies this`items, this`events, attributes
      ensures followed.None? ==>
        && items == old(items) && events == old(events) && attributes.params == old(attributes.params)
        && FromEntryLocation(EntryLocation(folder, oldName)) !in items.Values
      ensures followed.Some? ==>
        && followed.value in old(items) && old(items)[followed.value] == FromEntryLocation(EntryLocation(folder, oldName))
        && items == old(items)[followed.value := FromEntryLocation(EntryLocation(folder, newName))]
        && attributes.params == Relocated(old(attributes.params), EntryLocation(folder, oldName), EntryLocation(folder, newName))
        && events == old(events) + [ItemChanged(followed.value)]
    {
      var item := FindItemByEntryLocation(EntryLocation(folder, oldName));
      followed := item;
      if item.Some? {
        attributes.RenameLabel(EntryLocation(folder, oldName), EntryLocation(folder, newName));
        items := items[item.value := FromEntryLocation(EntryLocation(folder, newName))];
        OnItemChanged(item.value);
      }
    }

    // ---- Locking and unlocking ----

    // When a locked collection is unlocked, every entry of the wallet gets an item. If what was there
    // came from a good attributes file and all entries are canonical, the stores agree from then on.
    // For each entry, in the order they are visited, one signal tells of the item made or of the one there was.
    method OnWalletChangeState(newHandle: int, now: string) returns (ghost visited: seq<EntryLocation>)
      requires Valid()
      modifies this, attributes
      ensures Valid() && handle == newHandle && wallet == old(wallet)
      ensures old(handle) >= 0 || newHandle < 0 ==> View() == old(View()) && events == old(events)
      ensures old(handle) < 0 && newHandle >= 0 ==>
        && (forall loc :: Has(wallet, loc) ==> FromEntryLocation(loc) in items.Values)
        && (forall p :: p in old(items) ==> p in items && items[p] == old(items)[p])
        && (Half(old(View())) && AllCanonical(wallet) ==> Agree(View()) && Described(old(View()), View(), now))
      ensures old(handle) < 0 && newHandle >= 0 ==>
        && (forall loc :: loc in visited <==> Has(wallet, loc)) && Once(visited)
        && old(events) <= events && Announced(old(items), items, visited, events[|old(events)|..])
    {
      hide FromEntryLocation, FromUniqueLabel, Half, Canonical, Agree, Covered, Described, Has, Announced, Once;
      visited := [];
      if newHandle == handle {
        return;
      }
      if newHandle >= 0 && handle >= 0 {
        handle := newHandle;
        return;
      }
      ghost var s := View();
      handle := newHandle;
      // a wallet that is not open has no folders to list
      if newHandle >= 0 {
        visited := UnlockAll(now);
        if Half(s) && AllCanonical(wallet) {
          HalfAgrees(View());
          assert EntriesCovered(View());
        }
      }
    }

    method UnlockAll(now: string) returns (ghost visited: seq<EntryLocation>)
      requires Valid()
      modifies this`items, this`itemCounter, this`events, attributes
      ensures Valid()
      ensures forall loc :: Has(wallet, loc) ==> FromEntryLocation(loc) in items.Values
      ensures forall p :: p in old(items) ==> p in items && items[p] == old(items)[p]
      ensures Half(old(View())) && AllCanonical(wallet) ==>
                Grown(old(View()), View(), now) && forall loc :: Has(wallet, loc) ==> Covered(items, loc)
      ensures (forall loc :: loc in visited <==> Has(wallet, loc)) && Once(visited)
      ensures old(events) <= events && Announced(old(items), items, visited, events[|old(events)|..])
    {
      hide FromEntryLocation, FromUniqueLabel, Half, Canonical, Covered, Grown, AllCanonical, Has, Announced, Once, Visited;
      ghost var s, told := View(), events;
      visited := [];
      NothingVisited(wallet, items);
      assert events[|told|..] == [];
      if Half(s) {
        GrownSame(s, now);
      }
      NoneDone(wallet, items);
      var folders := wallet.Keys;
      while folders != {}
        invariant Valid() && folders <= wallet.Keys
        invariant InFoldersDone(wallet, folders, items)
        invariant forall p :: p in s.items ==> p in items && items[p] == s.items[p]
        invariant Half(s) && AllCanonical(wallet) ==> Grown(s, View(), now) && CoveredDone(wallet, folders, items)
        invariant Visited(wallet, folders, visited)
        invariant told <= events && Announced(s.items, items, visited, events[|told|..])
        decreases folders
      {
        ghost var s1, told1 := View(), events;
        var folder :| folder in folders;
        ghost var more := UnlockFolder(folder, now);
        AnnouncedJoin(s.items, s1.items, items, visited, more, told, told1, events);
        VisitedOneFolder(wallet, folders, visited, folder, more);
        visited := visited + more;
        LabelledOneFolder(s1, items, folder, folders);
        if Half(s) && AllCanonical(wallet) {
          GrownHalf(s, s1, now);
          GrownThen(s, s1, View(), now);
          CoveredOneFolder(s1, View(), folder, folders, now);
        }
        folders := folders - {folder};
      }
      forall loc | Has(wallet, loc) ensures FromEntryLocation(loc) in items.Values {
        HasFolder(wallet, loc);
      }
      VisitedAll(wallet, visited);
    }

    method UnlockFolder(folder: string, now: string) returns (ghost visited: seq<EntryLocation>)
      requires Valid() && folder in wallet
      modifies this`items, this`itemCounter, this`events, attributes
      ensures Valid()
      ensures forall key :: key in wallet[folder] ==> FromEntryLocation(EntryLocation(folder, key)) in items.Values
      ensures forall u :: u in old(items).Values ==> u in items.Values
      ensures forall p :: p in old(items) ==> p in items && items[p] == old(items)[p]
      ensures Half(old(View())) && AllCanonical(wallet) ==>
        Grown(old(View()), View(), now) && forall key :: key in wallet[folder] ==> Covered(items, EntryLocation(folder, key))
      ensures VisitedIn(folder, wallet[folder].Keys, visited)
      ensures old(events) <= events && Announced(old(items), items, visited, events[|old(events)|..])
    {
      hide FromEntryLocation, FromUniqueLabel, Half, Canonical, Covered, Grown, Announced, VisitedIn;
      ghost var s, told := View(), events;
      visited := [];
      NothingVisited(wallet, items);
      assert events[|told|..] == [];
      NoKeyVisited(folder);
      if Half(s) {
        GrownSame(s, now);
      }
      var entries := wallet[folder].Keys;
      assert wallet[folder].Keys - entries == {};
      while entries != {}
        invariant Valid() && entries <= wallet[folder].Keys
        invariant forall key :: key in wallet[folder] && key !in entries ==> FromEntryLocation(EntryLocation(folder, key)) in items.Values
        invariant forall u :: u in s.items.Values ==> u in items.Values
        invariant forall p :: p in s.items ==> p in items && items[p] == s.items[p]
        invariant Half(s) && AllCanonical(wallet) ==>
                    && Grown(s, View(), now)
                    && (forall key :: key in wallet[folder] && key !in entries ==> Covered(items, EntryLocation(folder, key)))
        invariant VisitedIn(folder, wallet[folder].Keys - entries, visited)
        invariant told <= events && Announced(s.items, items, visited, events[|told|..])
        decreases entries
      {
        ghost var s1, told1 := View(), events;
        var key :| key in entries;
        UnlockEntry(EntryLocation(folder, key), now);
        AnnouncedJoin(s.items, s1.items, items, visited, [EntryLocation(folder, key)], told, told1, events);
        VisitedOneKey(folder, wallet[folder].Keys - entries, visited, key);
        assert wallet[folder].Keys - (entries - {key}) == wallet[folder].Keys - entries + {key};
        visited := visited + [EntryLocation(folder, key)];
        if Half(s) && AllCanonical(wallet) {
          GrownHalf(s, s1, now);
          GrownThen(s, s1, View(), now);
          GrownCovers(s1, View(), now);
        }
        entries := entries - {key};
      }
      assert wallet[folder].Keys - entries == wallet[folder].Keys;
    }

    // The attributes and the item for an entry that has none. They are set once more under the location
    // that the item's label names, which is another one when the entry is not canonical.
    method DescribeEntry(loc: EntryLocation, now: string) returns (p: ItemPath)
      requires Valid() && Has(wallet, loc)
      modifies this`items, this`itemCounter, this`events, attributes
      ensures Valid() && p !in old(items) && items == old(items)[p := FromEntryLocation(loc)]
      ensures events == old(events) + [ItemCreated(p)]
      ensures
        var ps := FoundParams(loc, Get(wallet, loc).kind, now);
        attributes.params ==
        WithAttributes(old(attributes.params)[LocationText(loc) := ps], FromUniqueLabel(FromEntryLocation(loc)), ps.attributes)
    {
      hide FromEntryLocation, FromUniqueLabel, LocationText;
      var kind := wallet[loc.folder][loc.key].kind;
      var attr := map["server" := loc.folder, "user" := loc.key,
                      "type" := if kind == KIND_STREAM then "binary" else if kind == KIND_MAP then "map" else "plaintext"];
      attributes.NewItem(loc);
      attributes.SetParam(loc, KEY_CREATED, now);
      attributes.SetParam(loc, KEY_MODIFIED, now);
      attributes.SetAttributes(loc, attr);
      FoundParamsSet(old(attributes.params), loc, kind, now);
      hide WithAttributes, WithParam;
      p := NextItemPath();
      PushNewItem(FromEntryLocation(loc), p);
      attributes.SetAttributes(FromUniqueLabel(items[p]), attr);
      events := events + [ItemCreated(p)];
    }

    // An entry without an item is described and gets one; the item of another entry is only announced.
    method UnlockEntry(loc: EntryLocation, now: string)
      requires Valid() && Has(wallet, loc)
      modifies this`items, this`itemCounter, this`events, attributes
      ensures Valid() && FromEntryLocation(loc) in items.Values
      ensures forall u :: u in old(items).Values ==> u in items.Values
      ensures forall p :: p in old(items) ==> p in items && items[p] == old(items)[p]
      ensures FromEntryLocation(loc) in old(items).Values ==>
        && View() == old(View())
        && exists p :: p in items && items[p] == FromEntryLocation(loc) && events == old(events) + [ItemChanged(p)]
      ensures FromEntryLocation(loc) !in old(items).Values && Canonical(loc) ==>
        attributes.params == old(attributes.params)[LocationText(loc) := FoundParams(loc, Get(wallet, loc).kind, now)]
      ensures FromEntryLocation(loc) !in old(items).Values ==>
        exists p :: p !in old(items) && items == old(items)[p := FromEntryLocation(loc)] && events == old(events) + [ItemCreated(p)]
      ensures Half(old(View())) && Canonical(loc) ==> Grown(old(View()), View(), now) && Covered(items, loc)
      ensures old(events) <= events && Announced(old(items), items, [loc], events[|old(events)|..])
    {
      hide FromEntryLocation, FromUniqueLabel, Half, Canonical, Covered, LocationText, SplitLocation, Has, Described, FoundParams, Announced;
      ghost var s := View();
      var itm := FindItemByEntryLocation(loc);
      if itm.None? {
        var p := DescribeEntry(loc, now);
        CreatedAnnounced(s.items, items, loc, p);
        assert events[|old(events)|..] == [ItemCreated(p)];
        KeepsLabels(s.items, p, FromEntryLocation(loc));
        if Canonical(loc) {
          LocationRoundTrip(loc);
          SetAgain(s.params, loc, FoundParams(loc, Get(wallet, loc).kind, now));
          if Half(s) {
            DescribedOne(s, View(), loc, now);
            HalfAdded(s, View(), p, loc);
          }
        }
      } else {
        events := events + [ItemChanged(itm.value)];
        ChangedAnnounced(items, loc, itm.value);
        assert events[|old(events)|..] == [ItemChanged(itm.value)];
        if Half(s) && Canonical(loc) {
          GrownSame(s, now);
          LocationRoundTrip(loc);
          ThatItem(items, itm.value);
        }
      }
    }

    // ---- What clients ask for ----

    // The label is changed first, so that in agreeing stores the signals the wallet sends back find no
    // item to touch; otherwise they may hit another item with the old label. The label that is taken
    // comes from a location, free, that has no entry. All is well exactly when the location that this
    // label names in turn is free as well, or the item's own.
    method SetLabel(p: ItemPath, title: string, now: string) returns (ghost free: EntryLocation, ghost hit: Option<ItemPath>)
      requires p in items
      modifies this`wallet, this`items, this`events, attributes
      ensures FreeFor(title, old(Reachable()), free)
      ensures View() == (if handle >= 0 then RelabelledWith(old(View()), p, FromEntryLocation(free), now, hit)
                         else Relabelled(old(View()), p, FromEntryLocation(free), now).(wallet := old(wallet)))
      ensures
        var loc, to := FromUniqueLabel(old(items)[p]), FromUniqueLabel(FromEntryLocation(free));
        events == old(events) + EchoOf(hit, loc, to) + [ItemChanged(p)]
      ensures hit.Some? ==>
        && handle >= 0
        && hit.value in old(items)[p := FromEntryLocation(free)]
        && old(items)[p := FromEntryLocation(free)][hit.value] == FromEntryLocation(FromUniqueLabel(old(items)[p]))
      ensures Agree(old(View())) ==>
        var to := FromUniqueLabel(FromEntryLocation(free));
        && hit.None?
        && (Canonical(free) && handle >= 0 ==> Agree(View()))
        && (Agree(View()) <==>
              if handle < 0 then FromEntryLocation(free) == old(items)[p]
              else Good(FromEntryLocation(free)) && (to == FromUniqueLabel(old(items)[p]) || !Has(old(wallet), to)))
    {
      hide FromEntryLocation, FromUniqueLabel, Agree, Good, Canonical, Has, FreeFor, LocationText;
      ghost var s := View();
      var loc := FromUniqueLabel(items[p]);
      var newLoc := MakeUniqueLocation(title);
      free := newLoc;
      var u := FromEntryLocation(newLoc);
      items := items[p := u];
      var to := FromUniqueLabel(u);
      hit := MoveEntry(loc, to);
      attributes.SetParam(loc, KEY_MODIFIED, now);
      attributes.RenameLabel(loc, to);
      OnItemChanged(p);
      if Agree(s) {
        if hit.Some? {
          LabelGivenUp(s, p, u);
        }
        RelabelAgrees(s, p, u, now);
        LockedRelabelAgrees(s, p, u, now);
        if Canonical(newLoc) {
          GoodLabel(newLoc);
        }
      }
    }

    // Into another folder the entry is written and removed, within one it is renamed.
    method MoveEntry(loc: EntryLocation, to: EntryLocation) returns (ghost hit: Option<ItemPath>)
      modifies this`wallet, this`items, this`events, attributes
      ensures View() == Echoed(old(View()), hit, loc, to).(wallet := if handle >= 0 then Moved(old(wallet), loc, to) else old(wallet))
      ensures events == old(events) + EchoOf(hit, loc, to)
      ensures hit.Some? ==>
        handle >= 0 && to != loc && hit.value in old(items) && old(items)[hit.value] == FromEntryLocation(loc)
    {
      hide FromEntryLocation, FromUniqueLabel, Agree, Canonical, LocationText, Relocated;
      hit := None;
      if to.folder != loc.folder {
        var e := ReadEntry(loc);
        WriteEntry(to, e);
        hit := RemoveEntry(loc.folder, loc.key);
      } else if to.key != loc.key {
        hit := RenameEntry(loc.folder, loc.key, to.key);
      }
    }

    // CreateItem() with the properties of the item and the secret already taken apart: sessionFound
    // says whether the secret could be decrypted, validUtf8 whether its bytes are text, value is what
    // is written. The item is at loc; it is a replaced one or a new one.
    method CreateItem(title: Option<string>, attribs: Strings, replace: bool, mime: string, now: string,
                      sessionFound: bool, validUtf8: bool, value: seq<bv8>, order: seq<string>)
      returns (path: Option<ItemPath>, ghost p: ItemPath, ghost loc: EntryLocation)
      requires Valid() && Lists(order, attributes.params)
      modifies this, attributes
      ensures Valid() && handle == old(handle)
      ensures handle == -1 || title.None? ==> path.None? && View() == old(View()) && events == old(events)
      ensures handle != -1 && title.Some? ==>
        && var first := FirstMatch(old(attributes.params), attribs, order);
        && var replaced := replace && Replaceable(old(items), first);
        && Placed(old(items), old(Reachable()), title.value, replaced, first, p, loc)
        && (loc.key == "" ==> path.None? && View() == old(View()) && events == old(events))
        && (loc.key != "" ==>
              var kind :=
                if "type" in attribs && attribs["type"] == "map" then 3
                else if ("xdg:schema" in attribs && attribs["xdg:schema"] == "org.kde.KWallet.Password") || "text/" <= mime then 1
                else 2;
              var ok := sessionFound && (kind == 1 ==> validUtf8);
              var ps := Params(map["$fdo_mime_type" := mime, "$fdo_created" := now, "$fdo_modified" := now], attribs);
              var changed := if replaced then [ItemChanged(p)] else [];
              && path == (if ok then Some(p) else None)
              && View() == (if ok && handle >= 0 then Created(old(View()), p, loc, ps, Secret(kind, value))
                            else HalfCreated(old(View()), p, loc, ps))
              && events == old(events) + changed + (if ok then [ItemCreated(p)] else [])
              && (Agree(old(View())) ==> (Agree(View()) <==> replaced || (ok && handle >= 0 && Canonical(loc)))))
    {
      hide FromEntryLocation, FromUniqueLabel, Agree, Good, Canonical, Matching, Has, FreeFor, SplitLocation, LocationText, KindOf, NewParams,
           Written, FirstMatch, Lists, Replaceable;
      path, p, loc := None, ItemPath(0), EntryLocation("", "");
      if handle == -1 || title.None? {
        return;
      }
      ghost var s := View();
      var itemLoc, itemPath, known := Place(title.value, attribs, replace, order);
      p, loc := itemPath, itemLoc;
      if itemLoc.key == "" {
        return;
      }
      KindMeans(attribs, mime);
      NewParamsMean(mime, now, attribs);
      Describe(itemLoc, itemPath, mime, now, attribs);
      if Agree(s) {
        if !known {
          FreeMeansFree(title.value, Reachable(), loc);
        }
        CreatedAgrees(s, p, loc, NewParams(mime, now, attribs), Secret(KindOf(attribs, mime), value), known, handle >= 0);
      }
      var ok := StoreSecret(itemLoc, attribs, mime, sessionFound, validUtf8, value);
      if ok {
        events := events + [ItemCreated(itemPath)];
        path := Some(itemPath);
      }
    }

    // The attributes and the item, before there is an entry.
    method Describe(loc: EntryLocation, p: ItemPath, mime: string, now: string, attribs: Strings)
      requires Valid() && p.number < itemCounter
      modifies this`items, this`events, attributes
      ensures Valid() && View() == HalfCreated(old(View()), p, loc, NewParams(mime, now, attribs))
      ensures events == if p in old(items) then old(events) + [ItemChanged(p)] else old(events)
    {
      hide FromEntryLocation, LocationText;
      attributes.NewItem(loc);
      attributes.SetParam(loc, KEY_MIME, mime);
      attributes.SetParam(loc, KEY_CREATED, now);
      attributes.SetParam(loc, KEY_MODIFIED, now);
      attributes.SetAttributes(loc, attribs);
      NewParamsSet(old(attributes.params), loc, mime, now, attribs);
      PushNewItem(FromEntryLocation(loc), p);
    }

    method StoreSecret(loc: EntryLocation, attribs: Strings, mime: string, sessionFound: bool, validUtf8: bool, value: seq<bv8>)
      returns (ok: bool)
      modifies this`wallet
      ensures
        var kind :=
          if "type" in attribs && attribs["type"] == "map" then 3
          else if ("xdg:schema" in attribs && attribs["xdg:schema"] == "org.kde.KWallet.Password") || "text/" <= mime then 1
          else 2;
        && ok == (sessionFound && (kind == 1 ==> validUtf8))
        && wallet == if ok && handle >= 0 then Written(old(wallet), loc, Secret(kind, value)) else old(wallet)
    {
      if !sessionFound {
        return false;
      }
      if "type" in attribs && attribs["type"] == "map" {
        WriteEntry(loc, Secret(KIND_MAP, value));
      } else if ("xdg:schema" in attribs && attribs["xdg:schema"] == "org.kde.KWallet.Password") || "text/" <= mime {
        if !validUtf8 {
          return false;
        }
        WriteEntry(loc, Secret(KIND_PASSWORD, value));
      } else {
        WriteEntry(loc, Secret(KIND_STREAM, value));
      }
      ok := true;
    }

    // Where the item goes: to the item of the first match, or to a new path and a free location. In
    // agreeing stores every match has an item.
    method Place(title: string, attribs: Strings, replace: bool, order: seq<string>)
      returns (loc: EntryLocation, p: ItemPath, known: bool)
      requires Valid() && Lists(order, attributes.params)
      modifies this`itemCounter
      ensures Valid() && p.number < itemCounter
      ensures known == (replace && Replaceable(items, FirstMatch(attributes.params, attribs, order)))
      ensures Placed(items, Reachable(), title, known, FirstMatch(attributes.params, attribs, order), p, loc)
      ensures Agree(View()) ==>
        && known == (replace && exists t :: t in attributes.params && Matching(attributes.params[t].attributes, attribs))
        && (known ==> Has(wallet, loc) && LocationText(loc) in attributes.params
                      && Matching(attributes.params[LocationText(loc)].attributes, attribs))
    {
      hide FromEntryLocation, FromUniqueLabel, Agree, Good, Canonical, Matching, Has, FreeFor, SplitLocation, LocationText, Lists,
           FirstMatch, Replaceable;
      known := false;
      if replace {
        var item;
        item, loc := MatchedItem(attribs, order);
        if item.Some? {
          known, p := true, item.value;
        }
      }
      if !known {
        loc := MakeUniqueLocation(title);
        p := NextItemPath();
      }
      if Agree(View()) {
        hide Placed;
        AgreeingMatch(View(), attribs, order);
      }
    }

    // The item of the first match.
    method MatchedItem(attribs: Strings, order: seq<string>) returns (item: Option<ItemPath>, loc: EntryLocation)
      requires Lists(order, attributes.params)
      ensures item.Some? <==> Replaceable(items, FirstMatch(attributes.params, attribs, order))
      ensures item.Some? ==>
        FirstMatch(attributes.params, attribs, order) == Some(loc) && item.value in items && items[item.value] == FromEntryLocation(loc)
    {
      hide FromEntryLocation, SplitLocation, Matching, MatchesIn, Lists;
      var matchedItems := attributes.MatchAttributes(attribs, order);
      item, loc := None, EntryLocation("", "");
      if matchedItems != [] {
        loc := matchedItems[0];
        item := FindItemByEntryLocation(loc);
        if loc == EntryLocation("", "") {
          item := None;
        }
      }
    }

    // The signal that the wallet sends back deletes the item, so in agreeing stores it is announced
    // once. Otherwise the signal may take away another item with that label.
    method Delete(p: ItemPath) returns (ghost gone: Option<ItemPath>)
      requires p in items
      modifies this`wallet, this`items, this`events, attributes
      ensures wallet == (if handle >= 0 then Deleted(old(View()), p).wallet else old(wallet))
      ensures gone.None? || gone.value == p ==>
        && View() == Deleted(old(View()), p).(wallet := wallet) && events == old(events) + [ItemDeleted(p)]
      ensures gone.Some? && gone.value != p ==>
        && gone.value in old(items) && old(items)[gone.value] == FromEntryLocation(FromUniqueLabel(old(items)[p]))
        && items == old(items) - {gone.value, p} && events == old(events) + [ItemDeleted(gone.value), ItemDeleted(p)]
        && attributes.params == old(attributes.params) - {LocationText(FromUniqueLabel(old(items)[gone.value])),
                                                          LocationText(FromUniqueLabel(old(items)[p]))}
      ensures Agree(old(View())) ==> (gone.None? || gone.value == p) && (Agree(View()) <==> handle >= 0)
    {
      hide FromEntryLocation, FromUniqueLabel, Agree, Good, LocationText, Canonical;
      ghost var s := View();
      var loc := FromUniqueLabel(items[p]);
      gone := RemoveEntry(loc.folder, loc.key);
      if Agree(s) {
        EntryOfItem(s, p);
        if gone.Some? {
          OneItem(s, gone.value, p);
        }
        DeleteAgrees(s, p);
        LockedDeleteDisagrees(s, p);
      }
      OnItemDeleted(p);
    }
  }

  // What the wallet's signal about a moved entry makes of the item it hits.
  function EchoOf(hit: Option<ItemPath>, loc: EntryLocation, to: EntryLocation): seq<Event>
  {
    if hit.None? then [] else if to.folder != loc.folder then [ItemDeleted(hit.value)] else [ItemChanged(hit.value)]
  }

  // The first match has an item, and a location that is more than two empty names.
  predicate Replaceable(items: ItemMap, first: Option<EntryLocation>)
  {
    first.Some? && first.value != EntryLocation("", "") && FromEntryLocation(first.value) in items.Values
  }

  ghost predicate Placed(items: ItemMap, reachable: WalletMap, title: string, known: bool, first: Option<EntryLocation>,
                         p: ItemPath, loc: EntryLocation)
  {
    && (known ==> first == Some(loc) && p in items && items[p] == FromEntryLocation(loc))
    && (!known ==> p !in items && FreeFor(title, reachable, loc))
  }

  lemma FreeMeansFree(title: string, wallet: WalletMap, loc: EntryLocation)
    requires FreeFor(title, wallet, loc)
    ensures !Has(wallet, loc)
  {
  }

  lemma NoNameNotCanonical()
    ensures !Canonical(EntryLocation("", ""))
  {
    assert FromName("") == FdoUniqueLabel("", -1);
  }

  // In agreeing stores attributes are stored for entries, which have items.
  lemma AgreeingMatch(s: Stores, attribs: Strings, order: seq<string>)
    requires Agree(s) && Lists(order, s.params)
    ensures
      var first := FirstMatch(s.params, attribs, order);
      && (first.Some? <==> exists t :: t in s.params && Matching(s.params[t].attributes, attribs))
      && (first.Some? ==> Replaceable(s.items, first) && Has(s.wallet, first.value)
                          && LocationText(first.value) in s.params
                          && Matching(s.params[LocationText(first.value)].attributes, attribs))
  {
    hide FromEntryLocation, FromUniqueLabel, Matching, SplitLocation, LocationText, Has, Good, Canonical, MatchesIn;
    MatchesInExact(s.params, attribs, order);
    var found := MatchesIn(s.params, attribs, order);
    if t :| t in s.params && Matching(s.params[t].attributes, attribs) {
      assert t in order && SplitLocation(t) in found;
    }
    if found != [] {
      assert found[0] in found;
      var t :| t in order && Matching(s.params[t].attributes, attribs) && SplitLocation(t) == found[0];
      var p := EntryItem(s, found[0]);
      if found[0] == EntryLocation("", "") {
        NoNameNotCanonical();
      }
    }
  }

  // In agreeing stores no other item has the label that item p has just given up.
  lemma LabelGivenUp(s: Stores, p: ItemPath, u: FdoUniqueLabel)
    requires Agree(s) && p in s.items && FromUniqueLabel(u) != FromUniqueLabel(s.items[p])
    ensures FromEntryLocation(FromUniqueLabel(s.items[p])) !in s.items[p := u].Values
  {
    hide FromEntryLocation, FromUniqueLabel, Has;
    var given := s.items[p];
    if given in s.items[p := u].Values {
      var q := KeyOf(s.items[p := u], given);
    }
  }

  lemma NewParamsSet(params: ParamMap, loc: EntryLocation, mime: string, now: string, attribs: Strings)
    ensures
      var p0 := params[LocationText(loc) := Params(map[], map[])];
      var p1 := WithParam(WithParam(WithParam(p0, loc, KEY_MIME, mime), loc, KEY_CREATED, now), loc, KEY_MODIFIED, now);
      WithAttributes(p1, loc, attribs) == params[LocationText(loc) := NewParams(mime, now, attribs)]
  {
    hide LocationText;
    assert map[][KEY_MIME := mime][KEY_CREATED := now][KEY_MODIFIED := now]
        == map[KEY_MIME := mime, KEY_CREATED := now, KEY_MODIFIED := now];
  }

  lemma CreatedAgrees(s: Stores, p: ItemPath, loc: EntryLocation, ps: Params, e: Secret, replaced: bool, unlocked: bool)
    requires Agree(s)
    requires if replaced then p in s.items && s.items[p] == FromEntryLocation(loc) && Has(s.wallet, loc)
             else p !in s.items && (unlocked ==> !Has(s.wallet, loc))
    ensures unlocked ==> (Agree(Created(s, p, loc, ps, e)) <==> replaced || Canonical(loc))
    ensures Agree(HalfCreated(s, p, loc, ps)) <==> replaced
  {
    hide FromEntryLocation, FromUniqueLabel, Agree, Good, Canonical, Has, LocationText, Created, HalfCreated;
    if replaced {
      ReplaceAgrees(s, p, loc, ps, e);
    } else {
      HalfCreatedDisagrees(s, p, loc, ps);
      if unlocked {
        CreateAgrees(s, p, loc, ps, e);
      }
    }
  }

  lemma GoodLabel(loc: EntryLocation)
    requires Canonical(loc)
    ensures FromUniqueLabel(FromEntryLocation(loc)) == loc && Good(FromEntryLocation(loc))
  {
    hide FromEntryLocation, FromUniqueLabel, Canonical;
    LocationRoundTrip(loc);
  }

  lemma LabelThere(s: Stores, loc: EntryLocation)
    requires Agree(s) && Has(s.wallet, loc)
    ensures FromEntryLocation(loc) in s.items.Values
  {
    hide FromEntryLocation, FromUniqueLabel, Agree, Has;
    var p := EntryItem(s, loc);
  }

  // Only the item of another entry, which has the label of a location that is not canonical, is missed.
  lemma RemovedAgrees(s: Stores, loc: EntryLocation, gone: Option<ItemPath>)
    requires Agree(s)
    requires gone.None? ==> FromEntryLocation(loc) !in s.items.Values
    requires gone.Some? ==> gone.value in s.items && s.items[gone.value] == FromEntryLocation(loc)
    ensures gone.None? ==> Agree(s.(wallet := Removed(s.wallet, loc)))
    ensures gone.Some? ==>
      var s' := Stores(s.items - {gone.value}, s.params - {LocationText(FromUniqueLabel(s.items[gone.value]))}, Removed(s.wallet, loc));
      Agree(s') <==> Canonical(loc)
  {
    hide FromEntryLocation, FromUniqueLabel, Agree, Canonical, Has, Removed, LocationText;
    forall l ensures Has(Removed(s.wallet, loc), l) <==> Has(s.wallet, l) && l != loc {
      HasRemoved(s.wallet, loc, l);
    }
    if gone.None? {
      if Has(s.wallet, loc) {
        LabelThere(s, loc);
      }
      SameAgrees(s, s.(wallet := Removed(s.wallet, loc)));
    } else if Canonical(loc) {
      GoodLabel(loc);
      DeleteAgrees(s, gone.value);
    } else {
      ItemMissed(s, loc, gone.value);
    }
  }

  lemma ItemMissed(s: Stores, loc: EntryLocation, p: ItemPath)
    requires Agree(s) && p in s.items && s.items[p] == FromEntryLocation(loc) && !Canonical(loc)
    ensures !Agree(Stores(s.items - {p}, s.params - {LocationText(FromUniqueLabel(s.items[p]))}, Removed(s.wallet, loc)))
  {
    hide FromEntryLocation, FromUniqueLabel, Agree, Canonical, Has, Removed, LocationText, Good;
    var s' := Stores(s.items - {p}, s.params - {LocationText(FromUniqueLabel(s.items[p]))}, Removed(s.wallet, loc));
    var mine := FromUniqueLabel(s.items[p]);
    ItemsEntry(s, p);
    if Has(s.wallet, loc) {
      var q := EntryItem(s, loc);
    }
    HasRemoved(s.wallet, loc, mine);
    if Agree(s') {
      var q := EntryItem(s', mine);
      AgreeApart(s);
    }
  }

  lemma RenamedAgrees(s: Stores, loc: EntryLocation, newName: string, followed: Option<ItemPath>)
    requires Agree(s)
    requires followed.None? ==> FromEntryLocation(loc) !in s.items.Values
    requires followed.Some? ==> followed.value in s.items && s.items[followed.value] == FromEntryLocation(loc)
    ensures
      var to := EntryLocation(loc.folder, newName);
      var s' := if followed.None? then s.(wallet := Renamed(s.wallet, loc.folder, loc.key, newName))
                else FollowedRename(s, followed.value, loc, newName);
      Agree(s') <==>
        if Has(s.wallet, loc) then to == loc || (!Has(s.wallet, to) && Canonical(to))
        else followed.None? || (FromEntryLocation(to) == FromEntryLocation(loc) && (to == loc || LocationText(loc) !in s.params))
  {
    hide FromEntryLocation, FromUniqueLabel, Agree, Canonical, Has, Renamed, LocationText, FollowedRename;
    if Has(s.wallet, loc) {
      LabelThere(s, loc);
      FollowedRenameAgrees(s, followed.value, loc, newName);
    } else if followed.Some? {
      FollowedMissing(s, followed.value, loc, newName);
    } else {
      forall l ensures Has(Renamed(s.wallet, loc.folder, loc.key, newName), l) <==> Has(s.wallet, l) {
        HasRenamedMissing(s.wallet, loc, newName, l);
      }
      SameAgrees(s, s.(wallet := Renamed(s.wallet, loc.folder, loc.key, newName)));
    }
  }

  lemma EntryOfItem(s: Stores, p: ItemPath)
    requires Agree(s) && p in s.items
    ensures Has(s.wallet, FromUniqueLabel(s.items[p])) && FromEntryLocation(FromUniqueLabel(s.items[p])) == s.items[p]
    ensures s.items[p] in s.items.Values
  {
  }

  lemma OneItem(s: Stores, p: ItemPath, q: ItemPath)
    requires Agree(s) && p in s.items && q in s.items && s.items[p] == s.items[q]
    ensures p == q
  {
  }

  ghost predicate AllCanonical(wallet: WalletMap)
  {
    forall loc :: Has(wallet, loc) ==> Canonical(loc)
  }

  // ---- The signals sent while unlocking ----

  ghost predicate Once(visited: seq<EntryLocation>)
  {
    forall i, j :: 0 <= i < j < |visited| ==> visited[i] != visited[j]
  }

  function LabelsOf(visited: seq<EntryLocation>): set<FdoUniqueLabel>
  {
    set loc | loc in visited :: FromEntryLocation(loc)
  }

  // One signal for each location visited, about the item that has its label.
  ghost predicate Announced(before: ItemMap, items: ItemMap, visited: seq<EntryLocation>, es: seq<Event>)
  {
    && |es| == |visited| && items.Values == before.Values + LabelsOf(visited)
    && (forall p :: p in before ==> p in items && items[p] == before[p])
    && forall i :: 0 <= i < |es| ==> AnnouncedAt(before, items, visited, es[i], i)
  }

  // An item was made for it unless one had the label before, or got it for another location on the way.
  ghost predicate AnnouncedAt(before: ItemMap, items: ItemMap, visited: seq<EntryLocation>, e: Event, i: nat)
    requires i < |visited|
  {
    var u := FromEntryLocation(visited[i]);
    && e.path in items && items[e.path] == u
    && if u in before.Values || u in LabelsOf(visited[..i]) then e.ItemChanged? else e.ItemCreated?
  }

  lemma NothingVisited(wallet: WalletMap, items: ItemMap)
    ensures Announced(items, items, [], []) && Visited(wallet, wallet.Keys, [])
  {
  }

  lemma CreatedAnnounced(before: ItemMap, items: ItemMap, loc: EntryLocation, p: ItemPath)
    requires p !in before && items == before[p := FromEntryLocation(loc)] && FromEntryLocation(loc) !in before.Values
    ensures Announced(before, items, [loc], [ItemCreated(p)])
  {
    hide FromEntryLocation;
    KeepsLabels(before, p, FromEntryLocation(loc));
    assert LabelsOf([loc]) == {FromEntryLocation(loc)} && LabelsOf([loc][..0]) == {};
    assert AnnouncedAt(before, items, [loc], ItemCreated(p), 0);
  }

  lemma ChangedAnnounced(items: ItemMap, loc: EntryLocation, p: ItemPath)
    requires p in items && items[p] == FromEntryLocation(loc)
    ensures Announced(items, items, [loc], [ItemChanged(p)])
  {
    hide FromEntryLocation;
    assert LabelsOf([loc]) == {FromEntryLocation(loc)};
    assert AnnouncedAt(items, items, [loc], ItemChanged(p), 0);
  }

  lemma AnnouncedJoin(before: ItemMap, mid: ItemMap, items: ItemMap, v1: seq<EntryLocation>, v2: seq<EntryLocation>,
                      e0: seq<Event>, e1: seq<Event>, e2: seq<Event>)
    requires e0 <= e1 <= e2
    requires Announced(before, mid, v1, e1[|e0|..]) && Announced(mid, items, v2, e2[|e1|..])
    ensures Announced(before, items, v1 + v2, e2[|e0|..])
  {
    hide FromEntryLocation;
    var a, b, es := e1[|e0|..], e2[|e1|..], e2[|e0|..];
    assert es == a + b;
    hide LabelsOf;
    LabelsJoin(v1, v2);
    forall i | 0 <= i < |es| ensures AnnouncedAt(before, items, v1 + v2, es[i], i) {
      if i < |a| {
        assert AnnouncedAt(before, mid, v1, a[i], i);
        assert (v1 + v2)[..i] == v1[..i];
      } else {
        var k := i - |a|;
        assert AnnouncedAt(mid, items, v2, b[k], k);
        LabelsJoin(v1, v2[..k]);
        assert (v1 + v2)[..i] == v1 + v2[..k];
      }
    }
  }

  lemma LabelsJoin(a: seq<EntryLocation>, b: seq<EntryLocation>)
    ensures LabelsOf(a + b) == LabelsOf(a) + LabelsOf(b)
  {
    hide FromEntryLocation;
  }

  // The entries visited are those of the folders that are done.
  ghost predicate Visited(wallet: WalletMap, left: set<string>, visited: seq<EntryLocation>)
  {
    Once(visited) && forall loc :: loc in visited <==> Has(wallet, loc) && loc.folder !in left
  }

  ghost predicate VisitedIn(folder: string, keys: set<string>, visited: seq<EntryLocation>)
  {
    Once(visited) && forall loc :: loc in visited <==> loc.folder == folder && loc.key in keys
  }

  lemma NoKeyVisited(folder: string)
    ensures VisitedIn(folder, {}, [])
  {
  }

  lemma VisitedOneKey(folder: string, keys: set<string>, visited: seq<EntryLocation>, key: string)
    requires VisitedIn(folder, keys, visited) && key !in keys
    ensures VisitedIn(folder, keys + {key}, visited + [EntryLocation(folder, key)])
  {
    OnceJoin(visited, [EntryLocation(folder, key)]);
    hide Once;
  }

  lemma VisitedOneFolder(wallet: WalletMap, left: set<string>, visited: seq<EntryLocation>, folder: string, more: seq<EntryLocation>)
    requires Visited(wallet, left, visited) && folder in left && folder in wallet && VisitedIn(folder, wallet[folder].Keys, more)
    ensures Visited(wallet, left - {folder}, visited + more)
  {
    OnceJoin(visited, more);
    hide Once;
  }

  lemma VisitedAll(wallet: WalletMap, visited: seq<EntryLocation>)
    requires Visited(wallet, {}, visited)
    ensures Once(visited) && forall loc :: loc in visited <==> Has(wallet, loc)
  {
  }

  lemma OnceJoin(a: seq<EntryLocation>, b: seq<EntryLocation>)
    requires Once(a) && Once(b) && forall loc :: loc in a ==> loc !in b
    ensures Once(a + b)
  {
    forall i, j | 0 <= i < j < |a + b| ensures (a + b)[i] != (a + b)[j] {
      if i < |a| && j >= |a| {
        assert (a + b)[i] in a && (a + b)[j] in b;
      }
    }
  }

  // ---- Unlocking entry by entry ----

  // What unlocking entries leaves: more items, and more attributes, for entries that had none.
  ghost predicate Grown(s: Stores, s': Stores, now: string)
  {
    Half(s') && s'.wallet == s.wallet && Described(s, s', now) && forall l :: Covered(s.items, l) ==> Covered(s'.items, l)
  }

  lemma GrownSame(s: Stores, now: string)
    requires Half(s)
    ensures Grown(s, s, now)
  {
    hide Half, Covered;
  }

  lemma GrownHalf(s: Stores, s': Stores, now: string)
    requires Grown(s, s', now)
    ensures Half(s') && s'.wallet == s.wallet
  {
    hide Half, Described, Covered;
  }

  lemma GrownThen(s: Stores, s1: Stores, s2: Stores, now: string)
    requires Grown(s, s1, now) && Grown(s1, s2, now)
    ensures Grown(s, s2, now)
  {
    hide Half, Covered, SplitLocation, FoundParams, Has;
  }

  lemma GrownCovers(s: Stores, s': Stores, now: string)
    requires Grown(s, s', now)
    ensures forall l :: Covered(s.items, l) ==> Covered(s'.items, l)
  {
    hide Half, Covered, Described;
  }

  ghost predicate InFoldersDone(wallet: WalletMap, left: set<string>, items: ItemMap)
  {
    forall folder, key :: folder in wallet && folder !in left && key in wallet[folder] ==>
      FromEntryLocation(EntryLocation(folder, key)) in items.Values
  }

  ghost predicate CoveredDone(wallet: WalletMap, left: set<string>, items: ItemMap)
  {
    forall loc :: Has(wallet, loc) && loc.folder !in left ==> Covered(items, loc)
  }

  lemma LabelledOneFolder(s: Stores, items: ItemMap, folder: string, left: set<string>)
    requires InFoldersDone(s.wallet, left, s.items) && folder in s.wallet
    requires forall key :: key in s.wallet[folder] ==> FromEntryLocation(EntryLocation(folder, key)) in items.Values
    requires forall u :: u in s.items.Values ==> u in items.Values
    ensures InFoldersDone(s.wallet, left - {folder}, items)
  {
    hide FromEntryLocation;
  }

  lemma CoveredOneFolder(s: Stores, s': Stores, folder: string, left: set<string>, now: string)
    requires CoveredDone(s.wallet, left, s.items) && folder in s.wallet && Grown(s, s', now)
    requires forall key :: key in s.wallet[folder] ==> Covered(s'.items, EntryLocation(folder, key))
    ensures CoveredDone(s.wallet, left - {folder}, s'.items)
  {
    hide Half, Covered, Described;
    forall loc | Has(s.wallet, loc) && loc.folder !in left - {folder} ensures Covered(s'.items, loc) {
      if loc.folder == folder {
        assert loc == EntryLocation(folder, loc.key);
      }
    }
  }

  lemma NoneDone(wallet: WalletMap, items: ItemMap)
    ensures CoveredDone(wallet, wallet.Keys, items)
  {
  }

  lemma HasFolder(wallet: WalletMap, loc: EntryLocation)
    requires Has(wallet, loc)
    ensures loc.folder in wallet && loc.key in wallet[loc.folder] && loc == EntryLocation(loc.folder, loc.key)
  {
  }

  lemma SetAgain(params: ParamMap, loc: EntryLocation, ps: Params)
    ensures WithAttributes(params[LocationText(loc) := ps], loc, ps.attributes) == params[LocationText(loc) := ps]
  {
    hide LocationText;
  }

  lemma FoundParamsSet(params: ParamMap, loc: EntryLocation, kind: int, now: string)
    ensures
      var ps := FoundParams(loc, kind, now);
      var p0 := params[LocationText(loc) := Params(map[], map[])];
      var p1 := WithParam(WithParam(p0, loc, KEY_CREATED, now), loc, KEY_MODIFIED, now);
      WithAttributes(p1, loc, ps.attributes) == params[LocationText(loc) := ps]
  {
    hide LocationText;
    assert map[][KEY_CREATED := now][KEY_MODIFIED := now] == map[KEY_CREATED := now, KEY_MODIFIED := now];
  }

  // There were no attributes for an entry without an item.
  lemma DescribedOne(s: Stores, s': Stores, loc: EntryLocation, now: string)
    requires Half(s) && Has(s.wallet, loc) && Canonical(loc) && FromEntryLocation(loc) !in s.items.Values
    requires s'.params == s.params[LocationText(loc) := FoundParams(loc, Get(s.wallet, loc).kind, now)]
    ensures Described(s, s', now)
  {
    hide FromEntryLocation, FromUniqueLabel, Canonical, LocationText, SplitLocation, Has, Good, FoundParams, Covered;
    LocationRoundTrip(loc);
    GoodFrom(loc);
    GoodCanonical(FromEntryLocation(loc));
    NotCovered(s.items, loc);
  }

  lemma ThatItem(items: ItemMap, p: ItemPath)
    requires p in items
    ensures Covered(items, FromUniqueLabel(items[p]))
  {
  }

  ghost predicate OnFile(stored: ParamMap, w: WalletMap)
  {
    forall t :: t in stored ==>
      LocationText(SplitLocation(t)) == t && Canonical(SplitLocation(t)) && Has(w, SplitLocation(t))
  }

  // While the file is gone through.
  ghost predicate Listed(s: Stores)
  {
    && ItemsNameEntries(s) && ItemsApart(s.items)
    && forall p :: p in s.items ==> LocationText(FromUniqueLabel(s.items[p])) in s.params
  }

  lemma ListedOneMore(s: Stores, p: ItemPath, t: string)
    requires OnFile(s.params, s.wallet) && Listed(s) && p !in s.items && t in s.params
    requires FromEntryLocation(SplitLocation(t)) !in s.items.Values
    ensures Listed(s.(items := s.items[p := FromEntryLocation(SplitLocation(t))]))
  {
    hide FromEntryLocation, FromUniqueLabel, SplitLocation, LocationText, Has, Canonical;
    LocationRoundTrip(SplitLocation(t));
  }

  lemma ListedAll(s: Stores)
    requires OnFile(s.params, s.wallet) && Listed(s)
    requires forall t :: t in s.params ==> FromEntryLocation(SplitLocation(t)) in s.items.Values
    ensures Half(s)
  {
    hide FromEntryLocation, FromUniqueLabel, SplitLocation, LocationText, Has, Canonical;
    forall t | t in s.params ensures Covered(s.items, SplitLocation(t)) {
      var p := KeyOf(s.items, FromEntryLocation(SplitLocation(t)));
      LocationRoundTrip(SplitLocation(t));
    }
  }

  lemma KeepsLabels(items: ItemMap, p: ItemPath, u: FdoUniqueLabel)
    requires p !in items
    ensures u in items[p := u].Values && forall v :: v in items.Values ==> v in items[p := u].Values
  {
    assert items[p := u][p] == u;
    forall v | v in items.Values ensures v in items[p := u].Values {
      var q := KeyOf(items, v);
      assert items[p := u][q] == v;
    }
  }

  lemma FirstFreeTaken(title: string, wallet: WalletMap, taken: set<string>, k: nat)
    requires taken == if FolderAndName(title).0 in wallet then wallet[FolderAndName(title).0].Keys else {}
    requires FirstFree((k: nat) => NumberedName(FolderAndName(title).1, k), taken, k)
    ensures TakenBelow(title, wallet, k)
  {
    forall i: nat | i < k ensures Has(wallet, EntryLocation(FolderAndName(title).0, NumberedName(FolderAndName(title).1, i))) {
      var c := (k: nat) => NumberedName(FolderAndName(title).1, k);
      assert c(i) in taken;
    }
  }

  // ---- A label with a leading zero in its copy number ----

  function TwoItems(v: Secret, w: Secret): Stores
  {
    Stores(map[ItemPath(0) := FdoUniqueLabel("x", -1), ItemPath(1) := FdoUniqueLabel("F/a", 7)],
           map["Secret Service/x" := Params(map[], map[]), "F/a__7_" := Params(map[], map[])],
           map["Secret Service" := map["x" := v], "F" := map["a__7_" := w]])
  }

  lemma LabelsRead()
    ensures FromEntryLocation(EntryLocation("F", "a__007_")) == FdoUniqueLabel("F/a", 7)
    ensures FromEntryLocation(EntryLocation("F", "a__7_")) == FdoUniqueLabel("F/a", 7)
    ensures FromUniqueLabel(FdoUniqueLabel("F/a", 7)) == EntryLocation("F", "a__7_")
    ensures FromEntryLocation(EntryLocation("Secret Service", "x")) == FdoUniqueLabel("x", -1)
    ensures FromUniqueLabel(FdoUniqueLabel("x", -1)) == EntryLocation("Secret Service", "x")
  {
    hide FromName, SlashPos, Print;
    NamesRead();
    assert "F" + "/" + "a" == "F/a";
    assert SlashPos("F/a") == 1 && "F/a"[..1] == "F" && "F/a"[2..] == "a" by {
      SlashPosUnique("F/a", 1);
    }
    XIsPlain();
  }

  lemma NamesRead()
    ensures FromName("a__007_") == FdoUniqueLabel("a", 7) && FromName("a__7_") == FdoUniqueLabel("a", 7)
    ensures Print(7) == "7"
  {
    hide MatchAll, Value;
    MatchAllCorrect("a__007_", "a", "007");
    MatchAllCorrect("a__7_", "a", "7");
    SevenRead();
  }

  lemma SevenRead()
    ensures Value("007") == 7 && Value("7") == 7
  {
    assert "007"[..2] == "00" && "00"[..1] == "0" && "0"[..0] == "" && "7"[..0] == "";
    assert Value("0") == 0 && Value("00") == 0;
  }

  lemma XIsPlain()
    ensures FromName("x") == FdoUniqueLabel("x", -1) && SlashPos("x") == -1
  {
  }

  // The two stores agree, and the new label gets a free location; but its copy number is read as 7, so
  // the label names the location of the other item.
  lemma LeadingZeroTaken(v: Secret, w: Secret)
    ensures Agree(TwoItems(v, w))
    ensures FreeFor("F/a__007_", TwoItems(v, w).wallet, EntryLocation("F", "a__007_"))
    ensures FromUniqueLabel(FromEntryLocation(EntryLocation("F", "a__007_"))) == EntryLocation("F", "a__7_")
    ensures Has(TwoItems(v, w).wallet, EntryLocation("F", "a__7_"))
    ensures !Has(TwoItems(v, w).wallet, EntryLocation("F", "a__007_")) && !Canonical(EntryLocation("F", "a__007_"))
    ensures TwoItems(v, w).items[ItemPath(1)] == FromEntryLocation(EntryLocation("F", "a__007_"))
  {
    hide FromEntryLocation, FromUniqueLabel, FolderAndName, NumberedName, Agree, FreeFor, Canonical;
    LocationRoundTrip(EntryLocation("F", "a__007_"));
    LabelsRead();
    TwoItemsAgree(v, w);
    NewLabelFree(v, w);
  }

  lemma TwoItemsAgree(v: Secret, w: Secret)
    ensures Agree(TwoItems(v, w))
  {
    hide FromEntryLocation, FromUniqueLabel, SplitLocation, LocationText;
    LabelsRead();
    var s := TwoItems(v, w);
    assert forall loc :: Has(s.wallet, loc) ==> loc == EntryLocation("Secret Service", "x") || loc == EntryLocation("F", "a__7_");
    assert ItemPath(0) in s.items && ItemPath(1) in s.items;
    TextsOfTwo();
  }

  lemma TextsOfTwo()
    ensures LocationText(EntryLocation("Secret Service", "x")) == "Secret Service/x"
    ensures LocationText(EntryLocation("F", "a__7_")) == "F/a__7_"
    ensures SplitLocation("Secret Service/x") == EntryLocation("Secret Service", "x")
    ensures SplitLocation("F/a__7_") == EntryLocation("F", "a__7_")
  {
    hide SplitLocation;
    SplitOfText(EntryLocation("Secret Service", "x"));
    SplitOfText(EntryLocation("F", "a__7_"));
    assert "Secret Service" + "/" + "x" == "Secret Service/x";
    assert "F" + "/" + "a__7_" == "F/a__7_";
  }

  lemma NewLabelFree(v: Secret, w: Secret)
    ensures FreeFor("F/a__007_", TwoItems(v, w).wallet, EntryLocation("F", "a__007_"))
  {
    hide FolderAndName, FreeFor;
    TitleParts();
    FirstChoice("F/a__007_", TwoItems(v, w).wallet, EntryLocation("F", "a__007_"));
  }

  lemma TitleParts()
    ensures FolderAndName("F/a__007_") == ("F", "a__007_")
  {
    var t := "F/a__007_";
    SlashPosUnique(t, 1);
    hide SlashPos;
    assert t[..1] == "F" && t[2..] == "a__007_";
  }

  // The location that a title names is taken when it is free.
  lemma FirstChoice(title: string, wallet: WalletMap, loc: EntryLocation)
    requires FolderAndName(title) == (loc.folder, loc.key) && !Has(wallet, loc)
    ensures FreeFor(title, wallet, loc)
  {
    hide FolderAndName, Has;
    assert loc.key == NumberedName(loc.key, 0) && TakenBelow(title, wallet, 0);
  }
}
