/** KWalletFreedesktopAttributes: what is stored about each item, under its location. */
module Attributes {
  import opened Labels

  type Strings = map<string, string>

  // What is stored for one item. An item without attributes has an empty map of them.
  datatype Params = Params(fields: Strings, attributes: Strings)

  type ParamMap = map<string, Params>

  const KEY_MIME: string := "$fdo_mime_type"
  const KEY_CREATED: string := "$fdo_created"
  const KEY_MODIFIED: string := "$fdo_modified"

  // entryLocationToStr()
  function LocationText(loc: EntryLocation): string
  {
    loc.folder + "/" + loc.key
  }

  // splitToEntryLocation()
  function SplitLocation(s: string): EntryLocation
  {
    var p := SlashPos(s);
    if p == -1 then EntryLocation("", "") else EntryLocation(s[..p], s[p + 1..])
  }

  // The text of a location gives the location back exactly when its folder has no slash.
  lemma SplitOfText(loc: EntryLocation)
    ensures SplitLocation(LocationText(loc)) == loc <==> '/' !in loc.folder
  {
    var s := LocationText(loc);
    if '/' in loc.folder {
      var p := SlashPos(loc.folder);
      assert s[..p] == loc.folder[..p];
      SlashPosUnique(s, p);
    } else {
      assert s[..|loc.folder|] == loc.folder;
      SlashPosUnique(s, |loc.folder|);
    }
  }

  // A text gives the text back exactly when it has a slash; one without names two empty names.
  lemma TextOfSplit(s: string)
    ensures LocationText(SplitLocation(s)) == s <==> '/' in s
    ensures '/' !in s ==> SplitLocation(s) == EntryLocation("", "")
  {
    var p := SlashPos(s);
    if p != -1 {
      assert s == s[..p] + "/" + s[p + 1..];
    } else {
      assert LocationText(SplitLocation(s))[0] == '/';
    }
  }

  // Every attribute asked for is there with that value. An item without attributes matches nothing.
  predicate Matching(attributes: Strings, query: Strings)
  {
    attributes != map[] && forall k :: k in query ==> k in attributes && attributes[k] == query[k]
  }

  lemma MatchingMeans(attributes: Strings, query: Strings)
    ensures Matching(attributes, query) <==> |attributes| > 0 && query.Items <= attributes.Items
  {
    if |attributes| > 0 && query.Items <= attributes.Items {
      forall k | k in query ensures k in attributes && attributes[k] == query[k] {
        assert (k, query[k]) in query.Items;
      }
    }
  }

  // An order of all texts under which something is stored: that in which the JSON object is gone through.
  ghost predicate Lists(order: seq<string>, params: ParamMap)
  {
    && (forall t :: t in order <==> t in params)
    && (forall i, j :: 0 <= i < j < |order| ==> order[i] != order[j])
  }

  // The locations whose attributes match, in that order.
  function MatchesIn(params: ParamMap, query: Strings, order: seq<string>): seq<EntryLocation>
    requires forall t :: t in order ==> t in params
  {
    if order == [] then []
    else
      var t := order[|order| - 1];
      MatchesIn(params, query, order[..|order| - 1]) + (if Matching(params[t].attributes, query) then [SplitLocation(t)] else [])
  }

  lemma NoMatchesIn(params: ParamMap, query: Strings)
    ensures MatchesIn(params, query, []) == []
  {
  }

  lemma MatchesOneMore(params: ParamMap, query: Strings, order: seq<string>, i: nat)
    requires (forall t :: t in order ==> t in params) && i < |order|
    ensures MatchesIn(params, query, order[..i + 1]) ==
              MatchesIn(params, query, order[..i])
              + (if Matching(params[order[i]].attributes, query) then [SplitLocation(order[i])] else [])
  {
    hide Matching, SplitLocation;
    assert order[..i + 1][..i] == order[..i];
  }

  // The matches come in the order of the texts, one for each.
  lemma {:induction false} MatchesJoin(params: ParamMap, query: Strings, order: seq<string>, more: seq<string>)
    requires (forall t :: t in order ==> t in params) && (forall t :: t in more ==> t in params)
    ensures MatchesIn(params, query, order + more) == MatchesIn(params, query, order) + MatchesIn(params, query, more)
  {
    NoMatchesIn(params, query);
    hide Matching, SplitLocation, MatchesIn;
    if more == [] {
      assert order + more == order;
    } else {
      var last, all := |more| - 1, order + more;
      MatchesOneMore(params, query, all, |order| + last);
      MatchesOneMore(params, query, more, last);
      assert all[..|order| + last] == order + more[..last] && all[..|order| + last + 1] == all && more[..last + 1] == more;
      MatchesJoin(params, query, order, more[..last]);
    }
  }

  // They are exactly the locations that match.
  lemma {:induction false} MatchesInExact(params: ParamMap, query: Strings, order: seq<string>)
    requires forall t :: t in order ==> t in params
    ensures forall loc :: loc in MatchesIn(params, query, order) <==>
              exists t :: t in order && Matching(params[t].attributes, query) && SplitLocation(t) == loc
  {
    hide Matching, SplitLocation;
    if order != [] {
      var last, rest := order[|order| - 1], order[..|order| - 1];
      MatchesInExact(params, query, rest);
      forall loc ensures loc in MatchesIn(params, query, order) <==>
                   exists t :: t in order && Matching(params[t].attributes, query) && SplitLocation(t) == loc
      {
        if t :| t in order && Matching(params[t].attributes, query) && SplitLocation(t) == loc {
          assert t == last || t in rest;
        }
        if loc in MatchesIn(params, query, rest) {
          var t :| t in rest && Matching(params[t].attributes, query) && SplitLocation(t) == loc;
          assert t in order;
        }
      }
    }
  }

  // ---- The effects of the operations on the stored map ----

  function Relocated(params: ParamMap, from: EntryLocation, to: EntryLocation): ParamMap
  {
    var s := LocationText(from);
    if s in params then (params - {s})[LocationText(to) := params[s]] else params
  }

  function WithParam(params: ParamMap, loc: EntryLocation, name: string, value: string): (r: ParamMap)
    ensures r.Keys == params.Keys
  {
    var s := LocationText(loc);
    if s in params then params[s := params[s].(fields := params[s].fields[name := value])] else params
  }

  function WithAttributes(params: ParamMap, loc: EntryLocation, attributes: Strings): (r: ParamMap)
    ensures r.Keys == params.Keys
  {
    var s := LocationText(loc);
    if s in params then params[s := params[s].(attributes := attributes)] else params
  }

  // What is stored under one text goes to another, overwriting what is there; all else stays.
  lemma RelocatedMeans(params: ParamMap, from: EntryLocation, to: EntryLocation)
    ensures
      var a, b, r := from.folder + "/" + from.key, to.folder + "/" + to.key, Relocated(params, from, to);
      if a !in params then r == params
      else
        && b in r && r[b] == params[a] && (a != b ==> a !in r)
        && forall t :: t != a && t != b ==> (t in r <==> t in params) && (t in params ==> r[t] == params[t])
  {
  }

  class AttributeStore {
    var params: ParamMap

    constructor (stored: ParamMap)
      ensures params == stored
    {
      params := stored;
    }

    method Remove(loc: EntryLocation)
      modifies this
      ensures params == old(params) - {LocationText(loc)}
    {
      params := params - {LocationText(loc)};
    }

    method RenameLabel(oldLocation: EntryLocation, newLocation: EntryLocation)
      modifies this
      ensures params == Relocated(old(params), oldLocation, newLocation)
    {
      var oldLoc := LocationText(oldLocation);
      if oldLoc !in params {
        return;
      }
      var obj := params[oldLoc];
      params := params - {oldLoc};
      params := params[LocationText(newLocation) := obj];
    }

    method NewItem(loc: EntryLocation)
      modifies this
      ensures params == old(params)[LocationText(loc) := Params(map[], map[])]
    {
      params := params[LocationText(loc) := Params(map[], map[])];
    }

    method SetAttributes(loc: EntryLocation, attributes: Strings)
      modifies this
      ensures params == WithAttributes(old(params), loc, attributes)
    {
      var s := LocationText(loc);
      if s !in params {
        return;
      }
      params := params[s := params[s].(attributes := attributes)];
    }

    method SetParam(loc: EntryLocation, name: string, value: string)
      modifies this
      ensures params == WithParam(old(params), loc, name, value)
    {
      var s := LocationText(loc);
      if s !in params {
        return;
      }
      params := params[s := params[s].(fields := params[s].fields[name := value])];
    }

    method MatchAttributes(query: Strings, order: seq<string>) returns (found: seq<EntryLocation>)
      requires Lists(order, params)
      ensures found == MatchesIn(params, query, order)
    {
      hide SplitLocation, MatchesIn;
      found := [];
      NoMatchesIn(params, query);
      for i := 0 to |order|
        invariant found == MatchesIn(params, query, order[..i])
      {
        var s := order[i];
        MatchesOneMore(params, query, order, i);
        if params[s].attributes != map[] {
          var matches := AllThere(params[s].attributes, query);
          if matches {
            found := found + [SplitLocation(s)];
          }
        }
      }
      assert order[..|order|] == order;
    }

    // The inner loop, left at the first attribute that is missing or different.
    static method AllThere(attributes: Strings, query: Strings) returns (all: bool)
      ensures all <==> forall k :: k in query ==> k in attributes && attributes[k] == query[k]
    {
      var left := query.Keys;
      all := true;
      while left != {}
        invariant left <= query.Keys && all
        invariant forall k :: k in query && k !in left ==> k in attributes && attributes[k] == query[k]
        decreases left
      {
        var k :| k in left;
        if k !in attributes || attributes[k] != query[k] {
          all := false;
          break;
        }
        left := left - {k};
      }
    }
  }
}
