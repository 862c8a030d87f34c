/** The wallet as a collection sees it, and the Backend it is kept in: what KSecretD's entry calls do to
    the one they do to the other. */
module WalletView {
  import opened Bytes
  import opened Items
  import opened Labels
  import opened Stream
  import opened Text
  import BackendRuns
  import BackendState

  // How names and secrets of the secret service are written as those of the wallet.
  datatype Encoding = Encoding(name: string -> QString, secret: Secret -> (int32, seq<byte>))
  {
    ghost predicate Injective()
    {
      forall a, b :: name(a) == name(b) ==> a == b
    }
  }

  // Two code units for every character keep names apart, so there are such encodings.
  function Wide(s: string): QString
  {
    if s == [] then [] else [s[0] as int / 0x1_0000, s[0] as int % 0x1_0000] + Wide(s[1..])
  }

  lemma {:induction false} WideApart(a: string, b: string)
    requires Wide(a) == Wide(b)
    ensures a == b
  {
    if a != [] && b != [] {
      var x, y := Wide(a), Wide(b);
      assert x[0] == y[0] && x[1] == y[1] && x[2..] == Wide(a[1..]) && y[2..] == Wide(b[1..]);
      hide Wide;
      SameChar(a[0], b[0]);
      WideApart(a[1..], b[1..]);
      assert a == [a[0]] + a[1..] && b == [b[0]] + b[1..];
    }
  }

  lemma SameChar(c: char, d: char)
    requires c as int / 0x1_0000 == d as int / 0x1_0000 && c as int % 0x1_0000 == d as int % 0x1_0000
    ensures c == d
  {
    assert c as int == d as int;
  }

  lemma WideInjective(secret: Secret -> (int32, seq<byte>))
    ensures Encoding(Wide, secret).Injective()
  {
    forall a, b | Wide(a) == Wide(b) ensures a == b {
      WideApart(a, b);
    }
  }

  type Contents = BackendRuns.Contents
  type ContentsFolder = map<QString, (int32, seq<byte>)>

  ghost predicate FolderShows(enc: Encoding, m: map<string, Secret>, c: ContentsFolder)
  {
    && (forall k :: k in m ==> enc.name(k) in c && c[enc.name(k)] == enc.secret(m[k]))
    && (forall x :: x in c ==> exists k :: k in m && enc.name(k) == x)
  }

  // The same folders, with the same entries.
  ghost predicate Shows(enc: Encoding, w: WalletMap, c: Contents)
  {
    && (forall f :: f in w ==> enc.name(f) in c && FolderShows(enc, w[f], c[enc.name(f)]))
    && (forall x :: x in c ==> exists f :: f in w && enc.name(f) == x)
  }

  // ---- Calls of the daemon ----

  datatype Call =
    | WriteCall(loc: EntryLocation, e: Secret)
    | RemoveCall(loc: EntryLocation)
    | RenameCall(folder: string, oldName: string, newName: string)
    | SyncCall
    | ReopenCall

  function WalletAfter(w: WalletMap, call: Call): WalletMap
  {
    match call
    case WriteCall(loc, e) => Written(w, loc, e)
    case RemoveCall(loc) => Removed(w, loc)
    case RenameCall(f, o, n) => Renamed(w, f, o, n)
    case _ => w
  }

  // The operations of the Backend that a call comes to. Removing asks for the folder first.
  function OpsOf(enc: Encoding, c: Contents, call: Call): seq<BackendRuns.Op>
  {
    match call
    case WriteCall(loc, e) =>
      [BackendRuns.SetFolderOp(enc.name(loc.folder)),
       BackendRuns.WriteOp(enc.name(loc.key), enc.secret(e).0, enc.secret(e).1)]
    case RemoveCall(loc) =>
      if enc.name(loc.folder) !in c then []
      else [BackendRuns.SetFolderOp(enc.name(loc.folder)), BackendRuns.RemoveEntryOp(enc.name(loc.key))]
    case RenameCall(f, o, n) =>
      [BackendRuns.SetFolderOp(enc.name(f)), BackendRuns.RenameEntryOp(enc.name(o), enc.name(n))]
    case SyncCall => [BackendRuns.SyncOp]
    case ReopenCall => [BackendRuns.ReopenOp]
  }

  function Ops(m: BackendRuns.Model, ops: seq<BackendRuns.Op>): BackendRuns.Model
    decreases ops
  {
    if ops == [] then m else Ops(BackendRuns.SpecStep(m, ops[0]).1, ops[1..])
  }

  function AllWalletAfter(w: WalletMap, calls: seq<Call>): WalletMap
    decreases calls
  {
    if calls == [] then w else AllWalletAfter(WalletAfter(w, calls[0]), calls[1..])
  }

  function AllOps(enc: Encoding, m: BackendRuns.Model, calls: seq<Call>): seq<BackendRuns.Op>
    decreases calls
  {
    if calls == [] then []
    else
      var ops := OpsOf(enc, m.contents, calls[0]);
      ops + AllOps(enc, Ops(m, ops), calls[1..])
  }

  lemma {:induction false} OpsJoin(m: BackendRuns.Model, a: seq<BackendRuns.Op>, b: seq<BackendRuns.Op>)
    ensures Ops(m, a + b) == Ops(Ops(m, a), b)
    decreases a
  {
    hide BackendRuns.SpecStep;
    if a == [] {
      assert a + b == b;
    } else {
      assert (a + b)[0] == a[0] && (a + b)[1..] == a[1..] + b;
      OpsJoin(BackendRuns.SpecStep(m, a[0]).1, a[1..], b);
    }
  }

  // ---- One folder ----

  lemma FolderSet(enc: Encoding, m: map<string, Secret>, c: ContentsFolder, k: string, e: Secret)
    requires enc.Injective() && FolderShows(enc, m, c)
    ensures FolderShows(enc, m[k := e], c[enc.name(k) := enc.secret(e)])
  {
    var c' := c[enc.name(k) := enc.secret(e)];
    forall x | x in c' ensures exists j :: j in m[k := e] && enc.name(j) == x {
      if x == enc.name(k) {
        assert k in m[k := e];
      } else {
        var j :| j in m && enc.name(j) == x;
        assert j in m[k := e];
      }
    }
  }

  lemma FolderWithout(enc: Encoding, m: map<string, Secret>, c: ContentsFolder, k: string)
    requires enc.Injective() && FolderShows(enc, m, c)
    ensures FolderShows(enc, m - {k}, c - {enc.name(k)})
  {
    forall x | x in c - {enc.name(k)} ensures exists j :: j in m - {k} && enc.name(j) == x {
      var j :| j in m && enc.name(j) == x;
      assert j in m - {k};
    }
  }

  lemma NameIn(enc: Encoding, m: map<string, Secret>, c: ContentsFolder, k: string)
    requires enc.Injective() && FolderShows(enc, m, c)
    ensures k in m <==> enc.name(k) in c
  {
  }

  lemma FolderIn(enc: Encoding, w: WalletMap, c: Contents, f: string)
    requires enc.Injective() && Shows(enc, w, c)
    ensures f in w <==> enc.name(f) in c
    ensures FolderShows(enc, FolderOf(w, f), if enc.name(f) in c then c[enc.name(f)] else map[])
  {
  }

  lemma FolderPut(enc: Encoding, w: WalletMap, c: Contents, f: string, m: map<string, Secret>, x: ContentsFolder)
    requires enc.Injective() && Shows(enc, w, c) && FolderShows(enc, m, x)
    ensures Shows(enc, w[f := m], c[enc.name(f) := x])
  {
    hide FolderShows;
    var w', c' := w[f := m], c[enc.name(f) := x];
    forall y | y in c' ensures exists g :: g in w' && enc.name(g) == y {
      if y == enc.name(f) {
        assert f in w';
      } else {
        var g :| g in w && enc.name(g) == y;
        assert g in w';
      }
    }
  }

  // ---- One call, and any number of them ----

  lemma CallShows(enc: Encoding, w: WalletMap, m: BackendRuns.Model, call: Call)
    requires enc.Injective() && Shows(enc, w, m.contents)
    ensures Shows(enc, WalletAfter(w, call), Ops(m, OpsOf(enc, m.contents, call)).contents)
  {
    hide Shows, FolderShows, Encoding.Injective;
    var c := m.contents;
    match call
    case WriteCall(loc, e) =>
      var x := enc.name(loc.folder);
      var was := if x in c then c[x] else map[];
      FolderIn(enc, w, c, loc.folder);
      FolderSet(enc, FolderOf(w, loc.folder), was, loc.key, e);
      FolderPut(enc, w, c, loc.folder, FolderOf(w, loc.folder)[loc.key := e], was[enc.name(loc.key) := enc.secret(e)]);
      TwoOps(m, OpsOf(enc, c, call));
    case RemoveCall(loc) =>
      var x := enc.name(loc.folder);
      FolderIn(enc, w, c, loc.folder);
      if x in c {
        FolderWithout(enc, w[loc.folder], c[x], loc.key);
        FolderPut(enc, w, c, loc.folder, w[loc.folder] - {loc.key}, c[x] - {enc.name(loc.key)});
        TwoOps(m, OpsOf(enc, c, call));
        SetTheSame(c, x, enc.name(loc.key));
      }
    case RenameCall(f, o, n) =>
      var x := enc.name(f);
      var was, mine := if x in c then c[x] else map[], FolderOf(w, f);
      FolderIn(enc, w, c, f);
      NameIn(enc, mine, was, o);
      NameIn(enc, mine, was, n);
      TwoOps(m, OpsOf(enc, c, call));
      if o in mine && n !in mine {
        RenamedShows(enc, mine, was, o, n);
        FolderPut(enc, w, c, f, mine[n := mine[o]] - {o}, (was - {enc.name(o)})[enc.name(n) := was[enc.name(o)]]);
      } else {
        FolderPut(enc, w, c, f, mine, was);
      }
    case SyncCall => OneOp(m, OpsOf(enc, c, call));
    case ReopenCall => OneOp(m, OpsOf(enc, c, call));
  }

  lemma OneOp(m: BackendRuns.Model, ops: seq<BackendRuns.Op>)
    requires |ops| == 1
    ensures Ops(m, ops) == BackendRuns.SpecStep(m, ops[0]).1
  {
    assert ops[1..] == [];
  }

  lemma TwoOps(m: BackendRuns.Model, ops: seq<BackendRuns.Op>)
    requires |ops| == 2
    ensures Ops(m, ops) == BackendRuns.SpecStep(BackendRuns.SpecStep(m, ops[0]).1, ops[1]).1
  {
    hide BackendRuns.SpecStep;
    OneOp(BackendRuns.SpecStep(m, ops[0]).1, ops[1..]);
  }

  lemma SetTheSame(c: Contents, x: QString, y: QString)
    requires x in c
    ensures y !in c[x] ==> c[x := c[x] - {y}] == c
  {
    if y !in c[x] {
      assert c[x] - {y} == c[x];
    }
  }

  lemma RenamedShows(enc: Encoding, m: map<string, Secret>, c: ContentsFolder, o: string, n: string)
    requires enc.Injective() && FolderShows(enc, m, c) && o in m && n !in m
    requires enc.name(o) in c
    ensures FolderShows(enc, m[n := m[o]] - {o}, (c - {enc.name(o)})[enc.name(n) := c[enc.name(o)]])
  {
    FolderWithout(enc, m, c, o);
    FolderSet(enc, m - {o}, c - {enc.name(o)}, n, m[o]);
    assert m[n := m[o]] - {o} == (m - {o})[n := m[o]];
  }

  lemma {:induction false} CallsShow(enc: Encoding, w: WalletMap, m: BackendRuns.Model, calls: seq<Call>)
    requires enc.Injective() && Shows(enc, w, m.contents)
    ensures Shows(enc, AllWalletAfter(w, calls), Ops(m, AllOps(enc, m, calls)).contents)
    decreases calls
  {
    hide Shows, WalletAfter, OpsOf, Encoding.Injective, BackendRuns.SpecStep;
    if calls != [] {
      var ops := OpsOf(enc, m.contents, calls[0]);
      CallShows(enc, w, m, calls[0]);
      OpsJoin(m, ops, AllOps(enc, Ops(m, ops), calls[1..]));
      CallsShow(enc, WalletAfter(w, calls[0]), Ops(m, ops), calls[1..]);
    }
  }

  // ---- The Backend ----

  function OpsIn(es: seq<BackendRuns.Event>): seq<BackendRuns.Op>
  {
    if es == [] then [] else [es[0].op] + OpsIn(es[1..])
  }

  lemma {:induction false} RunIsOps(m: BackendRuns.Model, es: seq<BackendRuns.Event>)
    ensures BackendRuns.SpecRun(m, es).1 == Ops(m, OpsIn(es))
    decreases es
  {
    hide BackendRuns.SpecStep;
    if es != [] {
      RunIsOps(BackendRuns.SpecStep(m, es[0].op).1, es[1..]);
      assert OpsIn(es)[1..] == OpsIn(es[1..]);
    }
  }

  // Over every run of calls on an open wallet, saved and reopened in between or not, what is in the
  // Backend is what the collection's picture of the wallet has become.
  lemma BackendShows(enc: Encoding, w: WalletMap, env: BackendState.Env, st: BackendState.State, pw: seq<byte>,
                     es: seq<BackendRuns.Event>, calls: seq<Call>)
    requires enc.Injective() && Shows(enc, w, BackendRuns.Abstract(st.entries))
    requires BackendRuns.Good(env, st, pw) && BackendRuns.AllowedRun(env, st, pw, es)
    requires OpsIn(es) == AllOps(enc, BackendRuns.ModelOf(st), calls)
    ensures Shows(enc, AllWalletAfter(w, calls), BackendRuns.Abstract(BackendRuns.Run(env, st, pw, es).1.entries))
  {
    hide Shows, BackendRuns.Abstract, BackendRuns.Run, BackendRuns.AllowedRun, BackendRuns.Good, Encoding.Injective,
         BackendRuns.SpecRun;
    BackendRuns.RunRefines(env, st, pw, es);
    RunIsOps(BackendRuns.ModelOf(st), es);
    CallsShow(enc, w, BackendRuns.ModelOf(st), calls);
  }

  // Asking the Backend for an entry gives what the collection's picture has there.
  lemma EntryShows(enc: Encoding, w: WalletMap, c: Contents, loc: EntryLocation)
    requires enc.Injective() && Shows(enc, w, c)
    ensures
      var f, k := enc.name(loc.folder), enc.name(loc.key);
      && (Has(w, loc) <==> f in c && k in c[f])
      && (Has(w, loc) ==> c[f][k] == enc.secret(Get(w, loc)))
  {
    FolderIn(enc, w, c, loc.folder);
    if loc.folder in w {
      NameIn(enc, w[loc.folder], c[enc.name(loc.folder)], loc.key);
    }
  }
}
