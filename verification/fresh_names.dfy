/** The three loops that look for an unused name by counting up, and the characters of object paths. */
module FreshNames {
  import opened Bytes
  import opened Decimal
  import opened Labels

  // ---- Pigeonhole ----

  ghost predicate AllDifferent(c: nat -> string)
  {
    forall i, j {:trigger c(i), c(j)} :: c(i) == c(j) ==> i == j
  }

  // As long as every candidate is taken, no more candidates have been tried than names are taken.
  lemma {:induction false} ProbesBounded(c: nat -> string, taken: set<string>, k: nat)
    requires AllDifferent(c) && forall i: nat :: i < k ==> c(i) in taken
    ensures k <= |taken|
  {
    if k > 0 {
      var rest := taken - {c(k - 1)};
      ProbesBounded(c, rest, k - 1);
      assert |taken| == |rest| + 1;
    }
  }

  // The result is the first candidate that is not taken.
  ghost predicate FirstFree(c: nat -> string, taken: set<string>, k: nat)
  {
    c(k) !in taken && forall i: nat :: i < k ==> c(i) in taken
  }

  // ---- Candidates ----

  // A name as it is, then with copy numbers 0, 1, 2, ...
  function NumberedName(title: string, k: nat): string
  {
    MakeName(title, k - 1)
  }

  // A path as it is, then with the postfixes 0, 1, 2, ...
  function PostfixedPath(path: string, k: nat): string
  {
    if k == 0 then path else path + Print(k - 1)
  }

  // The candidates, written out.
  lemma CandidatesMean(text: string, k: nat)
    ensures NumberedName(text, 0) == text && NumberedName(text, k + 1) == text + "__" + Print(k) + "_"
    ensures PostfixedPath(text, 0) == text && PostfixedPath(text, k + 1) == text + Print(k)
  {
  }

  lemma NumberedNamesDiffer(title: string)
    ensures AllDifferent((k: nat) => NumberedName(title, k))
  {
    forall i: nat, j: nat | NumberedName(title, i) == NumberedName(title, j) ensures i == j {
      SameNumber(title, i, j);
    }
  }

  lemma SameNumber(title: string, i: nat, j: nat)
    requires NumberedName(title, i) == NumberedName(title, j)
    ensures i == j
  {
    hide Print;
    if i > 0 && j > 0 {
      SameMiddle(title + "__", Print(i - 1), Print(j - 1), "_");
      PrintInjective(i - 1, j - 1);
    }
  }

  lemma PostfixedPathsDiffer(path: string)
    ensures AllDifferent((k: nat) => PostfixedPath(path, k))
  {
    forall i: nat, j: nat | PostfixedPath(path, i) == PostfixedPath(path, j) ensures i == j {
      if i > 0 && j > 0 {
        assert (path + Print(i - 1))[|path|..] == Print(i - 1) && (path + Print(j - 1))[|path|..] == Print(j - 1);
        PrintInjective(i - 1, j - 1);
      }
    }
  }

  // ---- The loops ----

  function Names(l: seq<string>): set<string>
  {
    set w | w in l
  }

  method MakeUniqueCollectionLabel(title: string, wallets: seq<string>) returns (u: FdoUniqueLabel)
    ensures u.title == title && -1 <= u.copyId < |Names(wallets)| <= |wallets|
    ensures FirstFree((k: nat) => NumberedName(title, k), Names(wallets), u.copyId + 1)
    ensures ToName(u) !in wallets
  {
    ghost var c, taken := (k: nat) => NumberedName(title, k), Names(wallets);
    NumberedNamesDiffer(title);
    CardinalityOfList(wallets);
    var n := -1;
    var walletName := title;
    while walletName in wallets
      invariant n >= -1 && walletName == c(n + 1)
      invariant forall i: nat :: i < n + 1 ==> c(i) in taken
      invariant n + 1 <= |taken|
      decreases |taken| - n
    {
      n := n + 1;
      walletName := MakeName(title, n);
      ProbesBounded(c, taken, n + 1);
    }
    u := FdoUniqueLabel(title, n);
    LastProbe(c, taken, n + 1);
  }

  // A candidate that is free is not counted among the taken names.
  lemma LastProbe(c: nat -> string, taken: set<string>, k: nat)
    requires FirstFree(c, taken, k) && AllDifferent(c)
    ensures k <= |taken|
  {
    ProbesBounded(c, taken, k);
  }

  lemma {:induction false} CardinalityOfList(l: seq<string>)
    ensures |Names(l)| <= |l|
  {
    if l != [] {
      CardinalityOfList(l[1..]);
      assert Names(l) == {l[0]} + Names(l[1..]);
    }
  }

  method MakeUniqueWalletName(labelPrefix: string, wallets: seq<string>) returns (name: string)
    ensures name !in wallets
    ensures exists k: nat :: k <= |Names(wallets)| && name == NumberedName(labelPrefix, k)
                             && FirstFree((k: nat) => NumberedName(labelPrefix, k), Names(wallets), k)
  {
    var u := MakeUniqueCollectionLabel(labelPrefix, wallets);
    name := ToName(u);
    ghost var k: nat := u.copyId + 1;
    assert name == NumberedName(labelPrefix, k);
  }

  // makeUniqueEntryLocation(); names are the keys the folder has, none when it does not exist.
  method MakeUniqueEntryLocation(title: string, entries: map<string, set<string>>) returns (loc: EntryLocation)
    ensures loc.folder == FolderAndName(title).0
    ensures loc.folder in entries ==> loc.key !in entries[loc.folder]
    ensures
      var taken := if loc.folder in entries then entries[loc.folder] else {};
      exists k: nat :: k <= |taken| && FirstFree((k: nat) => NumberedName(FolderAndName(title).1, k), taken, k)
                       && loc.key == NumberedName(FolderAndName(title).1, k)
  {
    var (dir, name) := FolderAndName(title);
    var taken := if dir in entries then entries[dir] else {};
    ghost var c := (k: nat) => NumberedName(name, k);
    NumberedNamesDiffer(name);
    var suffix := 0;
    var resultName := name;
    while resultName in taken
      invariant suffix >= 0 && resultName == c(suffix)
      invariant forall i: nat :: i < suffix ==> c(i) in taken
      invariant suffix <= |taken|
      decreases |taken| + 1 - suffix
    {
      resultName := MakeName(name, suffix);
      suffix := suffix + 1;
      ProbesBounded(c, taken, suffix);
    }
    assert FirstFree(c, taken, suffix);
    loc := EntryLocation(dir, resultName);
  }

  // ---- Object paths ----

  const COLLECTION_PATH: string := "/org/freedesktop/secrets/collection/"

  predicate PathChar(c: char)
  {
    'A' <= c <= 'Z' || 'a' <= c <= 'z' || '0' <= c <= '9' || c == '_'
  }

  function Hex(n: nat): (c: char)
    requires n < 16
    ensures PathChar(c)
  {
    "0123456789abcdef"[n]
  }

  function CharOf(b: byte): char
  {
    NatOf(b) as char
  }

  // The characters for one byte: itself, or an underscore and its two hexadecimal digits.
  function MangleCode(n: nat): (s: string)
    requires n < 0x100
    ensures forall c :: c in s ==> PathChar(c)
  {
    if PathChar(n as char) then [n as char] else ['_', Hex(n / 16), Hex(n % 16)]
  }

  // Which bytes stay, and that the upper digit comes first.
  lemma MangleCodeMeans(n: nat)
    requires n < 0x100
    ensures 48 <= n <= 57 || 65 <= n <= 90 || 97 <= n <= 122 || n == 95 ==> MangleCode(n) == [n as char]
    ensures !(48 <= n <= 57 || 65 <= n <= 90 || 97 <= n <= 122 || n == 95) ==>
      MangleCode(n) == "_" + ["0123456789abcdef"[n / 16], "0123456789abcdef"[n % 16]]
  {
  }

  function MangleByte(b: byte): (s: string)
    ensures forall c :: c in s ==> PathChar(c)
  {
    MangleCode(NatOf(b))
  }

  // mangleInvalidObjectPathChars() on the UTF-8 form of a name.
  function Mangled(utf8: seq<byte>): (s: string)
    ensures forall c :: c in s ==> PathChar(c)
  {
    if utf8 == [] then [] else MangleByte(utf8[0]) + Mangled(utf8[1..])
  }

  method MangleInvalidObjectPathChars(utf8: seq<byte>) returns (mangled: string)
    ensures mangled == Mangled(utf8)
  {
    hide NatOf;
    mangled := [];
    for i := 0 to |utf8|
      invariant mangled + Mangled(utf8[i..]) == Mangled(utf8)
    {
      assert utf8[i..][1..] == utf8[i + 1..];
      var cp := NatOf(utf8[i]);
      var c := cp as char;
      var piece: string;
      if (c < 'A' || c > 'Z') && (c < 'a' || c > 'z') && (c < '0' || c > '9') && c != '_' {
        piece := ['_', Hex(cp / 16), Hex(cp % 16)];
      } else {
        piece := [c];
      }
      assert piece == MangleByte(utf8[i]);
      RegroupText(mangled, piece, Mangled(utf8[i + 1..]));
      mangled := mangled + piece;
    }
    assert mangled + [] == mangled;
  }

  lemma RegroupText(a: string, b: string, c: string)
    ensures a + b + c == a + (b + c)
  {
  }

  // Names without an underscore keep apart; with one they may not.
  lemma {:induction false} MangledInjective(a: seq<byte>, b: seq<byte>)
    requires Mangled(a) == Mangled(b)
    requires forall x :: x in a || x in b ==> CharOf(x) != '_'
    ensures a == b
  {
    if a != [] && b != [] {
      MangledParts(a);
      MangledParts(b);
      hide Mangled, MangleByte;
      MangleByteInjective(a[0], b[0], Mangled(a));
      MangledInjective(a[1..], b[1..]);
      assert a == [a[0]] + a[1..] && b == [b[0]] + b[1..];
    }
  }

  lemma MangledParts(a: seq<byte>)
    requires a != []
    ensures MangleByte(a[0]) <= Mangled(a) && Mangled(a)[|MangleByte(a[0])|..] == Mangled(a[1..])
  {
    hide MangleByte;
  }

  lemma MangleByteInjective(x: byte, y: byte, m: string)
    requires CharOf(x) != '_' && CharOf(y) != '_'
    requires MangleByte(x) <= m && MangleByte(y) <= m
    ensures x == y
  {
    hide NatOf;
    MangleCodeInjective(NatOf(x), NatOf(y), m);
    SameByte(x, y);
  }

  lemma MangleCodeInjective(x: nat, y: nat, m: string)
    requires x < 0x100 && y < 0x100 && x as char != '_' && y as char != '_'
    requires MangleCode(x) <= m && MangleCode(y) <= m
    ensures x == y
  {
    assert MangleCode(x)[0] == m[0] && MangleCode(y)[0] == m[0];
    if m[0] == '_' {
      assert MangleCode(x)[1] == m[1] && MangleCode(y)[1] == m[1];
      assert MangleCode(x)[2] == m[2] && MangleCode(y)[2] == m[2];
      HexInjective(x / 16, y / 16);
      HexInjective(x % 16, y % 16);
    }
  }

  lemma HexInjective(m: nat, n: nat)
    requires m < 16 && n < 16 && Hex(m) == Hex(n)
    ensures m == n
  {
  }

  lemma SameByte(x: byte, y: byte)
    requires NatOf(x) == NatOf(y)
    ensures x == y
  {
    ByteOfNatOf(x);
    ByteOfNatOf(y);
  }

  // makeUniqueObjectPath()
  method MakeUniqueObjectPath(utf8: seq<byte>, collections: set<string>) returns (path: string)
    ensures path !in collections && "/org/freedesktop/secrets/collection/" <= path
    ensures COLLECTION_PATH <= path && forall c :: c in path[|COLLECTION_PATH|..] ==> PathChar(c)
    ensures exists k: nat :: k <= |collections| && path == PostfixedPath(COLLECTION_PATH + Mangled(utf8), k)
                             && FirstFree((k: nat) => PostfixedPath(COLLECTION_PATH + Mangled(utf8), k), collections, k)
  {
    var mangled := MangleInvalidObjectPathChars(utf8);
    mangled := COLLECTION_PATH + mangled;
    ghost var c := (k: nat) => PostfixedPath(mangled, k);
    PostfixedPathsDiffer(mangled);
    path := mangled;
    var postfix := 0;
    while path in collections
      invariant postfix >= 0 && path == c(postfix)
      invariant forall i: nat :: i < postfix ==> c(i) in collections
      invariant postfix <= |collections|
      decreases |collections| + 1 - postfix
    {
      path := mangled + Print(postfix);
      postfix := postfix + 1;
      ProbesBounded(c, collections, postfix);
    }
    assert FirstFree(c, collections, postfix);
    PathChars(utf8, postfix);
  }

  lemma PathChars(utf8: seq<byte>, k: nat)
    ensures
      var path := PostfixedPath(COLLECTION_PATH + Mangled(utf8), k);
      COLLECTION_PATH <= path && forall c :: c in path[|COLLECTION_PATH|..] ==> PathChar(c)
  {
    var path := PostfixedPath(COLLECTION_PATH + Mangled(utf8), k);
    if k == 0 {
      assert path[|COLLECTION_PATH|..] == Mangled(utf8);
    } else {
      assert path[|COLLECTION_PATH|..] == Mangled(utf8) + Print(k - 1);
      forall c | c in Print(k - 1) ensures PathChar(c) {
        assert IsDigit(c);
      }
    }
  }
}
