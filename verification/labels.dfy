/** Names of entries, labels of items, and the two ways between them. */
module Labels {
  import opened Decimal

  datatype FdoUniqueLabel = FdoUniqueLabel(title: string, copyId: int)
  datatype EntryLocation = EntryLocation(folder: string, key: string)

  const DEFAULT_DIR: string := "Secret Service"
  const INT_MAX: nat := 0x7fff_ffff

  datatype Split = NoMatch | Match(stem: string, digits: string)

  // ---- The expression (^.*)__(\d+)_$ ----

  // The start of the run of digits that ends before position i.
  function RunStart(t: string, i: nat): (k: nat)
    requires i <= |t|
    ensures k <= i && AllDigits(t[k..i])
    ensures k == 0 || !IsDigit(t[k - 1])
  {
    if i > 0 && IsDigit(t[i - 1]) then
      var k := RunStart(t, i - 1);
      assert t[k..i] == t[k..i - 1] + [t[i - 1]];
      k
    else i
  }

  // The expression against a text that must end with the match.
  function MatchAll(t: string): Split
  {
    if t == [] || t[|t| - 1] != '_' then NoMatch
    else
      var end := |t| - 1;
      var k := RunStart(t, end);
      if k == end || k < 2 || t[k - 1] != '_' || t[k - 2] != '_' || '\n' in t[..k - 2] then NoMatch
      else Match(t[..k - 2], t[k..end])
  }

  // The dollar sign also matches before a newline at the very end.
  function MatchName(name: string): Split
  {
    if name != [] && name[|name| - 1] == '\n' then MatchAll(name[..|name| - 1]) else MatchAll(name)
  }

  // What the expression stands for.
  ghost predicate Fits(t: string, stem: string, digits: string)
  {
    t == stem + "__" + digits + "_" && digits != [] && AllDigits(digits) && '\n' !in stem
  }

  // MatchAll finds the match, and there is never more than one.
  lemma MatchAllCorrect(t: string, stem: string, digits: string)
    ensures Fits(t, stem, digits) <==> MatchAll(t) == Match(stem, digits)
  {
    if MatchAll(t) == Match(stem, digits) {
      var k := RunStart(t, |t| - 1);
      assert t == t[..k - 2] + "__" + t[k..|t| - 1] + "_";
    }
    if Fits(t, stem, digits) {
      var end := |t| - 1;
      var s := |stem| + 2;
      assert t[s..end] == digits && t[s - 1] == '_' && t[s - 2] == '_' && t[end] == '_';
      RunStartAt(t, s, end);
      assert t[..s - 2] == stem;
    }
  }

  lemma {:induction false} RunStartAt(t: string, s: nat, i: nat)
    requires 0 < s <= i <= |t| && AllDigits(t[s..i]) && !IsDigit(t[s - 1])
    ensures RunStart(t, i) == s
  {
    if s < i {
      assert t[i - 1] == t[s..i][i - 1 - s];
      assert t[s..i - 1] == t[s..i][..|t[s..i]| - 1];
      RunStartAt(t, s, i - 1);
    }
  }

  // ---- Names ----

  // So the name is split as the expression says, a newline behind the match left out; and it is not when
  // there is no way to split it.
  lemma MatchNameExact(name: string, stem: string, digits: string)
    ensures
      var t := if name != [] && name[|name| - 1] == '\n' then name[..|name| - 1] else name;
      Fits(t, stem, digits) <==> MatchName(name) == Match(stem, digits)
  {
    hide MatchAll;
    MatchAllCorrect(if name != [] && name[|name| - 1] == '\n' then name[..|name| - 1] else name, stem, digits);
  }

  // The label and copy number in a name; -1 when there is none or it does not fit an int.
  function FromName(name: string): FdoUniqueLabel
  {
    match MatchName(name)
    case NoMatch => FdoUniqueLabel(name, -1)
    case Match(stem, digits) =>
      MatchDigits(name);
      if Value(digits) <= INT_MAX then FdoUniqueLabel(stem, Value(digits)) else FdoUniqueLabel(name, -1)
  }

  lemma MatchDigits(name: string)
    ensures var m := MatchName(name); m.Match? ==> AllDigits(m.digits) && m.digits != [] && '\n' !in m.stem
  {
  }

  // What a name that fits is read as, and every other one.
  lemma FromNameExact(name: string, stem: string, digits: string)
    ensures Fits(name, stem, digits) ==>
      FromName(name) == if Value(digits) <= 0x7fff_ffff then FdoUniqueLabel(stem, Value(digits)) else FdoUniqueLabel(name, -1)
    ensures (forall s, d :: !Fits(name, s, d)) && (name == [] || name[|name| - 1] != '\n') ==> FromName(name) == FdoUniqueLabel(name, -1)
  {
    hide MatchAll;
    MatchAllCorrect(name, stem, digits);
    if name == [] || name[|name| - 1] != '\n' {
      match MatchName(name)
      case NoMatch =>
      case Match(s, d) => MatchNameExact(name, s, d);
    }
  }

  function PrintInt(n: int): string
  {
    if n < 0 then "-" + Print(-n) else Print(n)
  }

  function MakeName(title: string, n: int): string
  {
    if n == -1 then title else title + "__" + PrintInt(n) + "_"
  }

  function ToName(u: FdoUniqueLabel): string
  {
    MakeName(u.title, u.copyId)
  }

  // A printed label is read back exactly when a line does not end inside it.
  lemma FromMakeName(title: string, n: nat)
    requires n <= INT_MAX
    ensures FromName(MakeName(title, n)) == FdoUniqueLabel(title, n) <==> '\n' !in title
  {
    var name := MakeName(title, n);
    ValuePrint(n);
    MatchDigits(name);
    assert name[|name| - 1] == '_';
    if '\n' !in title {
      MatchAllCorrect(name, title, Print(n));
    }
  }

  // The number in a name is one that MakeName would print: no leading zero, no newline behind it.
  predicate PlainCopyNumber(name: string)
  {
    match MatchName(name)
    case NoMatch => true
    case Match(_, digits) =>
      MatchDigits(name);
      Value(digits) > INT_MAX || (!LeadingZero(digits) && name[|name| - 1] != '\n')
  }

  // A name survives being taken apart and put together exactly when its copy number is plain.
  lemma NameRoundTrip(name: string)
    ensures ToName(FromName(name)) == name <==> PlainCopyNumber(name)
  {
    var m := MatchName(name);
    MatchDigits(name);
    if m.Match? && Value(m.digits) <= INT_MAX {
      PrintValue(m.digits);
      var again := ToName(FromName(name));
      assert again == m.stem + "__" + Print(Value(m.digits)) + "_";
      if name[|name| - 1] == '\n' {
        assert again[|again| - 1] == '_';
      } else {
        MatchAllCorrect(name, m.stem, m.digits);
        if again == name {
          SameMiddle(m.stem + "__", Print(Value(m.digits)), m.digits, "_");
        }
      }
    }
  }

  lemma SameMiddle(a: string, b: string, c: string, d: string)
    requires a + b + d == a + c + d
    ensures b == c
  {
    assert |b| == |c|;
    assert (a + b + d)[|a|..|a| + |b|] == b && (a + c + d)[|a|..|a| + |c|] == c;
  }

  // ---- Locations ----

  // indexOf('/')
  function SlashPos(s: string): (p: int)
    ensures p == -1 <==> '/' !in s
    ensures p != -1 ==> 0 <= p < |s| && s[p] == '/' && '/' !in s[..p]
  {
    if s == [] then -1
    else if s[0] == '/' then 0
    else
      var p := SlashPos(s[1..]);
      assert p != -1 ==> s[..p + 1] == [s[0]] + s[1..][..p];
      if p == -1 then -1 else p + 1
  }

  lemma {:induction false} SlashPosUnique(s: string, p: nat)
    requires p < |s| && s[p] == '/' && '/' !in s[..p]
    ensures SlashPos(s) == p
  {
    if p > 0 {
      assert s[0] in s[..p] && s[1..][..p - 1] == s[..p][1..];
      SlashPosUnique(s[1..], p - 1);
    }
  }

  // Folder and name in a label: the default folder when there is no slash but possibly a last one.
  function FolderAndName(title: string): (string, string)
  {
    var p := SlashPos(title);
    if p == -1 || p == |title| - 1 then (DEFAULT_DIR, title) else (title[..p], title[p + 1..])
  }

  // A folder and a name with a slash between them come apart again; without a slash, or with none but
  // the last character, all of the text is the name, in the default folder.
  lemma FolderAndNameMeans(title: string, folder: string, name: string)
    ensures '/' !in title ==> FolderAndName(title) == ("Secret Service", title)
    ensures '/' !in folder ==> FolderAndName(folder + "/") == ("Secret Service", folder + "/")
    ensures '/' !in folder && name != "" ==> FolderAndName(folder + "/" + name) == (folder, name)
  {
    if '/' !in folder {
      var s, t := folder + "/", folder + "/" + name;
      assert s[..|folder|] == folder && t[..|folder|] == folder && t[|folder| + 1..] == name;
      SlashPosUnique(s, |folder|);
      SlashPosUnique(t, |folder|);
    }
  }

  function FromUniqueLabel(u: FdoUniqueLabel): EntryLocation
  {
    var (dir, name) := FolderAndName(u.title);
    EntryLocation(dir, MakeName(name, u.copyId))
  }

  function FromEntryLocation(loc: EntryLocation): FdoUniqueLabel
  {
    var u := FromName(loc.key);
    if loc.folder == DEFAULT_DIR then u else FdoUniqueLabel(loc.folder + "/" + u.title, u.copyId)
  }

  // What a caller can check about a location.
  predicate Canonical(loc: EntryLocation)
  {
    var stem := FromName(loc.key).title;
    && PlainCopyNumber(loc.key)
    && '/' !in loc.folder
    && (if loc.folder == DEFAULT_DIR then '/' !in stem || SlashPos(stem) == |stem| - 1 else stem != "")
  }

  lemma DefaultDirPlain()
    ensures '/' !in DEFAULT_DIR
  {
  }

  // A location survives the way to a label and back exactly when it is canonical.
  lemma LocationRoundTrip(loc: EntryLocation)
    ensures FromUniqueLabel(FromEntryLocation(loc)) == loc <==> Canonical(loc)
  {
    hide PlainCopyNumber, FromName, MakeName;
    var u := FromName(loc.key);
    NameRoundTrip(loc.key);
    DefaultDirPlain();
    if loc.folder == DEFAULT_DIR {
      var p := SlashPos(u.title);
      if p != -1 && p != |u.title| - 1 {
        NameLonger(u.title[p + 1..], u.title, u.copyId);
        ToNameLonger(loc.key);
      }
    } else {
      var l := loc.folder + "/" + u.title;
      if '/' in loc.folder {
        var p := SlashPos(loc.folder);
        assert l[..p] == loc.folder[..p];
        SlashPosUnique(l, p);
        assert FromUniqueLabel(FromEntryLocation(loc)).folder == loc.folder[..p];
      } else {
        assert l[..|loc.folder|] == loc.folder;
        SlashPosUnique(l, |loc.folder|);
        assert l[|loc.folder| + 1..] == u.title;
      }
    }
  }

  lemma NameLonger(a: string, b: string, n: int)
    ensures |MakeName(a, n)| - |a| == |MakeName(b, n)| - |b|
  {
  }

  // A name is never shorter than what it is put together from again.
  lemma ToNameLonger(name: string)
    ensures |ToName(FromName(name))| <= |name|
  {
    var m := MatchName(name);
    MatchDigits(name);
    if m.Match? && Value(m.digits) <= INT_MAX {
      PrintShorter(m.digits);
    }
  }

  lemma {:induction false} PrintShorter(s: string)
    requires s != [] && AllDigits(s)
    ensures |Print(Value(s))| <= |s|
  {
    var init, last := s[..|s| - 1], s[|s| - 1];
    if init == [] {
      assert Value(init) == 0;
    } else {
      PrintShorter(init);
      assert Value(s) / 10 == Value(init);
    }
  }
}
