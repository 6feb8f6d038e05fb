/**
 Paths over the folder table, as pfolder.c prints and parses them. The table is rooted at folder 0;
 a printed path is looked up by walking it name by name.
 */
module FolderPath {
  import opened Common

  datatype Folder = Folder(parent: nat, name: string)

  type Table = map<nat, Folder>

  // ---------------------------------------------------------------- The table

  predicate GoodName(name: string) {
    name != "" && '/' !in name
  }

  /** Proper names, no two of them alike in one folder; a row for the root has an empty name. */
  ghost predicate WellFormed(t: Table) {
    && (forall id | id in t :: if id == 0 then t[id].name == "" else GoodName(t[id].name))
    && (forall id, id' | id in t && id' in t && t[id] == t[id'] :: id == id')
  }

  /** No folder is inside itself: parents are nearer to the root. */
  ghost predicate Acyclic(t: Table, rank: nat -> nat) {
    forall id | id in t && id != 0 :: rank(t[id].parent) < rank(id)
  }

  /** The names from the root down to a folder, if every folder on the way is in the table. */
  ghost function Names(t: Table, rank: nat -> nat, id: nat): (r: Option<seq<string>>)
    requires Acyclic(t, rank)
    decreases rank(id)
  {
    if id == 0 then Some([])
    else if id !in t then None
    else
      var up := Names(t, rank, t[id].parent);
      if up.None? then None else Some(up.value + [t[id].name])
  }

  predicate IsChild(t: Table, parent: nat, name: string, id: nat) {
    id in t && t[id] == Folder(parent, name)
  }

  /** The id that the database finds for a name in a folder. */
  ghost function Child(t: Table, parent: nat, name: string): (r: Option<nat>)
    ensures r.Some? ==> IsChild(t, parent, name, r.value)
    ensures r.None? ==> forall id :: !IsChild(t, parent, name, id)
  {
    if id :| IsChild(t, parent, name, id) then Some(id) else None
  }

  ghost function Walk(t: Table, from: nat, names: seq<string>): (r: Option<nat>)
    decreases |names|
  {
    if names == [] then Some(from) else
      var c := Child(t, from, names[0]);
      if c.None? then None else Walk(t, c.value, names[1..])
  }

  // ---------------------------------------------------------------- Paths as text

  function SkipSlashes(p: string): (r: string)
    ensures |r| <= |p| && (r != "" ==> r[0] != '/')
  {
    if p != "" && p[0] == '/' then SkipSlashes(p[1..]) else p
  }

  /** How far the next slash is. */
  function NameLength(p: string): (n: nat)
    ensures n <= |p| && (forall i | 0 <= i < n :: p[i] != '/') && (n < |p| ==> p[n] == '/')
  {
    if p == "" || p[0] == '/' then 0 else 1 + NameLength(p[1..])
  }

  function Components(p: string): (names: seq<string>)
    decreases |p|
  {
    var q := SkipSlashes(p);
    if q == "" then [] else
      var n := NameLength(q);
      [q[..n]] + Components(q[n..])
  }

  /** What psync_get_folderid_by_path finds: a path has to begin with a slash. */
  ghost function Lookup(t: Table, path: string): (r: Option<nat>) {
    if path == "" || path[0] != '/' then None else Walk(t, 0, Components(path))
  }

  /** Every name after a slash. */
  function Slashed(names: seq<string>): (r: string) {
    if names == [] then "" else "/" + names[0] + Slashed(names[1..])
  }

  function Printed(names: seq<string>): (r: string) {
    if names == [] then "/" else Slashed(names)
  }

  /** The path without slashes that are followed by another one or by nothing. */
  function Squeezed(p: string): (r: string) {
    if p == "" then ""
    else if p[0] == '/' && (|p| == 1 || p[1] == '/') then Squeezed(p[1..])
    else [p[0]] + Squeezed(p[1..])
  }

  function Normal(path: string): (r: string) {
    if Squeezed(path) == "" then "/" else Squeezed(path)
  }

  function Joined(lst: seq<string>, sep: string): (r: string) {
    if lst == [] then ""
    else if |lst| == 1 then lst[0]
    else lst[0] + sep + Joined(lst[1..], sep)
  }

  // ---------------------------------------------------------------- Text lemmas

  lemma {:induction false} NameEnds(name: string, rest: string)
    requires '/' !in name && (rest == "" || rest[0] == '/')
    ensures NameLength(name + rest) == |name|
  {
    if name != "" {
      assert (name + rest)[1..] == name[1..] + rest;
      assert name[0] in name;
      NameEnds(name[1..], rest);
    } else {
      assert name + rest == rest;
    }
  }

  lemma {:induction false} ComponentsOfSlashed(names: seq<string>)
    requires forall n | n in names :: GoodName(n)
    ensures Components(Slashed(names)) == names
    ensures Slashed(names) == "" || Slashed(names)[0] == '/'
  {
    if names != [] {
      ComponentsOfSlashed(names[1..]);
      var rest := Slashed(names[1..]);
      var p := Slashed(names);
      assert p[1..] == names[0] + rest;
      assert names[0] in names && GoodName(names[0]);
      assert names[0][0] in names[0];
      assert SkipSlashes(p) == SkipSlashes(p[1..]) == p[1..];
      assert SkipSlashes(p) == names[0] + rest;
      NameEnds(names[0], rest);
      assert (names[0] + rest)[..|names[0]|] == names[0] && (names[0] + rest)[|names[0]|..] == rest;
    }
  }

  lemma {:induction false} SqueezedName(q: string, n: nat)
    requires n <= NameLength(q)
    ensures Squeezed(q) == q[..n] + Squeezed(q[n..])
  {
    hide Squeezed, NameLength;
    if n == 0 {
      assert q[..0] == "" && q[0..] == q;
      Before("", Squeezed(q));
    } else {
      NameGoesOn(q, n);
      SqueezedName(q[1..], n - 1);
      SqueezedStep(q);
      assert q[1..][n - 1..] == q[n..] && q[..n] == [q[0]] + q[1..][..n - 1];
      Regroup([q[0]], q[1..][..n - 1], Squeezed(q[n..]));
    }
  }

  lemma NameGoesOn(q: string, n: nat)
    requires 0 < n <= NameLength(q)
    ensures q != "" && q[0] != '/' && n - 1 <= NameLength(q[1..]) && n <= |q|
  {
  }

  lemma Before(a: string, b: string)
    requires a == ""
    ensures a + b == b
  {
  }

  lemma Regroup(a: string, b: string, c: string)
    ensures a + (b + c) == (a + b) + c
  {
  }

  lemma SqueezedStep(q: string)
    requires q != "" && (q[0] != '/' || (|q| > 1 && q[1] != '/'))
    ensures Squeezed(q) == [q[0]] + Squeezed(q[1..])
  {
  }

  /** A path that begins with one slash begins with its first component. */
  lemma FirstComponent(p: string)
    requires |p| > 1 && p[0] == '/' && p[1] != '/'
    ensures var q := p[1..]; Components(p) == [q[..NameLength(q)]] + Components(q[NameLength(q)..])
  {
    assert SkipSlashes(p) == SkipSlashes(p[1..]) == p[1..];
  }

  /** Printing the components of a path removes its repeated and trailing slashes, and nothing else. */
  lemma {:induction false} SlashedComponents(p: string)
    requires p == "" || p[0] == '/'
    ensures Slashed(Components(p)) == Squeezed(p)
    decreases |p|
  {
    hide Squeezed, Slashed, Components, NameLength;
    if p == "" {
      NothingToPrint();
    } else {
      var q := p[1..];
      if q == "" || q[0] == '/' {
        SlashedComponents(q);
        ExtraSlash(p);
      } else {
        var n := NameLength(q);
        SlashedComponents(q[n..]);
        SqueezedName(q, n);
        SqueezedStep(p);
        FirstComponent(p);
        SlashedStep(q[..n], Components(q[n..]));
        hide *;
        assert ("/" + q[..n]) + Squeezed(q[n..]) == "/" + (q[..n] + Squeezed(q[n..]));
      }
    }
  }

  lemma NothingToPrint()
    ensures Slashed(Components("")) == Squeezed("") == ""
  {
    assert SkipSlashes("") == "";
  }

  /** A slash before another one or at the end makes no difference. */
  lemma ExtraSlash(p: string)
    requires p != "" && p[0] == '/' && (|p| == 1 || p[1] == '/')
    ensures Components(p) == Components(p[1..]) && Squeezed(p) == Squeezed(p[1..])
  {
    assert SkipSlashes(p) == SkipSlashes(p[1..]);
  }

  lemma SlashedStep(name: string, rest: seq<string>)
    ensures Slashed([name] + rest) == "/" + name + Slashed(rest)
  {
    assert ([name] + rest)[1..] == rest;
  }

  lemma {:induction false} JoinedIsSlashed(first: string, names: seq<string>)
    ensures Joined([first] + names, "/") == first + Slashed(names)
    decreases |names|
  {
    if names != [] {
      assert ([first] + names)[1..] == [names[0]] + names[1..];
      JoinedIsSlashed(names[0], names[1..]);
    }
  }

  // ---------------------------------------------------------------- Printing and looking up

  lemma {:induction false} WalkMore(t: Table, from: nat, names: seq<string>, name: string)
    ensures Walk(t, from, names + [name]) ==
            if Walk(t, from, names).None? then None else Child(t, Walk(t, from, names).value, name)
    decreases |names|
  {
    if names != [] {
      assert (names + [name])[1..] == names[1..] + [name];
      var c := Child(t, from, names[0]);
      if c.Some? {
        WalkMore(t, c.value, names[1..], name);
      }
    } else {
      assert (names + [name])[1..] == [];
    }
  }

  lemma {:induction false} WalkNames(t: Table, rank: nat -> nat, id: nat)
    requires WellFormed(t) && Acyclic(t, rank) && Names(t, rank, id).Some?
    ensures Walk(t, 0, Names(t, rank, id).value) == Some(id)
    ensures forall n | n in Names(t, rank, id).value :: GoodName(n)
    decreases rank(id)
  {
    if id != 0 {
      var parent, name := t[id].parent, t[id].name;
      WalkNames(t, rank, parent);
      WalkMore(t, 0, Names(t, rank, parent).value, name);
      assert IsChild(t, parent, name, id);
    }
  }

  /** Looking up the printed path of a folder gives that folder. */
  lemma LookupOfPrinted(t: Table, rank: nat -> nat, id: nat)
    requires WellFormed(t) && Acyclic(t, rank) && Names(t, rank, id).Some?
    ensures Lookup(t, Printed(Names(t, rank, id).value)) == Some(id)
  {
    var names := Names(t, rank, id).value;
    WalkNames(t, rank, id);
    ComponentsOfSlashed(names);
    if names == [] {
      assert SkipSlashes("/") == SkipSlashes("") == "";
    }
  }

  lemma {:induction false} ComponentsAreNames(p: string)
    ensures forall n | n in Components(p) :: GoodName(n)
    decreases |p|
  {
    var q := SkipSlashes(p);
    if q != "" {
      ComponentsAreNames(q[NameLength(q)..]);
    }
  }

  lemma {:induction false} NamesOfWalk(t: Table, rank: nat -> nat, names: seq<string>, id: nat)
    requires WellFormed(t) && Acyclic(t, rank) && (forall n | n in names :: GoodName(n))
    requires Walk(t, 0, names) == Some(id)
    ensures Names(t, rank, id) == Some(names)
    decreases |names|
  {
    if names != [] {
      var init, name := names[..|names| - 1], names[|names| - 1];
      assert names == init + [name];
      assert name in names;
      WalkMore(t, 0, init, name);
      NamesOfWalk(t, rank, init, Walk(t, 0, init).value);
    }
  }

  /** Printing the folder that a path leads to gives the path back, without repeated and trailing slashes. */
  lemma PrintedOfLookup(t: Table, rank: nat -> nat, path: string, id: nat)
    requires WellFormed(t) && Acyclic(t, rank) && Lookup(t, path) == Some(id)
    ensures Names(t, rank, id).Some? && Printed(Names(t, rank, id).value) == Normal(path)
  {
    ComponentsAreNames(path);
    NamesOfWalk(t, rank, Components(path), id);
    SlashedComponents(path);
    assert Components(path) == [] <==> Slashed(Components(path)) == "";
  }

  /** Superfluous slashes make no difference to what is found, or to whether anything is. */
  lemma NormalFindsTheSame(t: Table, path: string)
    requires path != "" && path[0] == '/'
    ensures Lookup(t, Normal(path)) == Lookup(t, path)
  {
    var names := Components(path);
    ComponentsAreNames(path);
    SlashedComponents(path);
    ComponentsOfSlashed(names);
    if Squeezed(path) == "" {
      assert SkipSlashes("/") == SkipSlashes("") == "";
      assert Components("") == [];
    }
  }

  /** So two paths lead to the same folder exactly when they differ in superfluous slashes only. */
  lemma SameFolderSamePath(t: Table, rank: nat -> nat, a: string, b: string)
    requires WellFormed(t) && Acyclic(t, rank) && Lookup(t, a).Some? && Lookup(t, b).Some?
    ensures Lookup(t, a) == Lookup(t, b) <==> Normal(a) == Normal(b)
  {
    PrintedOfLookup(t, rank, a, Lookup(t, a).value);
    PrintedOfLookup(t, rank, b, Lookup(t, b).value);
    LookupOfPrinted(t, rank, Lookup(t, a).value);
    LookupOfPrinted(t, rank, Lookup(t, b).value);
  }

  // ---------------------------------------------------------------- The code

  /** SELECT id FROM folder WHERE parentfolderid=? AND name=? */
  method SelectId(t: Table, parent: nat, name: string) returns (row: Option<nat>)
    requires WellFormed(t)
    ensures row == Child(t, parent, name)
  {
    if exists id :: id in t && t[id] == Folder(parent, name) {
      var id :| id in t && t[id] == Folder(parent, name);
      row := Some(id);
      assert IsChild(t, parent, name, id);
    } else {
      row := None;
      forall id ensures !IsChild(t, parent, name, id) {
      }
    }
  }

  method SkipFrom(path: string, from: nat) returns (p: nat)
    requires from <= |path|
    ensures from <= p <= |path| && path[p..] == SkipSlashes(path[from..])
    ensures p < |path| ==> path[p] != '/'
  {
    p := from;
    while p < |path| && path[p] == '/'
      invariant from <= p <= |path| && SkipSlashes(path[p..]) == SkipSlashes(path[from..])
    {
      assert path[p..][1..] == path[p + 1..];
      p := p + 1;
    }
  }

  /** strchr for the next slash, or the rest of the path. */
  method NameFrom(path: string, p: nat) returns (len: nat)
    requires p <= |path|
    ensures p + len <= |path| && len == NameLength(path[p..])
  {
    len := 0;
    while p + len < |path| && path[p + len] != '/'
      invariant p + len <= |path| && len + NameLength(path[p + len..]) == NameLength(path[p..])
    {
      assert path[p + len..][1..] == path[p + len + 1..];
      len := len + 1;
    }
  }

  method GetFolderidByPath(t: Table, path: string) returns (r: Option<nat>)
    requires WellFormed(t)
    ensures r == Lookup(t, path)
  {
    hide WellFormed, Child, SkipSlashes, NameLength, GoodName;
    if path == "" || path[0] != '/' {
      return None;
    }
    var cfolderid: nat := 0;
    var p: nat := 0;
    while true
      invariant p <= |path| && Walk(t, cfolderid, Components(path[p..])) == Walk(t, 0, Components(path))
      decreases |path| - p
    {
      ghost var from := p;
      p := SkipFrom(path, p);
      if p == |path| {
        return Some(cfolderid);
      }
      var len := NameFrom(path, p);
      assert path[p..][..len] == path[p..p + len] && path[p..][len..] == path[p + len..];
      assert Components(path[from..]) == [path[p..p + len]] + Components(path[p + len..]);
      var row := SelectId(t, cfolderid, path[p..p + len]);
      if row.None? {
        return None;
      }
      PositiveName(path, p, len);
      cfolderid := row.value;
      p := p + len;
    }
  }

  lemma PositiveName(path: string, p: nat, len: nat)
    requires p < |path| && path[p] != '/' && len == NameLength(path[p..])
    ensures len > 0
  {
  }

  /** psync_add_path_to_list: an empty string for the root, then the names, collected from below. */
  method AddPathToList(t: Table, ghost rank: nat -> nat, folderid: nat) returns (r: Option<seq<string>>)
    requires Acyclic(t, rank)
    ensures r == match Names(t, rank, folderid) case None => None case Some(names) => Some([""] + names)
  {
    var id, lst := folderid, [];
    assert forall names: seq<string> :: names + [] == names;
    while id != 0
      invariant Names(t, rank, folderid) ==
                match Names(t, rank, id) case None => None case Some(names) => Some(names + lst)
      decreases rank(id)
    {
      if id !in t {
        return None;
      }
      assert forall names: seq<string> :: (names + [t[id].name]) + lst == names + ([t[id].name] + lst);
      lst := [t[id].name] + lst;
      id := t[id].parent;
    }
    assert [] + lst == lst;
    return Some([""] + lst);
  }

  function TotalLength(lst: seq<string>): (n: nat) {
    if lst == [] then 0 else TotalLength(lst[..|lst| - 1]) + |lst[|lst| - 1]|
  }

  /** Every string with the separator after it. */
  function Ended(lst: seq<string>, sep: string): (r: string)
    ensures |r| == TotalLength(lst) + |lst| * |sep|
  {
    if lst == [] then "" else Ended(lst[..|lst| - 1], sep) + lst[|lst| - 1] + sep
  }

  lemma {:induction false} EndedIsJoined(lst: seq<string>, sep: string)
    requires lst != []
    ensures Ended(lst, sep) == Joined(lst, sep) + sep
  {
    if |lst| == 1 {
      assert lst[..0] == [];
      assert Ended(lst, sep) == "" + lst[0] + sep;
    } else {
      EndedFront(lst, sep);
      EndedIsJoined(lst[1..], sep);
    }
  }

  lemma {:induction false} EndedFront(lst: seq<string>, sep: string)
    requires lst != []
    ensures Ended(lst, sep) == lst[0] + sep + Ended(lst[1..], sep)
  {
    var n := |lst| - 1;
    if n > 0 {
      EndedFront(lst[..n], sep);
      assert lst[..n][1..] == lst[1..][..n - 1];
    }
  }

  method CopyString(buf: array<char>, at: nat, s: string)
    requires at + |s| <= buf.Length
    modifies buf
    ensures buf[..at + |s|] == old(buf[..at]) + s
  {
    var i := 0;
    while i < |s|
      invariant 0 <= i <= |s| && buf[..at + i] == old(buf[..at]) + s[..i]
    {
      buf[at + i] := s[i];
      i := i + 1;
    }
  }

  /** psync_join_string_list: fills its buffer without going past its end, and ends the text with a NUL. */
  method JoinStringList(sep: string, lst: seq<string>) returns (ret: array<char>, retlen: nat)
    ensures fresh(ret) && retlen < ret.Length && ret[retlen] == '\0'
    ensures ret[..retlen] == Joined(lst, sep)
  {
    hide Joined;
    var slen: nat, i: nat := 0, 0;
    while i < |lst|
      invariant i <= |lst| && slen == TotalLength(lst[..i])
    {
      assert lst[..i + 1][..i] == lst[..i];
      slen := slen + |lst[i]|;
      i := i + 1;
    }
    assert lst[..|lst|] == lst;
    if lst == [] {
      JoinedNothing(sep);
      ret := new char[1](_ => '\0');
      return ret, 0;
    }
    ret := new char[slen + |lst| * |sep| + 1];
    var str := FillStrings(ret, sep, lst);
    EndedIsJoined(lst, sep);
    str := str - |sep|;
    assert ret[..str] == Joined(lst, sep);
    ret[str] := '\0';
    return ret, str;
  }

  lemma JoinedNothing(sep: string)
    ensures Joined([], sep) == ""
  {
  }

  /** The copying loop of psync_join_string_list. */
  method FillStrings(ret: array<char>, sep: string, lst: seq<string>) returns (str: nat)
    requires ret.Length == TotalLength(lst) + |lst| * |sep| + 1
    modifies ret
    ensures str == |Ended(lst, sep)| < ret.Length && ret[..str] == Ended(lst, sep)
  {
    hide Ended, TotalLength;
    EndedParts(lst, sep, 0);
    str := 0;
    var i: nat := 0;
    while i < |lst|
      invariant i <= |lst| && str == |Ended(lst[..i], sep)| && str < ret.Length && ret[..str] == Ended(lst[..i], sep)
    {
      EndedParts(lst, sep, i);
      CopyString(ret, str, lst[i]);
      str := str + |lst[i]|;
      CopyString(ret, str, sep);
      str := str + |sep|;
      i := i + 1;
    }
    assert lst[..|lst|] == lst;
  }

  lemma EndedParts(lst: seq<string>, sep: string, i: nat)
    ensures Ended([], sep) == ""
    ensures i < |lst| ==>
              Ended(lst[..i + 1], sep) == Ended(lst[..i], sep) + lst[i] + sep
              && |Ended(lst[..i + 1], sep)| <= TotalLength(lst) + |lst| * |sep|
  {
    if i < |lst| {
      assert lst[..i + 1][..i] == lst[..i];
      ShorterIsSmaller(lst, i + 1, sep);
    }
  }

  lemma {:induction false} ShorterIsSmaller(lst: seq<string>, i: nat, sep: string)
    requires i <= |lst|
    ensures |Ended(lst[..i], sep)| <= |Ended(lst, sep)|
  {
    if i == |lst| {
      assert lst[..i] == lst;
    } else {
      var n := |lst| - 1;
      assert lst[..n][..i] == lst[..i];
      ShorterIsSmaller(lst[..n], i, sep);
    }
  }

  /** psync_get_path_by_folderid */
  method GetPathByFolderid(t: Table, ghost rank: nat -> nat, folderid: nat) returns (r: Option<string>)
    requires Acyclic(t, rank)
    ensures r == match Names(t, rank, folderid) case None => None case Some(names) => Some(Printed(names))
  {
    var lst := AddPathToList(t, rank, folderid);
    if lst.None? {
      return None;
    }
    var ret, retlen := JoinStringList("/", lst.value);
    ghost var names := lst.value[1..];
    assert lst.value == [""] + names;
    JoinedIsSlashed("", names);
    assert "" + Slashed(names) == Slashed(names);
    if ret[0] == '\0' {
      return Some("/");
    }
    return Some(ret[..retlen]);
  }
}
