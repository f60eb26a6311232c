/** The table of template files built by walking a view directory (visit of ctrl/template.go). */
module TemplateFiles {
  import opened Wrappers
  import opened Text
  import opened FileWalk
  import opened Templates

  /** For each directory below the root, its template files in the order they were visited. */
  type Table = map<string, seq<string>>

  function SlashOf(c: char): char
  {
    if c == '\\' then '/' else c
  }

  function ToSlash(s: string): (r: string)
    ensures |r| == |s| && forall k :: 0 <= k < |s| ==> r[k] == SlashOf(s[k])
  {
    seq(|s|, k requires 0 <= k < |s| => SlashOf(s[k]))
  }

  /** `strings.TrimLeft(s, "/")` */
  function TrimLeft(s: string): string
  {
    if s != [] && s[0] == '/' then TrimLeft(s[1..]) else s
  }

  function LastSlash(s: string): (i: int)
    ensures -1 <= i < |s|
    ensures i >= 0 ==> s[i] == '/'
    ensures forall k :: i < k < |s| ==> s[k] != '/'
  {
    if s == [] then -1 else if s[|s| - 1] == '/' then |s| - 1 else LastSlash(s[..|s| - 1])
  }

  /** The directory part of a relative, cleaned file name. */
  function DirOf(file: string): string
  {
    var i := LastSlash(file);
    if i < 0 then "." else file[..i]
  }

  /** A visited path without the root. */
  function Relative(root: string, path: string): string
    requires |root| <= |path|
  {
    TrimLeft(ToSlash(path[|root|..]))
  }

  predicate IsTemplateFile(e: Event)
  {
    e.info.Info? && !e.info.isDir && !e.info.symlink && HasTemplateExt(e.path)
  }

  function Record(t: Table, file: string): Table
  {
    var dir := DirOf(file);
    t[dir := (if dir in t then t[dir] else []) + [file]]
  }

  /** The callback given to Walk; it only passes on the error of a root that could not be examined. */
  function VisitFn(root: string): Callback<Table>
  {
    (t: Table, e: Event) =>
      if e.info.Absent? then (t, e.err)
      else (if IsTemplateFile(e) && |root| <= |e.path| then Record(t, Relative(root, e.path)) else t, None)
  }

  class TemplateFile {
    const root: string
    var files: Table

    constructor (root: string)
      ensures this.root == root && files == map[]
    {
      this.root := root;
      files := map[];
    }

    /** Files a template under its directory. */
    method Visit(e: Event) returns (err: Option<Error>)
      requires |root| <= |e.path|
      modifies this
      ensures (files, err) == VisitFn(root)(old(files), e)
    {
      if e.info.Absent? {
        return e.err;
      }
      if e.info.isDir || e.info.symlink || !HasTemplateExt(e.path) {
        return None;
      }
      var file := Relative(root, e.path);
      var subDir := DirOf(file);
      files := files[subDir := (if subDir in files then files[subDir] else []) + [file]];
      return None;
    }

    method WalkDir(e: Entry, path: string) returns (err: Option<Error>)
      requires |root| <= |path|
      modifies this
      ensures Walked(files, err) == WalkEntry(VisitFn(root), e, path, old(files))
      decreases e
    {
      var err1 := Visit(EventOf(e, path));
      if e.Leaf? {
        return err1;
      }
      match e.listing {
        case Unopenable(why) =>
          return if err1.Some? then err1 else Some(why);
        case Unreadable(_) =>
          return err1;
        case Children(entries) =>
          if err1.Some? {
            return err1;
          }
          ghost var goal := WalkEntries(VisitFn(root), entries, path, files);
          assert entries[0..] == entries;
          for i := 0 to |entries|
            invariant goal == WalkEntries(VisitFn(root), entries[i..], path, files)
          {
            assert entries[i..][1..] == entries[i + 1..];
            err := WalkDir(entries[i], JoinPath(path, entries[i].name));
            if err.Some? {
              if entries[i].Leaf? || err.value != SkipDir {
                return;
              }
            }
          }
          return None;
      }
    }
  }

  // ---------------------------------------------------------------- what the table holds

  /** A root that cannot be opened or examined files nothing, and its error comes back unless it says to skip. */
  lemma RootFails(root: string, path: string, why: Error, t: Table)
    ensures Walk(VisitFn(root), Unopened(why), path, t) == Walked(t, Some(why))
    ensures Walk(VisitFn(root), Unexamined(why), path, t) == Walked(t, if why == SkipDir then None else Some(why))
  {
  }

  /** Every directory can be opened, so nothing stops the walk. */
  predicate Openable(e: Entry)
    decreases e, 1
  {
    e.Leaf? || (!e.listing.Unopenable? && (e.listing.Children? ==> AllOpenable(e.listing.entries)))
  }

  predicate AllOpenable(entries: seq<Entry>)
    decreases entries, 0
  {
    entries == [] || (Openable(entries[0]) && AllOpenable(entries[1..]))
  }

  /** The paths of the regular template files of a tree, in preorder. */
  function FilesIn(e: Entry, path: string): seq<string>
    decreases e, 1
  {
    match e
    case Leaf(_, symlink) => if !symlink && HasTemplateExt(path) then [path] else []
    case Dir(_, Children(entries)) => FilesInAll(entries, path)
    case _ => []
  }

  function FilesInAll(entries: seq<Entry>, path: string): seq<string>
    decreases entries, 0
  {
    if entries == [] then [] else FilesIn(entries[0], JoinPath(path, entries[0].name)) + FilesInAll(entries[1..], path)
  }

  function RecordAll(t: Table, root: string, paths: seq<string>): Table
    decreases |paths|
  {
    if paths == [] then t
    else RecordAll(if |root| <= |paths[0]| then Record(t, Relative(root, paths[0])) else t, root, paths[1..])
  }

  lemma {:induction false} RecordAllConcat(t: Table, root: string, a: seq<string>, b: seq<string>)
    ensures RecordAll(t, root, a + b) == RecordAll(RecordAll(t, root, a), root, b)
    decreases |a|
  {
    if a == [] {
      assert a + b == b;
    } else {
      assert (a + b)[1..] == a[1..] + b;
      RecordAllConcat(if |root| <= |a[0]| then Record(t, Relative(root, a[0])) else t, root, a[1..], b);
    }
  }

  lemma {:induction false} WalkRecords(root: string, e: Entry, path: string, t: Table)
    requires Openable(e)
    ensures WalkEntry(VisitFn(root), e, path, t) == Walked(RecordAll(t, root, FilesIn(e, path)), None)
    decreases e, 1
  {
    if e.Leaf? {
      assert [path][1..] == [];
    } else if e.listing.Children? {
      WalkRecordsAll(root, e.listing.entries, path, t);
    }
  }

  lemma {:induction false} WalkRecordsAll(root: string, entries: seq<Entry>, path: string, t: Table)
    requires AllOpenable(entries)
    ensures WalkEntries(VisitFn(root), entries, path, t) == Walked(RecordAll(t, root, FilesInAll(entries, path)), None)
    decreases entries, 0
  {
    if entries != [] {
      var p := JoinPath(path, entries[0].name);
      WalkRecords(root, entries[0], p, t);
      WalkRecordsAll(root, entries[1..], path, RecordAll(t, root, FilesIn(entries[0], p)));
      RecordAllConcat(t, root, FilesIn(entries[0], p), FilesInAll(entries[1..], path));
    }
  }

  /** The files of one directory, in order. */
  function Under(root: string, paths: seq<string>, dir: string): seq<string>
  {
    if paths == [] then []
    else (if |root| <= |paths[0]| && DirOf(Relative(root, paths[0])) == dir then [Relative(root, paths[0])] else [])
         + Under(root, paths[1..], dir)
  }

  function Get(t: Table, dir: string): seq<string>
  {
    if dir in t then t[dir] else []
  }

  lemma {:induction false} RecordAllMeaning(t: Table, root: string, paths: seq<string>, dir: string)
    ensures Get(RecordAll(t, root, paths), dir) == Get(t, dir) + Under(root, paths, dir)
    decreases |paths|
  {
    if paths == [] {
      assert Get(t, dir) + [] == Get(t, dir);
    } else {
      var t' := if |root| <= |paths[0]| then Record(t, Relative(root, paths[0])) else t;
      RecordAllMeaning(t', root, paths[1..], dir);
      assert RecordAll(t, root, paths) == RecordAll(t', root, paths[1..]);
      if |root| <= |paths[0]| && DirOf(Relative(root, paths[0])) == dir {
        Assoc(Get(t, dir), [Relative(root, paths[0])], Under(root, paths[1..], dir));
      } else {
        assert [] + Under(root, paths[1..], dir) == Under(root, paths[1..], dir);
      }
    }
  }

  /**
   Walking a view directory whose directories can all be opened succeeds, and the table then
   holds, under each directory, exactly the regular template files of that directory, in the
   order of the walk.
   */
  lemma TableMeaning(root: string, e: Entry, dir: string)
    requires Openable(e)
    ensures Walk(VisitFn(root), Found(e), root, map[]).err == None
    ensures Get(Walk(VisitFn(root), Found(e), root, map[]).state, dir) == Under(root, FilesIn(e, root), dir)
  {
    WalkRecords(root, e, root, map[]);
    RecordAllMeaning(map[], root, FilesIn(e, root), dir);
  }

  // ---------------------------------------------------------------- each file once

  /** Sibling names are distinct and free of slashes. */
  predicate NamesDistinct(e: Entry)
    decreases e, 1
  {
    e.Dir? && e.listing.Children? ==> AllNamesDistinct(e.listing.entries)
  }

  predicate AllNamesDistinct(entries: seq<Entry>)
    decreases entries, 0
  {
    entries == [] ||
    (NamesDistinct(entries[0]) && '/' !in entries[0].name &&
     (forall k :: 1 <= k < |entries| ==> entries[k].name != entries[0].name) && AllNamesDistinct(entries[1..]))
  }

  predicate NoDuplicates(paths: seq<string>)
  {
    forall i, j :: 0 <= i < j < |paths| ==> paths[i] != paths[j]
  }

  /** The path is `prefix`, or goes on with a slash. */
  predicate Below(path: string, prefix: string)
  {
    prefix <= path && (|path| == |prefix| || path[|prefix|] == '/')
  }

  lemma BelowJoin(path: string, dir: string, name: string)
    requires Below(path, JoinPath(dir, name))
    ensures Below(path, dir)
  {
    assert dir == JoinPath(dir, name)[..|dir|];
    assert JoinPath(dir, name)[|dir|] == '/';
  }

  predicate BelowSome(path: string, dir: string, entries: seq<Entry>)
  {
    exists j :: 0 <= j < |entries| && Below(path, JoinPath(dir, entries[j].name))
  }

  lemma {:induction false} FilesBelow(e: Entry, path: string)
    ensures forall f :: f in FilesIn(e, path) ==> Below(f, path)
    decreases e, 1
  {
    if e.Dir? && e.listing.Children? {
      var entries := e.listing.entries;
      FilesBelowSome(entries, path);
      forall f | f in FilesIn(e, path) ensures Below(f, path) {
        assert BelowSome(f, path, entries);
        var j :| 0 <= j < |entries| && Below(f, JoinPath(path, entries[j].name));
        BelowJoin(f, path, entries[j].name);
      }
    }
  }

  lemma {:induction false} FilesBelowSome(entries: seq<Entry>, path: string)
    ensures forall f :: f in FilesInAll(entries, path) ==> BelowSome(f, path, entries)
    decreases entries, 0
  {
    if entries != [] {
      var a := FilesIn(entries[0], JoinPath(path, entries[0].name));
      FilesBelow(entries[0], JoinPath(path, entries[0].name));
      FilesBelowSome(entries[1..], path);
      forall f | f in FilesInAll(entries, path) ensures BelowSome(f, path, entries) {
        if f in a {
          assert Below(f, JoinPath(path, entries[0].name));
        } else {
          assert BelowSome(f, path, entries[1..]);
          var j :| 0 <= j < |entries[1..]| && Below(f, JoinPath(path, entries[1..][j].name));
          assert entries[1..][j] == entries[j + 1];
        }
      }
    }
  }

  /** A path lies below at most one of several siblings. */
  lemma BelowOne(path: string, dir: string, n1: string, n2: string)
    requires Below(path, JoinPath(dir, n1)) && Below(path, JoinPath(dir, n2)) && '/' !in n1 && '/' !in n2
    ensures n1 == n2
  {
    var rest := path[|dir| + 1..];
    ComponentOf(path, dir, n1);
    ComponentOf(path, dir, n2);
    assert n1 == rest[..IndexAny(rest, "/")] == n2;
  }

  lemma ComponentOf(path: string, dir: string, name: string)
    requires Below(path, JoinPath(dir, name)) && '/' !in name
    ensures var rest := path[|dir| + 1..]; name == rest[..IndexAny(rest, "/")]
  {
    var rest := path[|dir| + 1..];
    var j := JoinPath(dir, name);
    assert j[|dir| + 1..] == name;
    assert path[..|j|] == j;
    assert rest[..|name|] == name by {
      assert path[..|j|][|dir| + 1..] == rest[..|name|];
    }
    assert forall k :: 0 <= k < |name| ==> rest[k] == name[k];
    IndexAnyUnique(rest, "/", |name|);
  }

  lemma {:induction false} FilesOnce(e: Entry, path: string)
    requires NamesDistinct(e)
    ensures NoDuplicates(FilesIn(e, path))
    decreases e, 1
  {
    if e.Dir? && e.listing.Children? {
      FilesOnceAll(e.listing.entries, path);
    }
  }

  /** No file is listed twice. */
  lemma {:induction false} FilesOnceAll(entries: seq<Entry>, path: string)
    requires AllNamesDistinct(entries)
    ensures NoDuplicates(FilesInAll(entries, path))
    decreases entries, 0
  {
    if entries != [] {
      var a := FilesIn(entries[0], JoinPath(path, entries[0].name));
      var b := FilesInAll(entries[1..], path);
      FilesOnce(entries[0], JoinPath(path, entries[0].name));
      FilesOnceAll(entries[1..], path);
      FilesBelow(entries[0], JoinPath(path, entries[0].name));
      FilesBelowSome(entries[1..], path);
      SlashFree(entries[1..]);
      forall i, j | 0 <= i < |a| && 0 <= j < |b| ensures a[i] != b[j] {
        assert b[j] in b && BelowSome(b[j], path, entries[1..]);
        var k :| 0 <= k < |entries[1..]| && Below(b[j], JoinPath(path, entries[1..][k].name));
        assert entries[1..][k] == entries[k + 1];
        assert a[i] in a;
        if a[i] == b[j] {
          BelowOne(a[i], path, entries[0].name, entries[k + 1].name);
        }
      }
      assert FilesInAll(entries, path) == a + b;
    }
  }

  lemma {:induction false} SlashFree(entries: seq<Entry>)
    requires AllNamesDistinct(entries)
    ensures forall k :: 0 <= k < |entries| ==> '/' !in entries[k].name
  {
    if entries != [] {
      SlashFree(entries[1..]);
      assert forall k :: 1 <= k < |entries| ==> entries[k] == entries[1..][k - 1];
    }
  }

  // ---------------------------------------------------------------- the table is the tree

  /** Names as a directory listing gives them. */
  predicate RealName(name: string)
  {
    name != "" && name != "." && '/' !in name
  }

  predicate RealNames(entries: seq<Entry>)
    decreases entries, 0
  {
    entries == [] ||
    (RealName(entries[0].name) && RealTree(entries[0]) &&
     (forall k :: 1 <= k < |entries| ==> entries[k].name != entries[0].name) && RealNames(entries[1..]))
  }

  predicate RealTree(e: Entry)
    decreases e, 1
  {
    e.Dir? && e.listing.Children? ==> RealNames(e.listing.entries)
  }

  /** The path of a directory, given by the names on the way to it. */
  function PathOf(root: string, names: seq<string>): (path: string)
    ensures |root| <= |path|
  {
    if names == [] then root else JoinPath(PathOf(root, names[..|names| - 1]), names[|names| - 1])
  }

  /** Where a directory's files are filed. */
  function DirKey(names: seq<string>): string
  {
    if names == [] then "." else Join(names, '/')
  }

  /** The entries of the directory reached by these names. */
  function DirAt(entries: seq<Entry>, names: seq<string>): Option<seq<Entry>>
    decreases |names|
  {
    if names == [] then Some(entries)
    else
      match Child(entries, names[0])
      case None => None
      case Some(below) => DirAt(below, names[1..])
  }

  function Child(entries: seq<Entry>, name: string): Option<seq<Entry>>
  {
    if entries == [] then None
    else if entries[0].name == name then
      if entries[0].Dir? && entries[0].listing.Children? then Some(entries[0].listing.entries) else None
    else Child(entries[1..], name)
  }

  /** The file names, relative to the root, of the template files directly in a directory. */
  function FilesHere(root: string, entries: seq<Entry>, names: seq<string>): seq<string>
    decreases |entries|
  {
    if entries == [] then []
    else
      (if entries[0].Leaf? && !entries[0].symlink && HasTemplateExt(PathOf(root, names + [entries[0].name]))
       then [Join(names + [entries[0].name], '/')] else []) +
      FilesHere(root, entries[1..], names)
  }

  predicate AllReal(names: seq<string>)
  {
    forall k :: 0 <= k < |names| ==> RealName(names[k])
  }

  // Paths as joined names.

  lemma {:induction false} JoinLast(names: seq<string>, name: string)
    requires names != []
    ensures Join(names + [name], '/') == Join(names, '/') + ['/'] + name
  {
    if |names| == 1 {
      assert (names + [name])[1..] == [name];
    } else {
      assert (names + [name])[1..] == names[1..] + [name];
      JoinLast(names[1..], name);
      Assoc(names[0] + ['/'], Join(names[1..], '/') + ['/'], name);
      Assoc(names[0] + ['/'], Join(names[1..], '/'), ['/']);
    }
  }

  lemma {:induction false} PathIsJoin(root: string, names: seq<string>)
    requires names != []
    ensures PathOf(root, names) == root + ['/'] + Join(names, '/')
  {
    var before, name := names[..|names| - 1], names[|names| - 1];
    if before == [] {
      assert names == [name];
    } else {
      PathIsJoin(root, before);
      JoinLast(before, name);
      assert names == before + [name];
      Assoc(root + ['/'], Join(before, '/') + ['/'], name);
      Assoc(root + ['/'], Join(before, '/'), ['/']);
    }
  }

  lemma ToSlashSame(s: string)
    requires '\\' !in s
    ensures ToSlash(s) == s
  {
  }

  lemma {:induction false} JoinStart(names: seq<string>)
    requires names != [] && AllReal(names)
    ensures Join(names, '/') != "" && Join(names, '/')[0] != '/'
  {
    assert RealName(names[0]) && names[0][0] in names[0];
  }

  lemma BehindRoot(root: string, names: seq<string>)
    requires names != []
    ensures PathOf(root, names)[|root|..] == ['/'] + Join(names, '/')
  {
    PathIsJoin(root, names);
    Assoc(root, ['/'], Join(names, '/'));
  }

  /** Of a path without backslashes visit keeps the names joined by slashes. */
  lemma RelativeIsJoin(root: string, names: seq<string>)
    requires names != [] && AllReal(names) && '\\' !in PathOf(root, names)[|root|..]
    ensures Relative(root, PathOf(root, names)) == Join(names, '/')
  {
    var j := Join(names, '/');
    BehindRoot(root, names);
    ToSlashSame(['/'] + j);
    JoinStart(names);
    assert (['/'] + j)[1..] == j;
    assert TrimLeft(['/'] + j) == TrimLeft(j) == j;
  }

  /** And the directory part of that is the key of the directory. */
  lemma DirOfJoin(names: seq<string>, name: string)
    requires '/' !in name
    ensures DirOf(Join(names + [name], '/')) == DirKey(names)
  {
    if names == [] {
      assert names + [name] == [name];
    } else {
      JoinLast(names, name);
      var f, d := Join(names + [name], '/'), Join(names, '/');
      assert f == (d + ['/']) + name;
      assert f[|d|] == '/' && f[..|d|] == d;
      assert forall k :: |d| < k < |f| ==> f[k] == name[k - |d| - 1];
    }
  }

  /** Different directories have different keys. */
  lemma DirKeyInjective(a: seq<string>, b: seq<string>)
    requires AllReal(a) && AllReal(b) && DirKey(a) == DirKey(b)
    ensures a == b
  {
    if a != [] && b != [] {
      SplitOfJoin(a, '/');
      SplitOfJoin(b, '/');
    } else if a != [] {
      NotDot(a);
    } else if b != [] {
      NotDot(b);
    }
  }

  lemma NotDot(a: seq<string>)
    requires a != [] && AllReal(a)
    ensures Join(a, '/') != "."
  {
    if |a| > 1 {
      assert RealName(a[0]);
      assert |Join(a, '/')| >= 2;
    }
  }

  // Selecting the files of one directory.

  lemma {:induction false} UnderConcat(root: string, a: seq<string>, b: seq<string>, dir: string)
    ensures Under(root, a + b, dir) == Under(root, a, dir) + Under(root, b, dir)
    decreases |a|
  {
    if a == [] {
      assert a + b == b;
    } else {
      assert (a + b)[0] == a[0] && (a + b)[1..] == a[1..] + b;
      UnderConcat(root, a[1..], b, dir);
      Assoc(if |root| <= |a[0]| && DirOf(Relative(root, a[0])) == dir then [Relative(root, a[0])] else [],
            Under(root, a[1..], dir), Under(root, b, dir));
    }
  }

  /** No backslash stands in any of the paths behind the root. */
  predicate NoBackslash(root: string, paths: seq<string>)
  {
    forall k :: 0 <= k < |paths| ==> |root| <= |paths[k]| && '\\' !in paths[k][|root|..]
  }

  /** What the walk below `names` files under `target`. */
  function Selected(root: string, entries: seq<Entry>, names: seq<string>, target: seq<string>): seq<string>
    decreases |target| + 1 - |names|
  {
    if target == names then FilesHere(root, entries, names)
    else if names < target then
      match Child(entries, target[|names|])
      case None => []
      case Some(below) => Selected(root, below, names + [target[|names|]], target)
    else []
  }

  lemma UnderLeaf(root: string, name: string, names: seq<string>, target: seq<string>)
    requires AllReal(names) && AllReal(target) && RealName(name)
    requires NoBackslash(root, [PathOf(root, names + [name])])
    ensures Under(root, [PathOf(root, names + [name])], DirKey(target)) ==
            if target == names then [Join(names + [name], '/')] else []
  {
    var all := names + [name];
    var p := PathOf(root, all);
    assert [p][0] == p && [p][1..] == [];
    RelativeIsJoin(root, all);
    DirOfJoin(names, name);
    if DirKey(target) == DirKey(names) {
      DirKeyInjective(target, names);
    }
  }

  lemma NoBackslashSplit(root: string, a: seq<string>, b: seq<string>)
    requires NoBackslash(root, a + b)
    ensures NoBackslash(root, a) && NoBackslash(root, b)
  {
    assert forall k :: 0 <= k < |a| ==> a[k] == (a + b)[k];
    assert forall k :: 0 <= k < |b| ==> b[k] == (a + b)[|a| + k];
  }

  lemma PathOfLast(root: string, names: seq<string>, name: string)
    ensures PathOf(root, names + [name]) == JoinPath(PathOf(root, names), name)
  {
    assert (names + [name])[..|names|] == names;
  }

  lemma {:induction false} UnderEntry(root: string, e: Entry, names: seq<string>, target: seq<string>)
    requires RealTree(e) && RealName(e.name) && AllReal(names) && AllReal(target)
    requires NoBackslash(root, FilesIn(e, PathOf(root, names + [e.name])))
    ensures Under(root, FilesIn(e, PathOf(root, names + [e.name])), DirKey(target)) ==
            if e.Leaf? then if target == names then FilesHere(root, [e], names) else []
            else if e.listing.Children? then Selected(root, e.listing.entries, names + [e.name], target)
            else []
    decreases e, 1
  {
    if e.Leaf? {
      assert [e][1..] == [];
      if FilesIn(e, PathOf(root, names + [e.name])) != [] {
        UnderLeaf(root, e.name, names, target);
      }
    } else if e.listing.Children? {
      UnderEntries(root, e.listing.entries, names + [e.name], target);
    }
  }

  lemma {:induction false} UnderEntries(root: string, entries: seq<Entry>, names: seq<string>, target: seq<string>)
    requires RealNames(entries) && AllReal(names) && AllReal(target)
    requires NoBackslash(root, FilesInAll(entries, PathOf(root, names)))
    ensures Under(root, FilesInAll(entries, PathOf(root, names)), DirKey(target)) ==
              Selected(root, entries, names, target)
    decreases entries, 0
  {
    if entries == [] {
      SelectedNothing(root, names, target);
    } else {
      var e, rest := entries[0], entries[1..];
      var path := PathOf(root, names);
      PathOfLast(root, names, e.name);
      var a, b := FilesIn(e, JoinPath(path, e.name)), FilesInAll(rest, path);
      NoBackslashSplit(root, a, b);
      UnderConcat(root, a, b, DirKey(target));
      UnderEntry(root, e, names, target);
      UnderEntries(root, rest, names, target);
      SelectedStep(root, entries, names, target);
    }
  }

  lemma SelectedNothing(root: string, names: seq<string>, target: seq<string>)
    ensures Selected(root, [], names, target) == []
  {
  }

  /** Only the first entry with a name counts, and it is the only one. */
  lemma SelectedStep(root: string, entries: seq<Entry>, names: seq<string>, target: seq<string>)
    requires entries != [] && RealNames(entries)
    ensures var e := entries[0];
            Selected(root, entries, names, target) ==
            (if e.Leaf? then if target == names then FilesHere(root, [e], names) else []
             else if e.listing.Children? then Selected(root, e.listing.entries, names + [e.name], target)
             else []) + Selected(root, entries[1..], names, target)
  {
    var e, rest := entries[0], entries[1..];
    assert [e][0] == e && [e][1..] == [];
    if target == names {
      assert FilesHere(root, [e], names) + FilesHere(root, rest, names) == FilesHere(root, entries, names);
    } else if names < target {
      ChildAbsent(rest, e.name);
      if e.name == target[|names|] {
        assert Selected(root, rest, names, target) == [];
      } else {
        assert !(names + [e.name] <= target);
      }
    } else {
      assert !(names + [e.name] <= target);
    }
  }

  lemma {:induction false} ChildAbsent(entries: seq<Entry>, name: string)
    ensures (forall k :: 0 <= k < |entries| ==> entries[k].name != name) ==> Child(entries, name) == None
  {
    if entries != [] {
      assert forall k :: 1 <= k < |entries| ==> entries[k] == entries[1..][k - 1];
      ChildAbsent(entries[1..], name);
    }
  }

  lemma {:induction false} SelectedIsDirAt(root: string, entries: seq<Entry>, names: seq<string>, more: seq<string>)
    ensures Selected(root, entries, names, names + more) ==
            match DirAt(entries, more)
            case None => []
            case Some(below) => FilesHere(root, below, names + more)
    decreases |more|
  {
    if more == [] {
      assert names + more == names;
    } else {
      var target := names + more;
      assert names < target && target[|names|] == more[0];
      var c := Child(entries, more[0]);
      if c.Some? {
        assert names + [more[0]] + more[1..] == target;
        SelectedIsDirAt(root, c.value, names + [more[0]], more[1..]);
      }
    }
  }

  // ---------------------------------------------------------------- the whole table

  /**
   Each directory of the tree has its regular template files, and no others, filed once each, in
   the order of its listing, under its own key; and there are no other keys.
   */
  ghost predicate FiledInPlace(t: Table, root: string, entries: seq<Entry>)
  {
    (forall names :: AllReal(names) ==>
       Get(t, DirKey(names)) == match DirAt(entries, names)
                                case None => []
                                case Some(here) => FilesHere(root, here, names)) &&
    forall k :: k in t ==> exists names :: AllReal(names) && DirAt(entries, names).Some? && k == DirKey(names)
  }

  lemma {:induction false} NoEmptyKeys(t: Table, root: string, paths: seq<string>)
    requires forall k :: k in t ==> t[k] != []
    ensures forall k :: k in RecordAll(t, root, paths) ==> RecordAll(t, root, paths)[k] != []
    decreases |paths|
  {
    if paths != [] {
      NoEmptyKeys(if |root| <= |paths[0]| then Record(t, Relative(root, paths[0])) else t, root, paths[1..]);
    }
  }

  /** Where a file of the walk lies: in a directory of the tree, under its own name there. */
  ghost predicate Located(root: string, entries: seq<Entry>, names: seq<string>, f: string, more: seq<string>)
  {
    AllReal(more) && |root| < |f| && DirAt(entries, more).Some? &&
    f[|root| + 1..] in FilesHere(root, DirAt(entries, more).value, names + more)
  }

  lemma LocatedHere(root: string, entries: seq<Entry>, names: seq<string>)
    requires entries != [] && entries[0].Leaf? && !entries[0].symlink
    requires HasTemplateExt(PathOf(root, names + [entries[0].name]))
    ensures Located(root, entries, names, PathOf(root, names + [entries[0].name]), [])
  {
    var all := names + [entries[0].name];
    var f := PathOf(root, all);
    BehindRoot(root, all);
    assert f[|root| + 1..] == f[|root|..][1..] == Join(all, '/');
    assert names + [] == names;
  }

  lemma LocatedBelow(root: string, entries: seq<Entry>, names: seq<string>, f: string, more: seq<string>)
    requires entries != [] && RealName(entries[0].name) && entries[0].Dir? && entries[0].listing.Children?
    requires Located(root, entries[0].listing.entries, names + [entries[0].name], f, more)
    ensures Located(root, entries, names, f, [entries[0].name] + more)
  {
    var all := [entries[0].name] + more;
    assert all[1..] == more;
    assert names + all == names + [entries[0].name] + more;
  }

  lemma {:induction false} FileLocated(root: string, entries: seq<Entry>, names: seq<string>, f: string)
    returns (more: seq<string>)
    requires RealNames(entries) && f in FilesInAll(entries, PathOf(root, names))
    ensures Located(root, entries, names, f, more)
    decreases entries, 0
  {
    var e := entries[0];
    PathOfLast(root, names, e.name);
    if f in FilesIn(e, PathOf(root, names + [e.name])) {
      if e.Leaf? {
        more := [];
        LocatedHere(root, entries, names);
      } else {
        var below := FileLocated(root, e.listing.entries, names + [e.name], f);
        more := [e.name] + below;
        LocatedBelow(root, entries, names, f, below);
      }
    } else {
      more := FileLocated(root, entries[1..], names, f);
      LocatedLater(root, entries, names, f, more);
    }
  }

  lemma LocatedLater(root: string, entries: seq<Entry>, names: seq<string>, f: string, more: seq<string>)
    requires entries != [] && RealNames(entries) && Located(root, entries[1..], names, f, more)
    ensures Located(root, entries, names, f, more)
  {
    if more != [] {
      ChildAbsent(entries[1..], entries[0].name);
    }
  }

  lemma {:induction false} HereIsNamed(root: string, entries: seq<Entry>, names: seq<string>, f: string)
    requires RealNames(entries) && f in FilesHere(root, entries, names)
    ensures exists k :: 0 <= k < |entries| && RealName(entries[k].name) && f == Join(names + [entries[k].name], '/')
    decreases |entries|
  {
    if f in FilesHere(root, entries[1..], names) {
      HereIsNamed(root, entries[1..], names, f);
      var k :| 0 <= k < |entries[1..]| && RealName(entries[1..][k].name) &&
        f == Join(names + [entries[1..][k].name], '/');
      assert entries[1..][k] == entries[k + 1];
    } else {
      assert RealName(entries[0].name) && f == Join(names + [entries[0].name], '/');
    }
  }

  lemma {:induction false} RealBelow(entries: seq<Entry>, names: seq<string>)
    requires RealNames(entries) && DirAt(entries, names).Some?
    ensures RealNames(DirAt(entries, names).value)
    decreases |names|
  {
    if names != [] {
      RealChild(entries, names[0]);
      RealBelow(Child(entries, names[0]).value, names[1..]);
    }
  }

  lemma {:induction false} RealChild(entries: seq<Entry>, name: string)
    requires RealNames(entries) && Child(entries, name).Some?
    ensures RealNames(Child(entries, name).value)
  {
    if entries[0].name != name {
      RealChild(entries[1..], name);
    }
  }

  /** What visit keeps has no backslash. */
  lemma {:induction false} KeptIsSlashed(root: string, paths: seq<string>, dir: string)
    ensures forall f :: f in Under(root, paths, dir) ==> '\\' !in f && DirOf(f) == dir
    decreases |paths|
  {
    if paths != [] {
      KeptIsSlashed(root, paths[1..], dir);
      if |root| <= |paths[0]| {
        TrimmedFrom(ToSlash(paths[0][|root|..]));
      }
    }
  }

  lemma {:induction false} TrimmedFrom(s: string)
    ensures forall c :: c in TrimLeft(s) ==> c in s
  {
    if s != [] && s[0] == '/' {
      TrimmedFrom(s[1..]);
    }
  }

  /** The table after walking a whole view directory. */
  function TableOf(root: string, name: string, entries: seq<Entry>): Table
  {
    Walk(VisitFn(root), Found(Dir(name, Children(entries))), root, map[]).state
  }

  lemma TableIsUnder(root: string, name: string, entries: seq<Entry>, dir: string)
    requires AllOpenable(entries)
    ensures Get(TableOf(root, name, entries), dir) == Under(root, FilesInAll(entries, root), dir)
    ensures dir in TableOf(root, name, entries) ==> Get(TableOf(root, name, entries), dir) != []
  {
    var e := Dir(name, Children(entries));
    assert FilesIn(e, root) == FilesInAll(entries, root);
    TableMeaning(root, e, dir);
    WalkRecords(root, e, root, map[]);
    NoEmptyKeys(map[], root, FilesInAll(entries, root));
  }

  lemma FiledWithoutBackslash(root: string, name: string, entries: seq<Entry>, names: seq<string>)
    requires AllOpenable(entries) && RealNames(entries) && NoBackslash(root, FilesInAll(entries, root)) &&
              AllReal(names)
    ensures Get(TableOf(root, name, entries), DirKey(names)) == match DirAt(entries, names)
                                                                case None => []
                                                                case Some(here) => FilesHere(root, here, names)
  {
    TableIsUnder(root, name, entries, DirKey(names));
    UnderEntries(root, entries, [], names);
    SelectedIsDirAt(root, entries, [], names);
    assert [] + names == names;
  }

  lemma {:induction false} FromUnder(root: string, paths: seq<string>, dir: string) returns (f: string)
    requires Under(root, paths, dir) != []
    ensures f in paths && |root| <= |f| && DirOf(Relative(root, f)) == dir
    decreases |paths|
  {
    if |root| <= |paths[0]| && DirOf(Relative(root, paths[0])) == dir {
      f := paths[0];
    } else {
      f := FromUnder(root, paths[1..], dir);
    }
  }

  lemma {:induction false} FilesBehindRoot(root: string, entries: seq<Entry>, names: seq<string>)
    ensures forall f :: f in FilesInAll(entries, PathOf(root, names)) ==> JoinPath(root, "") <= f
    decreases entries, 0
  {
    if entries != [] {
      PathOfLast(root, names, entries[0].name);
      FileBehindRoot(root, entries[0], names);
      FilesBehindRoot(root, entries[1..], names);
    }
  }

  lemma {:induction false} FileBehindRoot(root: string, e: Entry, names: seq<string>)
    ensures forall f :: f in FilesIn(e, PathOf(root, names + [e.name])) ==> JoinPath(root, "") <= f
    decreases e, 1
  {
    PathIsJoin(root, names + [e.name]);
    if e.Dir? && e.listing.Children? {
      FilesBehindRoot(root, e.listing.entries, names + [e.name]);
    }
  }

  lemma BehindPrefix(root: string, f: string)
    requires JoinPath(root, "") <= f
    ensures f == root + ['/'] + f[|root| + 1..]
  {
    assert JoinPath(root, "") == root + ['/'];
    assert f == f[..|root| + 1] + f[|root| + 1..];
  }

  lemma LocatedOwn(root: string, entries: seq<Entry>, f: string, names: seq<string>) returns (own: string)
    requires RealNames(entries) && Located(root, entries, [], f, names)
    ensures RealName(own) && f[|root| + 1..] == Join(names + [own], '/')
  {
    var here := DirAt(entries, names).value;
    RealBelow(entries, names);
    assert [] + names == names;
    HereIsNamed(root, here, names, f[|root| + 1..]);
    var k :| 0 <= k < |here| && RealName(here[k].name) && f[|root| + 1..] == Join(names + [here[k].name], '/');
    own := here[k].name;
  }

  /** A located file is the path of its directory and its own name there. */
  lemma LocatedNames(root: string, entries: seq<Entry>, f: string, names: seq<string>) returns (own: string)
    requires RealNames(entries) && Located(root, entries, [], f, names) && JoinPath(root, "") <= f
    ensures RealName(own) && f == PathOf(root, names + [own])
  {
    own := LocatedOwn(root, entries, f, names);
    PathIsJoin(root, names + [own]);
    BehindPrefix(root, f);
  }

  lemma KeyIsDirectory(root: string, name: string, entries: seq<Entry>, k: string) returns (names: seq<string>)
    requires AllOpenable(entries) && RealNames(entries) && NoBackslash(root, FilesInAll(entries, root))
    requires k in TableOf(root, name, entries)
    ensures AllReal(names) && DirAt(entries, names).Some? && k == DirKey(names)
  {
    TableIsUnder(root, name, entries, k);
    var f := FromUnder(root, FilesInAll(entries, root), k);
    names := FileLocated(root, entries, [], f);
    FilesBehindRoot(root, entries, []);
    var own := LocatedNames(root, entries, f, names);
    RelativeIsJoin(root, names + [own]);
    DirOfJoin(names, own);
  }

  lemma BackslashBehind(root: string, f: string)
    requires JoinPath(root, "") <= f && '\\' in f[|root|..]
    ensures '\\' in f[|root| + 1..]
  {
    assert f[..|root| + 1] == JoinPath(root, "");
    assert f[|root|..] == ['/'] + f[|root| + 1..];
  }

  /** A template file with a backslash in its path is missing from its directory's entry. */
  lemma BackslashMisfiled(root: string, name: string, entries: seq<Entry>, f: string)
    requires AllOpenable(entries) && RealNames(entries)
    requires f in FilesInAll(entries, root) && JoinPath(root, "") <= f && '\\' in f[|root|..]
    ensures !FiledInPlace(TableOf(root, name, entries), root, entries)
  {
    var names := FileLocated(root, entries, [], f);
    var g := f[|root| + 1..];
    BackslashBehind(root, f);
    assert [] + names == names;
    TableIsUnder(root, name, entries, DirKey(names));
    KeptIsSlashed(root, FilesInAll(entries, root), DirKey(names));
    NotInPlace(TableOf(root, name, entries), root, entries, names, g);
  }

  lemma NotInPlace(t: Table, root: string, entries: seq<Entry>, names: seq<string>, g: string)
    requires AllReal(names) && DirAt(entries, names).Some?
    requires g in FilesHere(root, DirAt(entries, names).value, names) && g !in Get(t, DirKey(names))
    ensures !FiledInPlace(t, root, entries)
  {
  }

  /**
   The table is the directory tree, file by file, if and only if no regular template file has a
   backslash in its path below the root; visit turns backslashes into slashes.
   */
  lemma FiledInPlaceIff(root: string, name: string, entries: seq<Entry>)
    requires AllOpenable(entries) && RealNames(entries)
    ensures FiledInPlace(TableOf(root, name, entries), root, entries) <==> NoBackslash(root, FilesInAll(entries, root))
  {
    var t, paths := TableOf(root, name, entries), FilesInAll(entries, root);
    FilesBehindRoot(root, entries, []);
    if NoBackslash(root, paths) {
      forall names | AllReal(names)
        ensures Get(t, DirKey(names)) == match DirAt(entries, names)
                                         case None => []
                                         case Some(here) => FilesHere(root, here, names)
      {
        FiledWithoutBackslash(root, name, entries, names);
      }
      forall k | k in t ensures exists names :: AllReal(names) && DirAt(entries, names).Some? && k == DirKey(names) {
        var names := KeyIsDirectory(root, name, entries, k);
      }
    } else {
      var k :| 0 <= k < |paths| && !(|root| <= |paths[k]| && '\\' !in paths[k][|root|..]);
      assert paths == FilesInAll(entries, PathOf(root, [])) && paths[k] in paths;
      assert JoinPath(root, "") <= paths[k];
      BackslashMisfiled(root, name, entries, paths[k]);
    }
  }

  lemma {:induction false} HereOnce(root: string, entries: seq<Entry>, names: seq<string>)
    requires RealNames(entries)
    ensures NoDuplicates(FilesHere(root, entries, names))
    ensures forall f :: f in FilesHere(root, entries, names) ==> DirOf(f) == DirKey(names)
    decreases |entries|
  {
    if entries != [] {
      HereOnce(root, entries[1..], names);
      DirOfJoin(names, entries[0].name);
      var rest := FilesHere(root, entries[1..], names);
      forall f | f in rest ensures f != Join(names + [entries[0].name], '/') {
        HereIsNamed(root, entries[1..], names, f);
        var k :| 0 <= k < |entries[1..]| && RealName(entries[1..][k].name) &&
          f == Join(names + [entries[1..][k].name], '/');
        assert entries[1..][k] == entries[k + 1];
        if f == Join(names + [entries[0].name], '/') {
          SameLast(names, entries[k + 1].name, entries[0].name);
        }
      }
      assert forall j :: 0 <= j < |rest| ==> rest[j] in rest;
    }
  }

  lemma SameLast(names: seq<string>, a: string, b: string)
    requires Join(names + [a], '/') == Join(names + [b], '/')
    ensures a == b
  {
    if names == [] {
      assert names + [a] == [a] && names + [b] == [b];
    } else {
      JoinLast(names, a);
      JoinLast(names, b);
      var d := Join(names, '/') + ['/'];
      assert a == (d + a)[|d|..] && b == (d + b)[|d|..];
    }
  }

  /** In a table that is in place no file occurs twice, be it under one key or under two. */
  lemma FiledOnce(root: string, entries: seq<Entry>, t: Table, k: string, i: nat, l: string, j: nat)
    requires RealNames(entries) && FiledInPlace(t, root, entries)
    requires k in t && i < |t[k]| && l in t && j < |t[l]| && t[k][i] == t[l][j]
    ensures k == l && i == j
  {
    var names :| AllReal(names) && DirAt(entries, names).Some? && k == DirKey(names);
    var others :| AllReal(others) && DirAt(entries, others).Some? && l == DirKey(others);
    RealBelow(entries, names);
    RealBelow(entries, others);
    HereOnce(root, DirAt(entries, names).value, names);
    HereOnce(root, DirAt(entries, others).value, others);
    assert t[k] == FilesHere(root, DirAt(entries, names).value, names);
    assert t[l] == FilesHere(root, DirAt(entries, others).value, others);
    assert t[k][i] in t[k] && t[l][j] in t[l];
  }

  lemma SlashedName(root: string, dir: string, name: string)
    requires RealName(dir) && '\\' !in dir && '\\' !in name
    ensures Relative(root, JoinPath(root, dir + ['\\'] + name)) == dir + ['/'] + name
  {
    var path := JoinPath(root, dir + ['\\'] + name);
    var slashed := dir + ['/'] + name;
    assert path[|root|..] == ['/'] + (dir + ['\\'] + name);
    assert forall k :: 0 <= k < |dir| ==> dir[k] in dir;
    assert forall k :: 0 <= k < |name| ==> name[k] in name;
    assert ToSlash(path[|root|..]) == ['/'] + slashed;
    assert (['/'] + slashed)[1..] == slashed;
    assert dir[0] in dir && slashed[0] != '/';
    assert TrimLeft(slashed) == slashed;
  }

  lemma {:induction false} SuffixOfLonger(before: string, s: string, suffix: string)
    requires HasSuffix(s, suffix)
    ensures HasSuffix(before + s, suffix)
  {
    var all := before + s;
    assert all[|all| - |suffix|..] == s[|s| - |suffix|..];
  }

  lemma ExtOfLonger(before: string, s: string)
    requires HasTemplateExt(s)
    ensures HasTemplateExt(before + s)
  {
    if HasSuffix(s, ".tpl") {
      SuffixOfLonger(before, s, ".tpl");
    } else if HasSuffix(s, ".html") {
      SuffixOfLonger(before, s, ".html");
    } else {
      SuffixOfLonger(before, s, ".gohtml");
    }
  }

  lemma SingleEntry(e: Entry, path: string)
    requires RealName(e.name) && RealTree(e) && Openable(e)
    ensures RealNames([e]) && AllOpenable([e]) && FilesInAll([e], path) == FilesIn(e, JoinPath(path, e.name))
  {
    var none: seq<Entry> := [];
    assert [e][1..] == none && RealNames(none) && AllOpenable(none) && FilesInAll(none, path) == [];
  }

  lemma TwoEntries(a: Entry, b: Entry, path: string)
    requires RealName(a.name) && RealTree(a) && Openable(a) && RealName(b.name) && RealTree(b) && Openable(b)
    requires a.name != b.name
    ensures RealNames([a, b]) && AllOpenable([a, b])
    ensures FilesInAll([a, b], path) == FilesIn(a, JoinPath(path, a.name)) + FilesIn(b, JoinPath(path, b.name))
  {
    assert [a, b][1..] == [b];
    SingleEntry(b, path);
  }

  /** Both names have the extension, and the one with the backslash is not that of the directory. */
  lemma BackslashNames(root: string, dir: string, name: string)
    requires RealName(dir) && RealName(name) && HasTemplateExt(name)
    ensures RealName(dir + ['\\'] + name) && dir + ['\\'] + name != dir
    ensures HasTemplateExt(JoinPath(root, dir + ['\\'] + name)) && HasTemplateExt(JoinPath(JoinPath(root, dir), name))
  {
    assert |dir + ['\\'] + name| > |dir|;
    ExtOfLonger(root + ['/'] + dir + ['\\'], name);
    assert JoinPath(root, dir + ['\\'] + name) == (root + ['/'] + dir + ['\\']) + name;
    ExtOfLonger(JoinPath(root, dir) + ['/'], name);
  }

  /** A name with a backslash is filed under the directory before it, beside the file of that name there. */
  lemma BackslashFiledTwice(root: string, view: string, dir: string, name: string)
    requires RealName(dir) && RealName(name) && '\\' !in root && '\\' !in dir && '\\' !in name && HasTemplateExt(name)
    ensures var inner := [Leaf(name, false)];
            var entries := [Leaf(dir + ['\\'] + name, false), Dir(dir, Children(inner))];
            RealNames(entries) && AllOpenable(entries) &&
            Get(TableOf(root, view, entries), dir) == [dir + ['/'] + name, dir + ['/'] + name]
  {
    var leaf := Leaf(name, false);
    var first, second := Leaf(dir + ['\\'] + name, false), Dir(dir, Children([leaf]));
    BackslashNames(root, dir, name);
    SingleEntry(leaf, JoinPath(root, dir));
    TwoEntries(first, second, root);
    TableIsUnder(root, view, [first, second], dir);
    FiledBoth(root, dir, name);
  }

  lemma FiledBoth(root: string, dir: string, name: string)
    requires RealName(dir) && RealName(name) && '\\' !in dir && '\\' !in name
    ensures Under(root, [JoinPath(root, dir + ['\\'] + name)] + [JoinPath(JoinPath(root, dir), name)], dir) ==
            [dir + ['/'] + name, dir + ['/'] + name]
  {
    var one, two := JoinPath(root, dir + ['\\'] + name), JoinPath(JoinPath(root, dir), name);
    var file := dir + ['/'] + name;
    SlashedName(root, dir, name);
    PathOfLast(root, [dir], name);
    assert [dir][..0] == [] && PathOf(root, [dir]) == JoinPath(root, dir);
    assert [dir] + [name] == [dir, name];
    JoinLast([dir], name);
    assert Join([dir, name], '/') == file;
    BehindRoot(root, [dir, name]);
    assert forall k :: 0 <= k < |file| ==> file[k] != '\\' by {
      assert forall k :: 0 <= k < |dir| ==> dir[k] in dir;
      assert forall k :: 0 <= k < |name| ==> name[k] in name;
    }
    RelativeIsJoin(root, [dir, name]);
    DirOfJoin([dir], name);
    assert [one][1..] == [] && [two][1..] == [];
    UnderConcat(root, [one], [two], dir);
  }
}
