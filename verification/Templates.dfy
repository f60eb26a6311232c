/**
 Loading a template with everything it includes (getTplDeep and _getTemplate of
 ctrl/template.go). A file is what the code sees of it: whether it parses, the names its
 `template` tags refer to, the names its `define` tags are seen to define, and the names the
 parser defines.
 */
module Templates {

  datatype File = File(parses: bool, refs: seq<string>, defineTags: seq<string>, defines: set<string>)

  /** The view directory, and how a name that leaves it with `../` is joined to its parent. */
  datatype Views = Views(files: map<string, File>, join: (string, string) -> string)

  function Resolve(v: Views, file: string, parent: string): string
  {
    if "../" <= file then v.join(parent, file) else file
  }

  predicate HasSuffix(s: string, suffix: string)
  {
    |suffix| <= |s| && s[|s| - |suffix|..] == suffix
  }

  predicate HasTemplateExt(name: string)
  {
    HasSuffix(name, ".tpl") || HasSuffix(name, ".html") || HasSuffix(name, ".gohtml")
  }

  /** Exactly the names that end in a dot and one of the three extensions. */
  lemma ExtensionIff(name: string)
    ensures HasTemplateExt(name) <==>
            exists stem: string :: name == stem + ".tpl" || name == stem + ".html" || name == stem + ".gohtml"
  {
    if HasSuffix(name, ".tpl") {
      assert name == name[..|name| - 4] + ".tpl";
    } else if HasSuffix(name, ".html") {
      assert name == name[..|name| - 5] + ".html";
    } else if HasSuffix(name, ".gohtml") {
      assert name == name[..|name| - 7] + ".gohtml";
    }
    if stem: string :| name == stem + ".tpl" || name == stem + ".html" || name == stem + ".gohtml" {
      assert name[|stem|..] == ".tpl" || name[|stem|..] == ".html" || name[|stem|..] == ".gohtml";
    }
  }

  /** A name that was opened, and the path it was opened at. */
  datatype Visit = Visit(name: string, path: string)

  /** The names defined in the shared template set, and the files opened, in order. */
  datatype Loaded = Loaded(defined: set<string>, opens: seq<Visit>)

  /** How a load ends: with the names the file refers to, a parse error, or a missing file (a panic). */
  datatype Ending = Subs(names: seq<string>) | ParseError | NotFound

  datatype Load = Load(st: Loaded, ending: Ending)

  /** Every name that some file refers to. */
  function AllRefs(v: Views): set<string>
  {
    set p, r | p in v.files && r in v.files[p].refs :: r
  }

  predicate Refers(v: Views, names: seq<string>)
  {
    forall k :: 0 <= k < |names| ==> names[k] in AllRefs(v)
  }

  // ---------------------------------------------------------------- depth-first loading

  function Opened(st: Loaded, file: string, path: string, f: File): Loaded
  {
    Loaded(st.defined + {file} + (if f.parses then f.defines else {}), st.opens + [Visit(file, path)])
  }

  /** What getTplDeep does: it terminates since each nested load defines a name that was not defined. */
  function LoadDeep(v: Views, file: string, parent: string, st: Loaded): (r: Load)
    ensures st.defined <= r.st.defined
    decreases AllRefs(v) - (st.defined + {file}), 1, 0
  {
    var path := Resolve(v, file, parent);
    if path !in v.files then Load(st, NotFound)
    else
      var f := v.files[path];
      var st1 := Opened(st, file, path, f);
      if !f.parses then Load(st1, ParseError)
      else
        RefersOfFile(v, path);
        var r := LoadRefs(v, f.refs, path, st1);
        if r.ending.Subs? then Load(r.st, Subs(f.refs)) else r
  }

  function LoadRefs(v: Views, refs: seq<string>, parent: string, st: Loaded): (r: Load)
    requires Refers(v, refs)
    ensures st.defined <= r.st.defined
    decreases AllRefs(v) - st.defined, 0, |refs|
  {
    if refs == [] then Load(st, Subs([]))
    else if refs[0] in st.defined || !HasTemplateExt(refs[0]) then LoadRefs(v, refs[1..], parent, st)
    else
      assert refs[0] in AllRefs(v) - st.defined;
      var l := LoadDeep(v, refs[0], parent, st);
      if l.ending.Subs? then LoadRefs(v, refs[1..], parent, l.st) else l
  }

  lemma RefersOfFile(v: Views, path: string)
    requires path in v.files
    ensures Refers(v, v.files[path].refs)
  {
    var refs := v.files[path].refs;
    forall k | 0 <= k < |refs| ensures refs[k] in AllRefs(v) {
      assert refs[k] in v.files[path].refs;
    }
  }

  // ---------------------------------------------------------------- what has been loaded

  /** `b` is opened because the file at `a` refers to it. */
  predicate Edge(v: Views, a: Visit, b: Visit)
  {
    a.path in v.files && b.name in v.files[a.path].refs && HasTemplateExt(b.name) &&
      b.path == Resolve(v, b.name, a.path)
  }

  function NamesOf(visits: seq<Visit>): set<string>
  {
    set k | 0 <= k < |visits| :: visits[k].name
  }

  predicate DistinctNames(visits: seq<Visit>)
  {
    forall i, j :: 0 <= i < j < |visits| ==> visits[i].name != visits[j].name
  }

  /** The file opened by a visit exists and parses, and everything it includes is defined. */
  predicate Complete(v: Views, a: Visit, defined: set<string>)
  {
    && a.path in v.files && v.files[a.path].parses
    && forall k :: 0 <= k < |v.files[a.path].refs| && HasTemplateExt(v.files[a.path].refs[k]) ==>
      v.files[a.path].refs[k] in defined
  }

  predicate AllComplete(v: Views, visits: seq<Visit>, defined: set<string>)
  {
    forall k :: 0 <= k < |visits| ==> Complete(v, visits[k], defined)
  }

  /** Every visit but those in `roots` was caused by an earlier one or by a root. */
  ghost predicate Caused(v: Views, roots: seq<Visit>, visits: seq<Visit>)
  {
    forall k :: 0 <= k < |visits| ==> CausedAt(v, roots, visits, k)
  }

  ghost predicate CausedAt(v: Views, roots: seq<Visit>, visits: seq<Visit>, k: nat)
    requires k < |visits|
  {
    || (exists j :: 0 <= j < |roots| && Edge(v, roots[j], visits[k]))
    || (exists j :: 0 <= j < k && Edge(v, visits[j], visits[k]))
  }

  lemma CausedConcat(v: Views, roots: seq<Visit>, a: seq<Visit>, b: seq<Visit>)
    requires Caused(v, roots, a) && Caused(v, roots, b)
    ensures Caused(v, roots, a + b)
  {
    var all := a + b;
    forall k | 0 <= k < |all| ensures CausedAt(v, roots, all, k) {
      if k < |a| {
        assert CausedAt(v, roots, a, k);
        assert forall j :: 0 <= j < k ==> all[j] == a[j];
      } else {
        assert CausedAt(v, roots, b, k - |a|);
        assert forall j :: 0 <= j < k - |a| ==> all[|a| + j] == b[j];
      }
    }
  }

  /** A visit below a root, and what it caused, are caused by the root. */
  lemma CausedBelow(v: Views, root: Visit, x: Visit, rest: seq<Visit>)
    requires Edge(v, root, x) && Caused(v, [x], rest)
    ensures Caused(v, [root], [x] + rest)
  {
    var all := [x] + rest;
    forall k | 0 <= k < |all| ensures CausedAt(v, [root], all, k) {
      if k == 0 {
        assert Edge(v, [root][0], all[0]);
      } else {
        assert CausedAt(v, [x], rest, k - 1);
        assert all[k] == rest[k - 1];
        if j :| 0 <= j < k - 1 && Edge(v, rest[j], rest[k - 1]) {
          assert all[j + 1] == rest[j];
        } else {
          assert all[0] == x && Edge(v, all[0], all[k]);
        }
      }
    }
  }

  /** The visits a load added: prefix kept, new names only, all of them defined. */
  ghost predicate Added(st: Loaded, r: Loaded, visits: seq<Visit>)
  {
    && r.opens == st.opens + visits
    && DistinctNames(visits)
    && (forall k :: 0 <= k < |visits| ==> visits[k].name !in st.defined && visits[k].name in r.defined)
  }

  lemma AddedTwice(st: Loaded, mid: Loaded, r: Loaded, a: seq<Visit>, b: seq<Visit>)
    requires Added(st, mid, a) && Added(mid, r, b) && st.defined <= mid.defined <= r.defined
    ensures Added(st, r, a + b)
  {
    assert st.opens + (a + b) == (st.opens + a) + b;
    var all := a + b;
    forall i, j | 0 <= i < j < |all| ensures all[i].name != all[j].name {
    }
  }

  lemma CompleteMore(v: Views, visits: seq<Visit>, d: set<string>, e: set<string>)
    requires AllComplete(v, visits, d) && d <= e
    ensures AllComplete(v, visits, e)
  {
    forall k | 0 <= k < |visits| ensures Complete(v, visits[k], e) {
      assert Complete(v, visits[k], d);
    }
  }

  /** The files a load of `file` opens after `file` itself. */
  function Later(st: Loaded, r: Loaded): seq<Visit>
    requires |st.opens| < |r.opens|
  {
    r.opens[|st.opens| + 1..]
  }

  /**
   A load opens its file and then only names that were not defined, each once; each is reached
   by a chain of references. If it succeeds, every file it opened exists and parses, and every
   template each of them includes is defined.
   */
  lemma {:induction false} LoadDeepMeaning(v: Views, file: string, parent: string, st: Loaded)
    requires LoadDeep(v, file, parent, st).ending != NotFound || Resolve(v, file, parent) in v.files
    ensures var r := LoadDeep(v, file, parent, st);
            var first := Visit(file, Resolve(v, file, parent));
            && |st.opens| < |r.st.opens| && r.st.opens[|st.opens|] == first
            && Added(Loaded(st.defined + {file}, st.opens + [first]), r.st, Later(st, r.st))
            && Caused(v, [first], Later(st, r.st))
            && file in r.st.defined
            && (r.ending.Subs? ==> r.ending.names == v.files[first.path].refs &&
                                   AllComplete(v, [first] + Later(st, r.st), r.st.defined))
    decreases AllRefs(v) - (st.defined + {file}), 1, 0
  {
    var path := Resolve(v, file, parent);
    var f := v.files[path];
    var first := Visit(file, path);
    var st1 := Opened(st, file, path, f);
    var st0 := Loaded(st.defined + {file}, st.opens + [first]);
    if f.parses {
      RefersOfFile(v, path);
      var visits := LoadRefsMeaning(v, f.refs, path, st1, first);
      var r := LoadRefs(v, f.refs, path, st1);
      LaterVisits(st, first, visits, r.st);
      if r.ending.Subs? {
        CompleteWithFirst(v, first, visits, r.st.defined);
      }
    } else {
      LaterVisits(st, first, [], st1);
    }
  }

  lemma LaterVisits(st: Loaded, first: Visit, visits: seq<Visit>, r: Loaded)
    requires r.opens == (st.opens + [first]) + visits
    ensures r.opens[|st.opens|] == first && Later(st, r) == visits
  {
  }

  lemma CompleteWithFirst(v: Views, first: Visit, visits: seq<Visit>, defined: set<string>)
    requires Complete(v, first, defined) && AllComplete(v, visits, defined)
    ensures AllComplete(v, [first] + visits, defined)
  {
    var all := [first] + visits;
    forall k | 0 <= k < |all| ensures Complete(v, all[k], defined) {
      if k > 0 {
        assert all[k] == visits[k - 1];
      }
    }
  }

  lemma {:induction false} LoadRefsMeaning(v: Views, refs: seq<string>, parent: string, st: Loaded, root: Visit)
    returns (visits: seq<Visit>)
    requires Refers(v, refs) && root.path == parent && parent in v.files
    requires forall k :: 0 <= k < |refs| ==> refs[k] in v.files[parent].refs
    ensures var r := LoadRefs(v, refs, parent, st);
            && Added(st, r.st, visits)
            && Caused(v, [root], visits)
            && (r.ending.Subs? ==>
                  && AllComplete(v, visits, r.st.defined)
                  && forall k :: 0 <= k < |refs| && HasTemplateExt(refs[k]) ==> refs[k] in r.st.defined)
    decreases AllRefs(v) - st.defined, 0, |refs|
  {
    visits := [];
    if refs == [] {
      assert st.opens + [] == st.opens;
    } else {
      var m, rest := refs[0], refs[1..];
      assert forall k :: 1 <= k < |refs| ==> refs[k] == rest[k - 1];
      if m in st.defined || !HasTemplateExt(m) {
        visits := LoadRefsMeaning(v, rest, parent, st, root);
      } else {
        assert m in AllRefs(v) - st.defined;
        var l := LoadDeep(v, m, parent, st);
        var x := Visit(m, Resolve(v, m, parent));
        if x.path !in v.files {
          assert st.opens + [] == st.opens;
        } else {
          LoadDeepMeaning(v, m, parent, st);
          visits := [x] + Later(st, l.st);
          AddedOne(st, m, x, l.st);
          CausedBelow(v, root, x, Later(st, l.st));
          if l.ending.Subs? {
            var more := LoadRefsMeaning(v, rest, parent, l.st, root);
            var r := LoadRefs(v, rest, parent, l.st);
            AddedTwice(st, l.st, r.st, visits, more);
            CausedConcat(v, [root], visits, more);
            if r.ending.Subs? {
              CompleteMore(v, visits, l.st.defined, r.st.defined);
              assert AllComplete(v, visits + more, r.st.defined);
            }
            visits := visits + more;
          }
        }
      }
    }
  }

  lemma AddedOne(st: Loaded, m: string, x: Visit, r: Loaded)
    requires x.name == m && m !in st.defined && m in r.defined
    requires |st.opens| < |r.opens| && r.opens[|st.opens|] == x
    requires Added(Loaded(st.defined + {m}, st.opens + [x]), r, Later(st, r))
    ensures Added(st, r, [x] + Later(st, r))
  {
    var rest := Later(st, r);
    assert (st.opens + [x]) + rest == st.opens + ([x] + rest);
    var all := [x] + rest;
    forall i, j | 0 <= i < j < |all| ensures all[i].name != all[j].name {
      assert all[j] == rest[j - 1];
      assert i > 0 ==> all[i] == rest[i - 1];
    }
  }

  // ---------------------------------------------------------------- a whole top-level load

  /** The set a top-level load starts from: the template named after the file. */
  function Fresh(file: string): Loaded
  {
    Loaded({file}, [])
  }

  function Include(v: Views, file: string): Load
  {
    LoadDeep(v, file, "", Fresh(file))
  }

  ghost predicate Chain(v: Views, path: seq<Visit>, from: Visit, to: Visit)
  {
    && path != [] && path[0] == from && path[|path| - 1] == to
    && forall k :: 0 <= k < |path| - 1 ==> Edge(v, path[k], path[k + 1])
  }

  ghost predicate Reachable(v: Views, from: Visit, to: Visit)
  {
    exists path :: Chain(v, path, from, to)
  }

  lemma ReachableStep(v: Views, from: Visit, mid: Visit, to: Visit)
    requires Reachable(v, from, mid) && Edge(v, mid, to)
    ensures Reachable(v, from, to)
  {
    var path :| Chain(v, path, from, mid);
    assert Chain(v, path + [to], from, to);
  }

  lemma {:induction false} CausedIsReachable(v: Views, root: Visit, visits: seq<Visit>, k: nat)
    requires Caused(v, [root], visits) && k < |visits|
    ensures Reachable(v, root, visits[k])
  {
    assert Chain(v, [root], root, root);
    assert CausedAt(v, [root], visits, k);
    if j :| 0 <= j < k && Edge(v, visits[j], visits[k]) {
      CausedIsReachable(v, root, visits, j);
      ReachableStep(v, root, visits[j], visits[k]);
    } else {
      assert Edge(v, root, visits[k]);
      ReachableStep(v, root, root, visits[k]);
    }
  }

  /**
   A top-level load of an existing file, however its references loop: no name is opened twice,
   every file opened is reachable from the first, and if the load succeeds every template
   included by any opened file is defined.
   */
  lemma IncludeMeaning(v: Views, file: string)
    requires Resolve(v, file, "") in v.files
    ensures var r := Include(v, file);
            var start := Visit(file, Resolve(v, file, ""));
            && r.st.opens != [] && r.st.opens[0] == start
            && DistinctNames(r.st.opens)
            && (forall k :: 0 <= k < |r.st.opens| ==> Reachable(v, start, r.st.opens[k]))
            && (r.ending.Subs? ==> AllComplete(v, r.st.opens, r.st.defined))
  {
    var r, st := Include(v, file), Fresh(file);
    var start := Visit(file, Resolve(v, file, ""));
    LoadDeepMeaning(v, file, "", st);
    var rest := Later(st, r.st);
    assert st.opens + [start] == [start] && r.st.opens == [start] + rest;
    assert st.defined + {file} == {file};
    forall k | 0 <= k < |r.st.opens| ensures Reachable(v, start, r.st.opens[k]) {
      if k == 0 {
        assert Chain(v, [start], start, start);
      } else {
        CausedIsReachable(v, start, rest, k - 1);
      }
    }
    forall i, j | 0 <= i < j < |r.st.opens| ensures r.st.opens[i].name != r.st.opens[j].name {
      assert r.st.opens[j] == rest[j - 1];
      assert i > 0 ==> r.st.opens[i] == rest[i - 1];
    }
  }

  /**
   Where a file is opened: a name that starts with `../` at the place it has from the path of an
   earlier file that refers to it, any other name at the name itself.
   */
  lemma OpenedWhere(v: Views, file: string, k: nat)
    requires file in v.files && !("../" <= file) && k < |Include(v, file).st.opens|
    ensures var opens := Include(v, file).st.opens;
            if "../" <= opens[k].name
            then exists j :: 0 <= j < k && opens[j].path in v.files && opens[k].name in v.files[opens[j].path].refs &&
                             opens[k].path == v.join(opens[j].path, opens[k].name)
            else opens[k].path == opens[k].name
  {
    var st, start := Fresh(file), Visit(file, file);
    var opens := Include(v, file).st.opens;
    LoadDeepMeaning(v, file, "", st);
    var rest := Later(st, Include(v, file).st);
    assert opens == [start] + rest;
    if k > 0 {
      OpenedBecause(v, start, rest, k - 1);
    }
  }

  lemma OpenedBecause(v: Views, start: Visit, rest: seq<Visit>, k: nat)
    requires Caused(v, [start], rest) && k < |rest|
    ensures exists j :: 0 <= j <= k && Edge(v, ([start] + rest)[j], rest[k])
  {
    var opens := [start] + rest;
    assert CausedAt(v, [start], rest, k);
    if j :| 0 <= j < k && Edge(v, rest[j], rest[k]) {
      assert opens[j + 1] == rest[j];
    } else {
      assert opens[0] == start && Edge(v, start, rest[k]);
    }
  }

  /** Every file the given one can lead to exists. */
  ghost predicate AllExist(v: Views, from: Visit)
  {
    forall x :: Reachable(v, from, x) ==> x.path in v.files
  }

  /** Every existing file the given one can lead to parses. */
  ghost predicate AllParse(v: Views, from: Visit)
  {
    forall x :: Reachable(v, from, x) && x.path in v.files ==> v.files[x.path].parses
  }

  ghost predicate Sound(v: Views, from: Visit)
  {
    AllExist(v, from) && AllParse(v, from)
  }

  /** A load can only fail by a file it leads to that does not parse, or by one that is missing. */
  lemma {:induction false} LoadFailure(v: Views, file: string, parent: string, st: Loaded, from: Visit)
    requires Reachable(v, from, Visit(file, Resolve(v, file, parent)))
    ensures AllParse(v, from) ==> !LoadDeep(v, file, parent, st).ending.ParseError?
    ensures AllExist(v, from) ==> !LoadDeep(v, file, parent, st).ending.NotFound?
    decreases AllRefs(v) - (st.defined + {file}), 1, 0
  {
    var x := Visit(file, Resolve(v, file, parent));
    if x.path in v.files && v.files[x.path].parses {
      var f := v.files[x.path];
      RefersOfFile(v, x.path);
      LoadRefsFailure(v, f.refs, x, Opened(st, file, x.path, f), from);
    }
  }

  lemma {:induction false} LoadRefsFailure(v: Views, refs: seq<string>, x: Visit, st: Loaded, from: Visit)
    requires Reachable(v, from, x) && x.path in v.files && Refers(v, refs)
    requires forall k :: 0 <= k < |refs| ==> refs[k] in v.files[x.path].refs
    ensures AllParse(v, from) ==> !LoadRefs(v, refs, x.path, st).ending.ParseError?
    ensures AllExist(v, from) ==> !LoadRefs(v, refs, x.path, st).ending.NotFound?
    decreases AllRefs(v) - st.defined, 0, |refs|
  {
    if refs != [] {
      var m, rest := refs[0], refs[1..];
      assert forall k :: 1 <= k < |refs| ==> refs[k] == rest[k - 1];
      if m in st.defined || !HasTemplateExt(m) {
        LoadRefsFailure(v, rest, x, st, from);
      } else {
        assert m in AllRefs(v) - st.defined;
        ReachableStep(v, from, x, Visit(m, Resolve(v, m, x.path)));
        LoadFailure(v, m, x.path, st, from);
        LoadRefsFailure(v, rest, x, LoadDeep(v, m, x.path, st).st, from);
      }
    }
  }

  lemma SoundLoads(v: Views, file: string, parent: string, st: Loaded)
    requires Sound(v, Visit(file, Resolve(v, file, parent)))
    ensures LoadDeep(v, file, parent, st).ending.Subs?
  {
    var x := Visit(file, Resolve(v, file, parent));
    assert Chain(v, [x], x, x);
    LoadFailure(v, file, parent, st, x);
  }

  /** No file defines a name with a template extension, and no reference leaves its directory. */
  ghost predicate Simple(v: Views)
  {
    && (forall p, d :: p in v.files && d in v.files[p].defines ==> !HasTemplateExt(d))
    && (forall r :: r in AllRefs(v) ==> !("../" <= r))
  }

  /** Names with a template extension that became defined are names of files that were opened. */
  ghost predicate DefinedByOpening(st: Loaded, r: Loaded)
  {
    && |st.opens| <= |r.opens|
    && forall d :: d in r.defined && HasTemplateExt(d) ==> d in st.defined || d in NamesOf(r.opens[|st.opens|..])
  }

  lemma {:induction false} DefinedAreOpened(v: Views, file: string, parent: string, st: Loaded)
    requires Simple(v)
    ensures DefinedByOpening(st, LoadDeep(v, file, parent, st).st)
    decreases AllRefs(v) - (st.defined + {file}), 1, 0
  {
    var path := Resolve(v, file, parent);
    if path in v.files && v.files[path].parses {
      var st1 := Opened(st, file, path, v.files[path]);
      RefersOfFile(v, path);
      DefinedAreOpenedRefs(v, v.files[path].refs, path, st1);
      var r := LoadRefs(v, v.files[path].refs, path, st1).st;
      OpenedKept(v, v.files[path].refs, path, st1);
      assert r.opens[|st.opens|] == Visit(file, path);
      NamesOfTail(r.opens, |st.opens|);
    } else if path in v.files {
      var st1 := Opened(st, file, path, v.files[path]);
      assert st1.opens[|st.opens|..] == [Visit(file, path)];
      assert [Visit(file, path)][0].name in NamesOf([Visit(file, path)]);
    }
  }

  lemma NamesOfTail(visits: seq<Visit>, n: nat)
    requires n < |visits|
    ensures NamesOf(visits[n..]) == {visits[n].name} + NamesOf(visits[n + 1..])
  {
    var a, b := visits[n..], visits[n + 1..];
    assert a[0] == visits[n] && forall k :: 0 <= k < |b| ==> a[k + 1] == b[k];
    forall x | x in NamesOf(a) ensures x in {visits[n].name} + NamesOf(b) {
      var k :| 0 <= k < |a| && a[k].name == x;
      assert k > 0 ==> b[k - 1].name == x;
    }
    forall x | x in NamesOf(b) ensures x in NamesOf(a) {
      var k :| 0 <= k < |b| && b[k].name == x;
      assert a[k + 1].name == x;
    }
    assert a[0].name in NamesOf(a);
  }

  lemma {:induction false} OpenedKept(v: Views, refs: seq<string>, parent: string, st: Loaded)
    requires Refers(v, refs)
    ensures st.opens <= LoadRefs(v, refs, parent, st).st.opens
    decreases AllRefs(v) - st.defined, 0, |refs|
  {
    if refs != [] {
      if refs[0] in st.defined || !HasTemplateExt(refs[0]) {
        OpenedKept(v, refs[1..], parent, st);
      } else {
        assert refs[0] in AllRefs(v) - st.defined;
        OpenedKeptDeep(v, refs[0], parent, st);
        var l := LoadDeep(v, refs[0], parent, st);
        OpenedKept(v, refs[1..], parent, l.st);
      }
    }
  }

  lemma {:induction false} OpenedKeptDeep(v: Views, file: string, parent: string, st: Loaded)
    ensures st.opens <= LoadDeep(v, file, parent, st).st.opens
    decreases AllRefs(v) - (st.defined + {file}), 1, 0
  {
    var path := Resolve(v, file, parent);
    if path in v.files && v.files[path].parses {
      RefersOfFile(v, path);
      OpenedKept(v, v.files[path].refs, path, Opened(st, file, path, v.files[path]));
    }
  }

  lemma {:induction false} DefinedAreOpenedRefs(v: Views, refs: seq<string>, parent: string, st: Loaded)
    requires Simple(v) && Refers(v, refs)
    ensures DefinedByOpening(st, LoadRefs(v, refs, parent, st).st)
    decreases AllRefs(v) - st.defined, 0, |refs|
  {
    if refs != [] {
      if refs[0] in st.defined || !HasTemplateExt(refs[0]) {
        DefinedAreOpenedRefs(v, refs[1..], parent, st);
      } else {
        assert refs[0] in AllRefs(v) - st.defined;
        DefinedAreOpened(v, refs[0], parent, st);
        OpenedKeptDeep(v, refs[0], parent, st);
        var l := LoadDeep(v, refs[0], parent, st);
        if l.ending.Subs? {
          DefinedAreOpenedRefs(v, refs[1..], parent, l.st);
          OpenedKept(v, refs[1..], parent, l.st);
          var r := LoadRefs(v, refs[1..], parent, l.st).st;
          NamesOfParts(r.opens, |st.opens|, |l.st.opens|);
          assert r.opens[|st.opens|..|l.st.opens|] == l.st.opens[|st.opens|..];
        }
      }
    }
  }

  lemma NamesOfParts(visits: seq<Visit>, i: nat, j: nat)
    requires i <= j <= |visits|
    ensures NamesOf(visits[i..j]) <= NamesOf(visits[i..]) && NamesOf(visits[j..]) <= NamesOf(visits[i..])
  {
    var all, a, b := visits[i..], visits[i..j], visits[j..];
    forall x | x in NamesOf(a) ensures x in NamesOf(all) {
      var k :| 0 <= k < |a| && a[k].name == x;
      assert all[k].name == x;
    }
    forall x | x in NamesOf(b) ensures x in NamesOf(all) {
      var k :| 0 <= k < |b| && b[k].name == x;
      assert all[k + (j - i)].name == x;
    }
  }

  /**
   Against the plain definition by graph reachability: where no definition has a template
   extension and files refer to names in place, a load succeeds and opens exactly the files
   reachable from the first, cycles or not.
   */
  lemma OpenedIffReachable(v: Views, file: string, x: Visit)
    requires Simple(v) && !("../" <= file) && Sound(v, Visit(file, file))
    ensures Include(v, file).ending.Subs?
    ensures x in Include(v, file).st.opens <==> Reachable(v, Visit(file, file), x)
  {
    var start := Visit(file, file);
    assert Chain(v, [start], start, start);
    SoundLoads(v, file, "", Fresh(file));
    IncludeMeaning(v, file);
    if Reachable(v, start, x) {
      var path :| Chain(v, path, start, x);
      ReachedIsOpened(v, file, path);
    }
  }

  lemma {:induction false} ReachedIsOpened(v: Views, file: string, path: seq<Visit>)
    requires Simple(v) && !("../" <= file) && Sound(v, Visit(file, file))
    requires Include(v, file).ending.Subs? && path != [] && Chain(v, path, Visit(file, file), path[|path| - 1])
    ensures path[|path| - 1] in Include(v, file).st.opens
    decreases |path|
  {
    var r := Include(v, file).st;
    var start := Visit(file, file);
    assert Chain(v, [start], start, start);
    IncludeMeaning(v, file);
    if |path| > 1 {
      var before := path[..|path| - 1];
      var a, b := path[|path| - 2], path[|path| - 1];
      assert Edge(v, path[|path| - 2], path[|path| - 2 + 1]);
      assert Chain(v, before, start, a) by {
        assert forall k :: 0 <= k < |before| ==> before[k] == path[k];
      }
      ReachedIsOpened(v, file, before);
      var k :| 0 <= k < |r.opens| && r.opens[k] == a;
      assert Complete(v, r.opens[k], r.defined);
      assert b.name in r.defined && HasTemplateExt(b.name);
      DefinedAreOpened(v, file, "", Fresh(file));
      assert r.opens[0..] == r.opens;
      assert b.name in NamesOf(r.opens) by {
        assert r.opens[0].name in NamesOf(r.opens);
      }
      var l :| 0 <= l < |r.opens| && r.opens[l].name == b.name;
      assert b.name in AllRefs(v);
      OpenedInPlace(v, file, l);
      assert r.opens[l] == b;
    }
  }

  /** Names opened in place are opened at the path of their name. */
  lemma OpenedInPlace(v: Views, file: string, k: nat)
    requires Simple(v) && !("../" <= file) && file in v.files
    requires k < |Include(v, file).st.opens|
    ensures var x := Include(v, file).st.opens[k]; x.path == x.name
  {
    var r, st := Include(v, file).st, Fresh(file);
    var start := Visit(file, file);
    LoadDeepMeaning(v, file, "", st);
    if k > 0 {
      var rest := Later(st, r);
      assert rest[k - 1] == r.opens[k];
      assert CausedAt(v, [start], rest, k - 1);
      var a: Visit :| Edge(v, a, r.opens[k]);
      assert r.opens[k].name in AllRefs(v);
    }
  }
}
