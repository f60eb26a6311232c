/**
 What a template set holds in the end, and when a search does not fail (getTplDeep,
 _getTemplate and getTemplate of ctrl/template.go).
 */
module TemplateResult {
  import opened Templates
  import opened TemplateSearch

  // ---------------------------------------------------------------- the names that are defined

  /** What opening one file defines: its own name, and what its text defines if it parses. */
  function Gives(v: Views, x: Visit): set<string>
  {
    {x.name} + if x.path in v.files && v.files[x.path].parses then v.files[x.path].defines else {}
  }

  function GivesAll(v: Views, visits: seq<Visit>): set<string>
  {
    if visits == [] then {} else Gives(v, visits[0]) + GivesAll(v, visits[1..])
  }

  /** From `st` to `r` the set gained exactly what the files opened in between give. */
  ghost predicate Gained(v: Views, st: Loaded, r: Loaded)
  {
    st.opens <= r.opens && r.defined == st.defined + GivesAll(v, r.opens[|st.opens|..])
  }

  lemma {:induction false} GivesConcat(v: Views, a: seq<Visit>, b: seq<Visit>)
    ensures GivesAll(v, a + b) == GivesAll(v, a) + GivesAll(v, b)
  {
    if a == [] {
      assert a + b == b;
    } else {
      assert (a + b)[1..] == a[1..] + b;
      GivesConcat(v, a[1..], b);
    }
  }

  lemma GainedTwice(v: Views, st: Loaded, mid: Loaded, r: Loaded)
    requires Gained(v, st, mid) && Gained(v, mid, r)
    ensures Gained(v, st, r)
  {
    var a, b := mid.opens[|st.opens|..], r.opens[|mid.opens|..];
    GivesConcat(v, a, b);
    assert r.opens[|st.opens|..] == a + b;
  }

  lemma GainedNothing(v: Views, st: Loaded)
    ensures Gained(v, st, st)
  {
    assert st.opens[|st.opens|..] == [];
  }

  lemma GainedOne(v: Views, st: Loaded, file: string, path: string)
    requires path in v.files
    ensures Gained(v, st, Opened(st, file, path, v.files[path]))
  {
    var r, x := Opened(st, file, path, v.files[path]), Visit(file, path);
    assert r.opens[|st.opens|..] == [x] && [x][1..] == [];
    assert GivesAll(v, [x]) == Gives(v, x) + {};
  }

  lemma {:induction false} LoadGains(v: Views, file: string, parent: string, st: Loaded)
    ensures Gained(v, st, LoadDeep(v, file, parent, st).st)
    decreases AllRefs(v) - (st.defined + {file}), 1, 0
  {
    var path := Resolve(v, file, parent);
    if path !in v.files {
      GainedNothing(v, st);
    } else {
      var st1 := Opened(st, file, path, v.files[path]);
      GainedOne(v, st, file, path);
      if v.files[path].parses {
        RefersOfFile(v, path);
        LoadRefsGains(v, v.files[path].refs, path, st1);
        GainedTwice(v, st, st1, LoadRefs(v, v.files[path].refs, path, st1).st);
      }
    }
  }

  lemma {:induction false} LoadRefsGains(v: Views, refs: seq<string>, parent: string, st: Loaded)
    requires Refers(v, refs)
    ensures Gained(v, st, LoadRefs(v, refs, parent, st).st)
    decreases AllRefs(v) - st.defined, 0, |refs|
  {
    if refs == [] {
      GainedNothing(v, st);
    } else if refs[0] in st.defined || !HasTemplateExt(refs[0]) {
      LoadRefsGains(v, refs[1..], parent, st);
    } else {
      assert refs[0] in AllRefs(v) - st.defined;
      LoadGains(v, refs[0], parent, st);
      var l := LoadDeep(v, refs[0], parent, st);
      if l.ending.Subs? {
        LoadRefsGains(v, refs[1..], parent, l.st);
        GainedTwice(v, st, l.st, LoadRefs(v, refs[1..], parent, l.st).st);
      }
    }
  }

  /** One of the files that were loaded for the search leads to this one. */
  ghost predicate FromTop(v: Views, tops: seq<string>, x: Visit)
  {
    exists t :: t in tops && Reachable(v, Visit(t, t), x)
  }

  /** A search opened the files it loaded, and beyond them only what they lead to; it gained what these give. */
  ghost predicate Traced(v: Views, st: Loaded, r: Search)
  {
    && Gained(v, st, r.st)
    && (forall t :: t in r.tops ==> !("../" <= t))
    && (forall t :: t in r.tops && t in v.files ==> Visit(t, t) in r.st.opens)
    && (forall x :: x in r.st.opens ==> x in st.opens || FromTop(v, r.tops, x))
  }

  lemma TracedTwice(v: Views, st: Loaded, a: Search, b: Search)
    requires Traced(v, st, a) && Traced(v, a.st, b)
    ensures Traced(v, st, Search(b.st, a.tops + b.tops, b.end))
  {
    GainedTwice(v, st, a.st, b.st);
    var tops := a.tops + b.tops;
    forall x | x in b.st.opens ensures x in st.opens || FromTop(v, tops, x) {
      if FromTop(v, b.tops, x) {
        var t :| t in b.tops && Reachable(v, Visit(t, t), x);
        assert t in tops;
      } else if x !in st.opens {
        var t :| t in a.tops && Reachable(v, Visit(t, t), x);
        assert t in tops;
      }
    }
  }

  lemma TracedNothing(v: Views, st: Loaded)
    ensures Traced(v, st, Search(st, [], Finished))
  {
    GainedNothing(v, st);
  }

  lemma LoadTraced(v: Views, file: string, st: Loaded, end: End)
    requires !("../" <= file)
    ensures Traced(v, st, Search(LoadDeep(v, file, "", st).st, [file], end))
  {
    var r, first := LoadDeep(v, file, "", st).st, Visit(file, file);
    LoadGains(v, file, "", st);
    if file in v.files {
      LoadDeepMeaning(v, file, "", st);
      var later := Later(st, r);
      assert r.opens == st.opens + [first] + later;
      assert Chain(v, [first], first, first) && file in [file];
      forall x | x in r.opens ensures x in st.opens || FromTop(v, [file], x) {
        if x in later {
          var k :| 0 <= k < |later| && later[k] == x;
          CausedIsReachable(v, first, later, k);
        }
      }
    }
  }

  lemma {:induction false} SearchTraced(v: Views, subs: seq<string>, others: seq<string>, st: Loaded)
    requires Agrees(v) && InPlace(others) && Refers(v, subs)
    ensures Traced(v, st, SearchSubs(v, subs, others, st))
    decreases AllRefs(v) - st.defined, 0, |subs|
  {
    if subs == [] {
      TracedNothing(v, st);
    } else if subs[0] in st.defined {
      SearchTraced(v, subs[1..], others, st);
    } else {
      var m := subs[0];
      assert m in AllRefs(v) - st.defined;
      TracedNothing(v, st);
      var a := if m in others then LoadAndSearch(v, m, m, others, st) else Search(st, [], Finished);
      if m in others {
        LoadAndSearchTraced(v, m, m, others, st);
      }
      if a.end.Finished? {
        var b := ByDefine(v, m, others, others, a.st);
        ByDefineTraced(v, m, others, others, a.st);
        TracedTwice(v, st, a, b);
        if b.end.Finished? {
          SearchTraced(v, subs[1..], others, b.st);
          TracedTwice(v, st, Search(b.st, a.tops + b.tops, b.end), SearchSubs(v, subs[1..], others, b.st));
        }
      }
    }
  }

  lemma {:induction false} ByDefineTraced(v: Views, m: string, left: seq<string>, others: seq<string>, st: Loaded)
    requires Agrees(v) && InPlace(others) && InPlace(left) && m in AllRefs(v)
    ensures Traced(v, st, ByDefine(v, m, left, others, st))
    decreases AllRefs(v) - (st.defined + {m}), 2, |left|
  {
    TracedNothing(v, st);
    if left != [] {
      if left[0] !in v.files || m !in v.files[left[0]].defineTags {
        ByDefineTraced(v, m, left[1..], others, st);
      } else {
        var a := LoadAndSearch(v, m, left[0], others, st);
        LoadAndSearchTraced(v, m, left[0], others, st);
        if a.end.Finished? {
          ByDefineTraced(v, m, left[1..], others, a.st);
          TracedTwice(v, st, a, ByDefine(v, m, left[1..], others, a.st));
        }
      }
    }
  }

  lemma {:induction false} LoadAndSearchTraced(v: Views, m: string, file: string, others: seq<string>, st: Loaded)
    requires Agrees(v) && InPlace(others) && m in AllRefs(v) && Provides(v, file, m) && !("../" <= file)
    ensures Traced(v, st, LoadAndSearch(v, m, file, others, st))
    decreases AllRefs(v) - (st.defined + {m}), 1, 0
  {
    var l := LoadDeep(v, file, "", st);
    LoadTraced(v, file, st, LoadAndSearch(v, m, file, others, st).end);
    if l.ending.Subs? {
      LoadDeepMeaning(v, file, "", st);
      RefersOfFile(v, Resolve(v, file, ""));
      ProvidesDefines(v, file, m, st);
      SearchTraced(v, l.ending.names, others, l.st);
      TracedTwice(v, st, Search(l.st, [file], Finished), SearchSubs(v, l.ending.names, others, l.st));
    }
  }

  lemma {:induction false} GivesAllMeaning(v: Views, visits: seq<Visit>, m: string)
    ensures m in GivesAll(v, visits) <==> exists x :: x in visits && m in Gives(v, x)
  {
    if visits != [] {
      GivesAllMeaning(v, visits[1..], m);
      if x :| x in visits && m in Gives(v, x) {
        assert x == visits[0] || x in visits[1..];
      }
      if m in Gives(v, visits[0]) {
        assert visits[0] in visits;
      } else if m in GivesAll(v, visits) {
        var x :| x in visits[1..] && m in Gives(v, x);
        assert x in visits;
      }
    }
  }

  /**
   The set holds exactly the name of the template, the names of the files opened for it, and
   what the text of each of them defines, whether the search ran to its end or not.
   */
  lemma DefinedIffOpened(v: Views, file: string, others: seq<string>, m: string)
    requires Agrees(v) && InPlace(others)
    ensures var st := Template(v, file, others).st;
            m in st.defined <==> m == file || exists x :: x in st.opens && m in Gives(v, x)
  {
    var st, l := Template(v, file, others).st, Include(v, file);
    LoadGains(v, file, "", Fresh(file));
    if l.ending.Subs? {
      LoadDeepMeaning(v, file, "", Fresh(file));
      RefersOfFile(v, Resolve(v, file, ""));
      SearchTraced(v, l.ending.names, others, l.st);
      GainedTwice(v, Fresh(file), l.st, st);
    }
    assert st.opens[0..] == st.opens;
    GivesAllMeaning(v, st.opens, m);
  }

  lemma TemplateTraced(v: Views, file: string, others: seq<string>)
    requires Agrees(v) && InPlace(others) && !("../" <= file)
    ensures Traced(v, Fresh(file), Template(v, file, others))
  {
    var l := Include(v, file);
    LoadTraced(v, file, Fresh(file), Template(v, file, others).end);
    if l.ending.Subs? {
      LoadDeepMeaning(v, file, "", Fresh(file));
      RefersOfFile(v, file);
      SearchTraced(v, l.ending.names, others, l.st);
      TracedTwice(v, Fresh(file), Search(l.st, [file], Finished), SearchSubs(v, l.ending.names, others, l.st));
    }
  }

  /** In a finished set, opened files lead to opened files only. */
  lemma {:induction false} LeadsToOpened(v: Views, file: string, others: seq<string>, path: seq<Visit>)
    requires Agrees(v) && InPlace(others) && Simple(v) && !("../" <= file)
    requires Template(v, file, others).end.Finished? && path != [] && Chain(v, path, path[0], path[|path| - 1])
    requires path[0] in Template(v, file, others).st.opens
    ensures path[|path| - 1] in Template(v, file, others).st.opens
    decreases |path|
  {
    if |path| > 1 {
      var st := Template(v, file, others).st;
      var before, a, b := path[..|path| - 1], path[|path| - 2], path[|path| - 1];
      assert Edge(v, path[|path| - 2], path[|path| - 2 + 1]);
      assert Chain(v, before, before[0], a) by {
        assert forall k :: 0 <= k < |before| ==> before[k] == path[k];
      }
      LeadsToOpened(v, file, others, before);
      TemplateMeaning(v, file, others);
      var k :| 0 <= k < |st.opens| && st.opens[k] == a;
      assert Complete(v, st.opens[k], st.defined);
      assert b.name in st.defined && b.name in AllRefs(v);
      DefinedIffOpened(v, file, others, b.name);
      NamedIsOpened(v, file, others, b.name);
    }
  }

  lemma ReachedInPlace(v: Views, t: string, x: Visit)
    requires Simple(v) && Reachable(v, Visit(t, t), x)
    ensures x.path == x.name
  {
    var path :| Chain(v, path, Visit(t, t), x);
    if |path| > 1 {
      assert Edge(v, path[|path| - 2], path[|path| - 2 + 1]);
      assert x.name in AllRefs(v);
    }
  }

  /** A name with a template extension is defined only by opening the file of that name, in its place. */
  lemma NamedIsOpened(v: Views, file: string, others: seq<string>, m: string)
    requires Agrees(v) && InPlace(others) && Simple(v) && !("../" <= file)
    requires HasTemplateExt(m) && m in Template(v, file, others).st.defined
    ensures Template(v, file, others).end.Finished? ==> Visit(m, m) in Template(v, file, others).st.opens
  {
    var r := Template(v, file, others);
    DefinedIffOpened(v, file, others, m);
    TemplateTraced(v, file, others);
    TemplateMeaning(v, file, others);
    if r.end.Finished? && m != file {
      var x :| x in r.st.opens && m in Gives(v, x);
      assert x.name == m;
      var t :| t in r.tops && Reachable(v, Visit(t, t), x);
      ReachedInPlace(v, t, x);
    } else if r.end.Finished? {
      var k :| 0 <= k < |r.tops| && r.tops[k] == file;
      assert Served(v, r.tops[k], others, r.st.defined);
    }
  }

  /**
   A finished set holds exactly what is given by the files that the template itself or a sibling
   loaded for it leads to. So a block used by an included file is defined if and only if one of
   these files defines it.
   */
  lemma DefinedIff(v: Views, file: string, others: seq<string>, m: string)
    requires Agrees(v) && InPlace(others) && Simple(v) && !("../" <= file)
    requires Template(v, file, others).end.Finished?
    ensures var r := Template(v, file, others);
            m in r.st.defined <==> exists x :: FromTop(v, r.tops, x) && m in Gives(v, x)
  {
    var r := Template(v, file, others);
    DefinedIffOpened(v, file, others, m);
    TemplateTraced(v, file, others);
    TemplateMeaning(v, file, others);
    forall t | t in r.tops ensures t in v.files && Visit(t, t) in r.st.opens {
      var k :| 0 <= k < |r.tops| && r.tops[k] == t;
      assert Served(v, r.tops[k], others, r.st.defined);
    }
    if m == file {
      assert Chain(v, [Visit(file, file)], Visit(file, file), Visit(file, file));
      assert FromTop(v, r.tops, Visit(file, file)) && m in Gives(v, Visit(file, file));
    }
    forall x | FromTop(v, r.tops, x) && m in Gives(v, x) ensures m in r.st.defined {
      var t :| t in r.tops && Reachable(v, Visit(t, t), x);
      var path :| Chain(v, path, Visit(t, t), x);
      LeadsToOpened(v, file, others, path);
    }
  }

  /** The part a file brings with it, by reachability alone. */
  lemma IncludedIff(v: Views, file: string, m: string)
    requires Simple(v) && !("../" <= file) && Sound(v, Visit(file, file))
    ensures m in Include(v, file).st.defined <==> exists x :: Reachable(v, Visit(file, file), x) && m in Gives(v, x)
  {
    var st, start := Include(v, file).st, Visit(file, file);
    LoadGains(v, file, "", Fresh(file));
    assert st.opens[0..] == st.opens;
    GivesAllMeaning(v, st.opens, m);
    OpenedIffReachable(v, file, start);
    assert Chain(v, [start], start, start) && file in Gives(v, start);
    forall x | m in Gives(v, x) ensures x in st.opens <==> Reachable(v, start, x) {
      OpenedIffReachable(v, file, x);
    }
  }

  // ---------------------------------------------------------------- searches that do not stop

  /** A search for a name other than those already known may load this sibling. */
  ghost predicate Relevant(v: Views, s: string, known: set<string>)
  {
    exists n :: n in AllRefs(v) && n !in known && Provides(v, s, n)
  }

  /** Every existing file that a relevant sibling leads to parses. */
  ghost predicate SiblingsParse(v: Views, others: seq<string>, known: set<string>)
  {
    forall s :: s in others && Relevant(v, s, known) ==> AllParse(v, Visit(s, s))
  }

  /** Every file that a relevant sibling leads to exists. */
  ghost predicate SiblingsExist(v: Views, others: seq<string>, known: set<string>)
  {
    forall s :: s in others && Relevant(v, s, known) ==> AllExist(v, Visit(s, s))
  }

  lemma {:induction false} SearchDoesNotStop(v: Views, subs: seq<string>, others: seq<string>, st: Loaded,
      known: set<string>)
    requires Agrees(v) && InPlace(others) && Refers(v, subs)
    requires known <= st.defined && SiblingsParse(v, others, known)
    ensures !SearchSubs(v, subs, others, st).end.NoTemplate?
    ensures SiblingsExist(v, others, known) ==> SearchSubs(v, subs, others, st).end.Finished?
    decreases AllRefs(v) - st.defined, 0, |subs|
  {
    if subs != [] {
      if subs[0] in st.defined {
        SearchDoesNotStop(v, subs[1..], others, st, known);
      } else {
        var m := subs[0];
        assert m in AllRefs(v) - st.defined;
        var a := if m in others then LoadAndSearch(v, m, m, others, st) else Search(st, [], Finished);
        if m in others {
          LoadDoesNotStop(v, m, m, others, st, known);
        }
        if a.end.Finished? {
          ByDefineDoesNotStop(v, m, others, others, a.st, known);
          var b := ByDefine(v, m, others, others, a.st);
          if b.end.Finished? {
            SearchDoesNotStop(v, subs[1..], others, b.st, known);
          }
        }
      }
    }
  }

  lemma {:induction false} ByDefineDoesNotStop(v: Views, m: string, left: seq<string>, others: seq<string>, st: Loaded,
                                               known: set<string>)
    requires Agrees(v) && InPlace(others) && InPlace(left) && m in AllRefs(v) && m !in known
    requires forall s :: s in left ==> s in others
    requires known <= st.defined && SiblingsParse(v, others, known)
    ensures !ByDefine(v, m, left, others, st).end.NoTemplate?
    ensures SiblingsExist(v, others, known) ==> ByDefine(v, m, left, others, st).end.Finished?
    decreases AllRefs(v) - (st.defined + {m}), 2, |left|
  {
    if left != [] {
      if left[0] !in v.files || m !in v.files[left[0]].defineTags {
        ByDefineDoesNotStop(v, m, left[1..], others, st, known);
      } else {
        var a := LoadAndSearch(v, m, left[0], others, st);
        LoadDoesNotStop(v, m, left[0], others, st, known);
        if a.end.Finished? {
          ByDefineDoesNotStop(v, m, left[1..], others, a.st, known);
        }
      }
    }
  }

  lemma {:induction false} LoadDoesNotStop(v: Views, m: string, s: string, others: seq<string>, st: Loaded,
                                           known: set<string>)
    requires Agrees(v) && InPlace(others) && m in AllRefs(v) && Provides(v, s, m)
    requires s in others && known <= st.defined + {m} && SiblingsParse(v, others, known)
    requires Sound(v, Visit(s, s)) || m !in known
    ensures !LoadAndSearch(v, m, s, others, st).end.NoTemplate?
    ensures SiblingsExist(v, others, known) ==> LoadAndSearch(v, m, s, others, st).end.Finished?
    decreases AllRefs(v) - (st.defined + {m}), 1, 0
  {
    var l := LoadDeep(v, s, "", st);
    assert Chain(v, [Visit(s, s)], Visit(s, s), Visit(s, s));
    LoadFailure(v, s, "", st, Visit(s, s));
    if l.ending.Subs? {
      LoadDeepMeaning(v, s, "", st);
      RefersOfFile(v, Resolve(v, s, ""));
      ProvidesDefines(v, s, m, st);
      SearchDoesNotStop(v, l.ending.names, others, l.st, known);
    }
  }

  /** When the file, its siblings and all they lead to exist and parse, the template is finished. */
  lemma SoundTemplate(v: Views, file: string, others: seq<string>)
    requires Agrees(v) && InPlace(others) && SiblingsParse(v, others, {}) && SiblingsExist(v, others, {})
    requires Sound(v, Visit(file, Resolve(v, file, "")))
    ensures Template(v, file, others).end.Finished?
  {
    SoundLoads(v, file, "", Fresh(file));
    LoadDeepMeaning(v, file, "", Fresh(file));
    RefersOfFile(v, Resolve(v, file, ""));
    var l := Include(v, file);
    SearchDoesNotStop(v, l.ending.names, others, l.st, {});
  }

  // ---------------------------------------------------------------- neither a template nor an error

  /** When the existing files that siblings lead to parse, no file is left without template and error. */
  lemma TemplateOrError(v: Views, file: string, others: seq<string>)
    requires Agrees(v) && InPlace(others) && SiblingsParse(v, others, {})
    ensures Template(v, file, others).end != NoTemplate(false)
  {
    var l := Include(v, file);
    if l.ending.Subs? {
      LoadDeepMeaning(v, file, "", Fresh(file));
      RefersOfFile(v, Resolve(v, file, ""));
      SearchDoesNotStop(v, l.ending.names, others, l.st, {});
    }
  }

  /** The sibling can be opened and shows a `define` tag for the name. */
  predicate Tags(v: Views, s: string, m: string)
  {
    s in v.files && m in v.files[s].defineTags
  }

  /** The sibling at `k` is the last with a `define` tag for the name, and the first of these that does not parse. */
  predicate OnlyLastFails(v: Views, m: string, others: seq<string>, k: nat)
  {
    && k < |others| && Tags(v, others[k], m) && !v.files[others[k]].parses
    && (forall i :: k < i < |others| ==> !Tags(v, others[i], m))
    && (forall i :: 0 <= i < k && Tags(v, others[i], m) ==> v.files[others[i]].parses)
  }

  predicate NoneFails(v: Views, m: string, others: seq<string>)
  {
    forall i :: 0 <= i < |others| && Tags(v, others[i], m) ==> v.files[others[i]].parses
  }

  /** Siblings that searches for other names may load are sound, and so are those for `m` that parse. */
  ghost predicate OnlyDefinersFail(v: Views, m: string, others: seq<string>)
  {
    && SiblingsParse(v, others, {m}) && SiblingsExist(v, others, {m})
    && (forall s :: s in others && Tags(v, s, m) && v.files[s].parses ==> Sound(v, Visit(s, s)))
  }

  /** A sibling that does not parse ends the load with a parse error; a sound one is loaded. */
  lemma DefinerLoads(v: Views, m: string, s: string, others: seq<string>, st: Loaded)
    requires Agrees(v) && InPlace(others) && m in AllRefs(v) && OnlyDefinersFail(v, m, others)
    requires s in others && Tags(v, s, m) && !("../" <= s)
    ensures LoadAndSearch(v, m, s, others, st).end == if v.files[s].parses then Finished else NoTemplate(true)
  {
    if v.files[s].parses {
      LoadDoesNotStop(v, m, s, others, st, {m});
    }
  }

  lemma {:induction false} ByDefineEnds(v: Views, m: string, left: seq<string>, others: seq<string>, st: Loaded)
    requires Agrees(v) && InPlace(others) && InPlace(left) && m in AllRefs(v) && OnlyDefinersFail(v, m, others)
    requires forall s :: s in left ==> s in others
    ensures var end := ByDefine(v, m, left, others, st).end;
            && (end.Finished? <==> NoneFails(v, m, left))
            && (end == NoTemplate(false) <==> exists k: nat :: OnlyLastFails(v, m, left, k))
            && (end.Finished? || end == NoTemplate(false) || end.Panicked?)
    decreases |left|
  {
    if left != [] {
      var s, rest := left[0], left[1..];
      assert forall k :: 1 <= k < |left| ==> left[k] == rest[k - 1];
      assert forall k :: 0 <= k < |rest| ==> rest[k] == left[k + 1];
      var st1 := st;
      if Tags(v, s, m) {
        DefinerLoads(v, m, s, others, st);
        st1 := LoadAndSearch(v, m, s, others, st).st;
      }
      if Tags(v, s, m) && !v.files[s].parses {
        assert OnlyLastFails(v, m, left, 0) <==> !Tagged(v, m, rest);
      } else {
        ByDefineEnds(v, m, rest, others, st1);
        if k: nat :| OnlyLastFails(v, m, rest, k) {
          assert OnlyLastFails(v, m, left, k + 1);
        }
        if k: nat :| OnlyLastFails(v, m, left, k) {
          assert OnlyLastFails(v, m, rest, k - 1);
        }
      }
    }
  }

  /** A name the file refers to that no search loads anything for: it comes with the file, or is nobody's. */
  predicate NeedsNoSearch(v: Views, file: string, n: string, others: seq<string>)
  {
    || HasTemplateExt(n) || n == file || !Findable(v, n, others)
    || (Resolve(v, file, "") in v.files && n in v.files[Resolve(v, file, "")].defines)
  }

  lemma {:induction false} NotTaggedDefinesNothing(v: Views, m: string, left: seq<string>, others: seq<string>,
      st: Loaded)
    requires Agrees(v) && InPlace(others) && InPlace(left) && m in AllRefs(v) && !Tagged(v, m, left)
    ensures ByDefine(v, m, left, others, st) == Search(st, [], Finished)
    decreases |left|
  {
    if left != [] {
      var rest := left[1..];
      assert forall k :: 0 <= k < |rest| ==> rest[k] == left[k + 1];
      NotTaggedDefinesNothing(v, m, rest, others, st);
    }
  }

  lemma {:induction false} SkippedNames(v: Views, pre: seq<string>, tail: seq<string>, others: seq<string>, st: Loaded)
    requires Agrees(v) && InPlace(others) && Refers(v, pre + tail) && Refers(v, tail)
    requires forall n :: n in pre ==> n in st.defined || !Findable(v, n, others)
    ensures SearchSubs(v, pre + tail, others, st).end == SearchSubs(v, tail, others, st).end
    decreases |pre|
  {
    if pre == [] {
      assert pre + tail == tail;
    } else {
      assert (pre + tail)[0] == pre[0] && (pre + tail)[1..] == pre[1..] + tail;
      assert forall k :: 0 <= k < |pre[1..] + tail| ==> (pre[1..] + tail)[k] == (pre + tail)[k + 1];
      SkippedNames(v, pre[1..], tail, others, st);
      if pre[0] !in st.defined {
        NotTaggedDefinesNothing(v, pre[0], others, others, st);
      }
    }
  }

  /** What the file brings with it: the names it needs no search for, and not the one it lacks. */
  lemma IncludeDefines(v: Views, file: string, m: string, others: seq<string>)
    requires Sound(v, Visit(file, Resolve(v, file, ""))) && Resolve(v, file, "") in v.files
    requires forall y :: Reachable(v, Visit(file, Resolve(v, file, "")), y) ==> m !in Gives(v, y)
    ensures var l := Include(v, file);
            && l.ending == Subs(v.files[Resolve(v, file, "")].refs) && m !in l.st.defined
            && forall n :: n in l.ending.names && NeedsNoSearch(v, file, n, others) ==>
                             n in l.st.defined || !Findable(v, n, others)
  {
    var x, st, l := Visit(file, Resolve(v, file, "")), Fresh(file), Include(v, file);
    assert Chain(v, [x], x, x) && m !in Gives(v, x);
    SoundLoads(v, file, "", st);
    LoadDeepMeaning(v, file, "", st);
    IncludeMeaning(v, file);
    LoadGains(v, file, "", st);
    assert l.st.opens[0..] == l.st.opens;
    GivesAllMeaning(v, l.st.opens, m);
    assert Complete(v, l.st.opens[0], l.st.defined);
    RefersOfFile(v, x.path);
    assert v.files[x.path].defines <= Opened(st, file, x.path, v.files[x.path]).defined;
  }

  /**
   A file that lacks one name, which no sibling is called. The caller gets a template if and only if
   no sibling with a `define` tag for the name fails to parse. It is left with neither a template nor
   an error if and only if just the last of these siblings fails and the file refers to nothing after
   the name. Otherwise the search panics.
   */
  lemma NeitherTemplateNorError(v: Views, file: string, others: seq<string>, pre: seq<string>, m: string,
      post: seq<string>)
    requires Agrees(v) && InPlace(others) && Sound(v, Visit(file, Resolve(v, file, "")))
    requires Resolve(v, file, "") in v.files && v.files[Resolve(v, file, "")].refs == pre + ([m] + post) && m !in others
    requires forall n :: n in pre || n in post ==> NeedsNoSearch(v, file, n, others)
    requires forall y :: Reachable(v, Visit(file, Resolve(v, file, "")), y) ==> m !in Gives(v, y)
    requires OnlyDefinersFail(v, m, others)
    ensures var end := Template(v, file, others).end;
            && (end == NoTemplate(false) <==> post == [] && exists k: nat :: OnlyLastFails(v, m, others, k))
            && (end.Finished? <==> NoneFails(v, m, others))
            && (end.Finished? || end == NoTemplate(false) || end.Panicked?)
  {
    var path, l := Resolve(v, file, ""), Include(v, file);
    assert Chain(v, [Visit(file, path)], Visit(file, path), Visit(file, path));
    IncludeDefines(v, file, m, others);
    RefersOfFile(v, path);
    TailRefers(v, pre, [m] + post);
    SkippedNames(v, pre, [m] + post, others, l.st);
    MissingNameEnds(v, m, post, others, l.st);
  }

  lemma TailRefers(v: Views, pre: seq<string>, tail: seq<string>)
    requires Refers(v, pre + tail)
    ensures Refers(v, tail)
  {
    assert forall k :: 0 <= k < |tail| ==> (pre + tail)[|pre| + k] == tail[k];
  }

  lemma MissingNameEnds(v: Views, m: string, post: seq<string>, others: seq<string>, st: Loaded)
    requires Agrees(v) && InPlace(others) && Refers(v, [m] + post) && m !in others && m !in st.defined
    requires forall n :: n in post ==> n in st.defined || !Findable(v, n, others)
    requires OnlyDefinersFail(v, m, others)
    ensures var end := SearchSubs(v, [m] + post, others, st).end;
            && (end == NoTemplate(false) <==> post == [] && exists k: nat :: OnlyLastFails(v, m, others, k))
            && (end.Finished? <==> NoneFails(v, m, others))
            && (end.Finished? || end == NoTemplate(false) || end.Panicked?)
  {
    var subs := [m] + post;
    assert subs[0] == m && subs[1..] == post;
    assert m in AllRefs(v);
    TailRefers(v, [m], post);
    assert post + [] == post;
    TailRefers(v, post, []);
    ByDefineEnds(v, m, others, others, st);
    var b := ByDefine(v, m, others, others, st);
    SkippedNames(v, post, [], others, b.st);
  }

  /** The smallest case: one sibling, with a `define` tag for the only name that the file refers to. */
  lemma UnparsedDefiner(v: Views, file: string, m: string, s: string)
    requires v.files == map[file := File(true, [m], [], {}), s := File(false, [], [m], {})] && file != s
    requires !("../" <= file) && !("../" <= s) && m != file && m != s && !HasTemplateExt(m)
    ensures InPlace([s]) && Agrees(v) && Template(v, file, [s]).end == NoTemplate(false)
  {
    var x, others, pre := Visit(file, file), [s], [];
    assert others[0] == s && pre + ([m] + []) == [m];
    forall y | Reachable(v, x, y) ensures y == x {
      var path :| Chain(v, path, x, y);
      assert |path| > 1 ==> Edge(v, path[0], path[0 + 1]);
    }
    assert OnlyLastFails(v, m, others, 0);
    assert forall n :: n in AllRefs(v) ==> n == m;
    NeitherTemplateNorError(v, file, others, pre, m, []);
  }
}
