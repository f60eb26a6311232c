/**
 Resolving the names a template still lacks from its sibling files (_getTemplate and
 getTemplate of ctrl/template.go), and the loads as the code performs them: on a shared
 template set that they update.

 A load that fails costs the code its template: it goes on with a nil one, which panics when it
 is next used. Siblings that cannot be opened are skipped while looking for `define` tags.
 */
module TemplateSearch {
  import opened Templates

  /** How a search ends: with the template, in a panic, or with a nil template and perhaps an error. */
  datatype End = Finished | Panicked | NoTemplate(err: bool)

  /** Where a search got to with its template, the files it loaded itself, and how it ended. */
  datatype Search = Search(st: Loaded, tops: seq<string>, end: End)

  /** The names seen in `define` tags are names the parser defines. */
  ghost predicate Agrees(v: Views)
  {
    forall p :: p in v.files && v.files[p].parses ==> forall d :: d in v.files[p].defineTags ==> d in v.files[p].defines
  }

  predicate InPlace(others: seq<string>)
  {
    forall k :: 0 <= k < |others| ==> !("../" <= others[k])
  }

  /** What a load of `file` is sure to define. */
  predicate Provides(v: Views, file: string, m: string)
  {
    m == file || (!("../" <= file) && file in v.files && m in v.files[file].defineTags)
  }

  lemma ProvidesDefines(v: Views, file: string, m: string, st: Loaded)
    requires Agrees(v) && Provides(v, file, m) && LoadDeep(v, file, "", st).ending.Subs?
    ensures m in LoadDeep(v, file, "", st).st.defined
  {
    LoadDeepMeaning(v, file, "", st);
    var path := Resolve(v, file, "");
    RefersOfFile(v, path);
    var st1 := Opened(st, file, path, v.files[path]);
    assert st1.defined <= LoadRefs(v, v.files[path].refs, path, st1).st.defined;
  }

  /** Some sibling that can be opened shows a `define` tag for the name. */
  predicate Tagged(v: Views, m: string, others: seq<string>)
  {
    exists k :: 0 <= k < |others| && others[k] in v.files && m in v.files[others[k]].defineTags
  }

  /** How the second loop and the names after it end when the first loop has left no template. */
  function AfterFailedLoad(v: Views, m: string, others: seq<string>, more: seq<string>, end: End): End
  {
    if end.Panicked? || Tagged(v, m, others) || more != [] then Panicked else end
  }

  /** How the names after it end when the second loop has left no template. */
  function AfterFailedTag(more: seq<string>, end: End): End
  {
    if end.Panicked? || more != [] then Panicked else end
  }

  /**
   What _getTemplate does. Each nested search starts after a name that was undefined has become
   defined, and the defined names never shrink, so it terminates.
   */
  ghost function SearchSubs(v: Views, subs: seq<string>, others: seq<string>, st: Loaded): (r: Search)
    requires Agrees(v) && InPlace(others) && Refers(v, subs)
    ensures st.defined <= r.st.defined
    decreases AllRefs(v) - st.defined, 0, |subs|
  {
    if subs == [] then Search(st, [], Finished)
    else if subs[0] in st.defined then SearchSubs(v, subs[1..], others, st)
    else
      var m := subs[0];
      assert m in AllRefs(v) - st.defined;
      var a := if m in others then LoadAndSearch(v, m, m, others, st) else Search(st, [], Finished);
      if !a.end.Finished? then a.(end := AfterFailedLoad(v, m, others, subs[1..], a.end))
      else
        var b := ByDefine(v, m, others, others, a.st);
        if !b.end.Finished? then Search(b.st, a.tops + b.tops, AfterFailedTag(subs[1..], b.end))
        else
          var c := SearchSubs(v, subs[1..], others, b.st);
          Search(c.st, a.tops + b.tops + c.tops, c.end)
  }

  /** Loads every sibling with a `define` tag for the name; an error of such a load is only logged. */
  ghost function ByDefine(v: Views, m: string, left: seq<string>, others: seq<string>, st: Loaded): (r: Search)
    requires Agrees(v) && InPlace(others) && InPlace(left) && m in AllRefs(v)
    ensures st.defined <= r.st.defined
    decreases AllRefs(v) - (st.defined + {m}), 2, |left|
  {
    if left == [] then Search(st, [], Finished)
    else if left[0] !in v.files || m !in v.files[left[0]].defineTags then ByDefine(v, m, left[1..], others, st)
    else
      var a := LoadAndSearch(v, m, left[0], others, st);
      if !a.end.Finished? then a.(end := AfterFailedLoad(v, m, left[1..], [], Logged(a.end)))
      else
        var b := ByDefine(v, m, left[1..], others, a.st);
        Search(b.st, a.tops + b.tops, b.end)
  }

  function Logged(end: End): End
  {
    if end.NoTemplate? then NoTemplate(false) else end
  }

  function EndOf(e: Ending): End
  {
    match e
    case Subs(_) => Finished
    case ParseError => NoTemplate(true)
    case NotFound => Panicked
  }

  ghost function LoadAndSearch(v: Views, m: string, file: string, others: seq<string>, st: Loaded): (r: Search)
    requires Agrees(v) && InPlace(others) && m in AllRefs(v) && Provides(v, file, m)
    ensures st.defined <= r.st.defined
    decreases AllRefs(v) - (st.defined + {m}), 1, 0
  {
    var l := LoadDeep(v, file, "", st);
    if !l.ending.Subs? then Search(l.st, [file], EndOf(l.ending))
    else
      LoadDeepMeaning(v, file, "", st);
      RefersOfFile(v, Resolve(v, file, ""));
      ProvidesDefines(v, file, m, st);
      var r := SearchSubs(v, l.ending.names, others, l.st);
      Search(r.st, [file] + r.tops, r.end)
  }

  /** Some sibling has the name, or a `define` tag for it. */
  predicate Findable(v: Views, m: string, others: seq<string>)
  {
    m in others || Tagged(v, m, others)
  }

  /** Every findable name that the file refers to is defined. */
  predicate Served(v: Views, file: string, others: seq<string>, defined: set<string>)
  {
    && Resolve(v, file, "") in v.files
    && AllServed(v, v.files[Resolve(v, file, "")].refs, others, defined)
  }

  predicate AllServed(v: Views, names: seq<string>, others: seq<string>, defined: set<string>)
  {
    forall k :: 0 <= k < |names| && Findable(v, names[k], others) ==> names[k] in defined
  }

  predicate TopsServed(v: Views, tops: seq<string>, others: seq<string>, defined: set<string>)
  {
    forall k :: 0 <= k < |tops| ==> Served(v, tops[k], others, defined)
  }

  /** What a search that ran to its end has established. */
  ghost predicate Done(v: Views, r: Search, others: seq<string>, st: Loaded)
  {
    && TopsServed(v, r.tops, others, r.st.defined)
    && st.opens <= r.st.opens
    && AllComplete(v, r.st.opens[|st.opens|..], r.st.defined)
  }

  lemma ServedMore(v: Views, tops: seq<string>, others: seq<string>, d: set<string>, e: set<string>)
    requires TopsServed(v, tops, others, d) && d <= e
    ensures TopsServed(v, tops, others, e)
  {
    forall k | 0 <= k < |tops| ensures Served(v, tops[k], others, e) {
      assert Served(v, tops[k], others, d);
    }
  }

  lemma DoneTwice(v: Views, a: Search, b: Search, others: seq<string>, st: Loaded)
    requires Done(v, a, others, st) && Done(v, b, others, a.st) && a.st.defined <= b.st.defined
    ensures Done(v, Search(b.st, a.tops + b.tops, b.end), others, st)
  {
    ServedMore(v, a.tops, others, a.st.defined, b.st.defined);
    var x, y := a.st.opens[|st.opens|..], b.st.opens[|a.st.opens|..];
    CompleteMore(v, x, a.st.defined, b.st.defined);
    assert b.st.opens == a.st.opens + y;
    assert b.st.opens[|st.opens|..] == x + y;
  }

  lemma {:induction false} SearchMeaning(v: Views, subs: seq<string>, others: seq<string>, st: Loaded)
    requires Agrees(v) && InPlace(others) && Refers(v, subs)
    ensures var r := SearchSubs(v, subs, others, st);
            r.end.Finished? ==> Done(v, r, others, st) && AllServed(v, subs, others, r.st.defined)
    decreases AllRefs(v) - st.defined, 0, |subs|
  {
    var r := SearchSubs(v, subs, others, st);
    if subs != [] && r.end.Finished? {
      var m, rest := subs[0], subs[1..];
      assert forall k :: 1 <= k < |subs| ==> subs[k] == rest[k - 1];
      if m in st.defined {
        SearchMeaning(v, rest, others, st);
      } else {
        assert m in AllRefs(v) - st.defined;
        var a := Search(st, [], Finished);
        assert Done(v, a, others, st);
        if m in others {
          a := LoadAndSearch(v, m, m, others, st);
          LoadAndSearchMeaning(v, m, m, others, st);
        }
        var b := ByDefine(v, m, others, others, a.st);
        ByDefineMeaning(v, m, others, others, a.st);
        DoneTwice(v, a, b, others, st);
        SearchMeaning(v, rest, others, b.st);
        DoneTwice(v, Search(b.st, a.tops + b.tops, b.end), SearchSubs(v, rest, others, b.st), others, st);
        if Findable(v, m, others) && m !in others {
          var k :| 0 <= k < |others| && others[k] in v.files && m in v.files[others[k]].defineTags;
        }
      }
    }
  }

  lemma {:induction false} ByDefineMeaning(v: Views, m: string, left: seq<string>, others: seq<string>, st: Loaded)
    requires Agrees(v) && InPlace(others) && InPlace(left) && m in AllRefs(v)
    ensures var r := ByDefine(v, m, left, others, st);
            r.end.Finished? ==>
              && Done(v, r, others, st)
              && (forall k :: 0 <= k < |left| && left[k] in v.files && m in v.files[left[k]].defineTags ==>
                m in r.st.defined)
    decreases AllRefs(v) - (st.defined + {m}), 2, |left|
  {
    var r := ByDefine(v, m, left, others, st);
    if left != [] && r.end.Finished? {
      assert forall k :: 1 <= k < |left| ==> left[k] == left[1..][k - 1];
      if left[0] !in v.files || m !in v.files[left[0]].defineTags {
        ByDefineMeaning(v, m, left[1..], others, st);
      } else {
        var a := LoadAndSearch(v, m, left[0], others, st);
        LoadAndSearchMeaning(v, m, left[0], others, st);
        ByDefineMeaning(v, m, left[1..], others, a.st);
        DoneTwice(v, a, ByDefine(v, m, left[1..], others, a.st), others, st);
      }
    }
  }

  lemma {:induction false} LoadAndSearchMeaning(v: Views, m: string, file: string, others: seq<string>, st: Loaded)
    requires Agrees(v) && InPlace(others) && m in AllRefs(v) && Provides(v, file, m)
    ensures var r := LoadAndSearch(v, m, file, others, st);
            r.end.Finished? ==> Done(v, r, others, st) && m in r.st.defined
    decreases AllRefs(v) - (st.defined + {m}), 1, 0
  {
    var l := LoadDeep(v, file, "", st);
    if l.ending.Subs? {
      LoadDeepMeaning(v, file, "", st);
      RefersOfFile(v, Resolve(v, file, ""));
      ProvidesDefines(v, file, m, st);
      SearchMeaning(v, l.ending.names, others, l.st);
      var r := SearchSubs(v, l.ending.names, others, l.st);
      if r.end.Finished? {
        var first := Visit(file, Resolve(v, file, ""));
        assert l.st.opens == (st.opens + [first]) + Later(st, l.st);
        var here := [first] + Later(st, l.st);
        assert l.st.opens[|st.opens|..] == here;
        CompleteMore(v, here, l.st.defined, r.st.defined);
        var more := r.st.opens[|l.st.opens|..];
        assert r.st.opens == l.st.opens + more;
        assert r.st.opens[|st.opens|..] == here + more;
        assert Served(v, file, others, r.st.defined);
        assert TopsServed(v, [file] + r.tops, others, r.st.defined);
      }
    }
  }

  /** What getTemplate makes of a file and its siblings. */
  ghost function Template(v: Views, file: string, others: seq<string>): Search
    requires Agrees(v) && InPlace(others)
  {
    var l := Include(v, file);
    if !l.ending.Subs? then Search(l.st, [file], EndOf(l.ending))
    else
      LoadDeepMeaning(v, file, "", Fresh(file));
      RefersOfFile(v, Resolve(v, file, ""));
      var r := SearchSubs(v, l.ending.names, others, l.st);
      Search(r.st, [file] + r.tops, r.end)
  }

  /**
   A finished template: every template included by any opened file is defined, and every name
   that the file, or a sibling loaded for it, refers to is defined if any sibling can supply it.
   */
  lemma TemplateMeaning(v: Views, file: string, others: seq<string>)
    requires Agrees(v) && InPlace(others)
    ensures var r := Template(v, file, others);
            r.end.Finished? ==> AllComplete(v, r.st.opens, r.st.defined) && TopsServed(v, r.tops, others, r.st.defined)
    ensures file in Template(v, file, others).tops
  {
    var l := Include(v, file);
    if l.ending.Subs? {
      LoadDeepMeaning(v, file, "", Fresh(file));
      IncludeMeaning(v, file);
      RefersOfFile(v, Resolve(v, file, ""));
      SearchMeaning(v, l.ending.names, others, l.st);
      var r := SearchSubs(v, l.ending.names, others, l.st);
      if r.end.Finished? {
        CompleteMore(v, l.st.opens, l.st.defined, r.st.defined);
        assert r.st.opens == l.st.opens + r.st.opens[|l.st.opens|..];
        assert Served(v, file, others, r.st.defined);
        assert TopsServed(v, [file] + r.tops, others, r.st.defined);
      }
    }
    assert ([file] + (if l.ending.Subs? then Template(v, file, others).tops[1..] else []))[0] == file;
  }

  // ---------------------------------------------------------------- a limit of the search

  /** One file includes a second, which uses a block that only a third defines. */
  function ThreeFiles(a: string, b: string, c: string, block: string, join: (string, string) -> string): Views
  {
    Views(map[a := File(true, [b], [], {}), b := File(true, [block], [], {}),
              c := File(true, [], [block], {block})], join)
  }

  /**
   Names used by an included file, rather than by the file itself or a sibling loaded for it,
   are not searched: a sibling could supply the block, and does not.
   */
  lemma IncludedNamesAreNotSearched(a: string, b: string, c: string, block: string, join: (string, string) -> string)
    requires a != b && a != c && b != c && block != a && block != b
    requires InPlace([a, b, c]) && HasTemplateExt(b) && !HasTemplateExt(block)
    ensures var v := ThreeFiles(a, b, c, block, join);
            && Agrees(v) && Findable(v, block, [a, b, c])
            && Template(v, a, [a, b, c]).end.Finished?
            && block !in Template(v, a, [a, b, c]).st.defined
  {
    var v := ThreeFiles(a, b, c, block, join);
    var others := [a, b, c];
    assert others[0] == a && others[1] == b && others[2] == c;
    assert block in v.files[others[2]].defineTags;
    var st1 := Opened(Fresh(a), a, a, v.files[a]);
    var st2 := Opened(st1, b, b, v.files[b]);
    assert st2.defined == {a, b};
    RefersOfFile(v, a);
    RefersOfFile(v, b);
    OneRef(v, block, b, st2);
    assert LoadDeep(v, b, a, st1) == Load(st2, Subs([block]));
    OneRef(v, b, a, st1);
    assert Include(v, a) == Load(st2, Subs([b]));
    assert SearchSubs(v, [b], others, st2) == Search(st2, [], Finished) by {
      assert [b][1..] == [];
    }
  }

  /** The references of a file with one reference. */
  lemma OneRef(v: Views, m: string, parent: string, st: Loaded)
    requires Refers(v, [m])
    ensures LoadRefs(v, [m], parent, st) ==
            if m in st.defined || !HasTemplateExt(m) then Load(st, Subs([]))
            else var l := LoadDeep(v, m, parent, st); if l.ending.Subs? then Load(l.st, Subs([])) else l
  {
    assert [m][1..] == [];
    assert m == [m][0];
  }

  // ---------------------------------------------------------------- on a shared set

  class TemplateSet {
    var defined: set<string>
    ghost var opens: seq<Visit>

    constructor (file: string)
      ensures State() == Fresh(file)
    {
      defined, opens := {file}, [];
    }

    ghost function State(): Loaded
      reads this
    {
      Loaded(defined, opens)
    }

    /** Opens and parses a file into the set, then whatever it includes that the set lacks. */
    method GetTplDeep(v: Views, file: string, parent: string) returns (e: Ending)
      modifies this
      ensures Load(State(), e) == LoadDeep(v, file, parent, old(State()))
      decreases AllRefs(v) - (defined + {file})
    {
      ghost var st := State();
      var path := Resolve(v, file, parent);
      if path !in v.files {
        return NotFound;
      }
      var f := v.files[path];
      defined := defined + {file};
      opens := opens + [Visit(file, path)];
      if !f.parses {
        return ParseError;
      }
      defined := defined + f.defines;
      assert State() == Opened(st, file, path, f);
      RefersOfFile(v, path);
      ghost var goal := LoadRefs(v, f.refs, path, State());
      assert f.refs[0..] == f.refs;
      for i := 0 to |f.refs|
        invariant old(defined) + {file} <= defined
        invariant Refers(v, f.refs[i..])
        invariant goal == LoadRefs(v, f.refs[i..], path, State())
      {
        assert f.refs[i..][1..] == f.refs[i + 1..];
        var m := f.refs[i];
        if m in defined || !HasTemplateExt(m) {
          continue;
        }
        assert m in AllRefs(v) - defined;
        var r := GetTplDeep(v, m, path);
        if !r.Subs? {
          return r;
        }
      }
      return Subs(f.refs);
    }

    /** Supplies the names in `subs` that the set lacks from the siblings. */
    method SearchOthers(v: Views, subs: seq<string>, others: seq<string>) returns (end: End, ghost tops: seq<string>)
      requires Agrees(v) && InPlace(others) && Refers(v, subs)
      modifies this
      ensures Search(State(), tops, end) == SearchSubs(v, subs, others, old(State()))
      decreases AllRefs(v) - defined, 0
    {
      tops := [];
      ghost var goal := SearchSubs(v, subs, others, State());
      assert subs[0..] == subs;
      AfterNothing(goal);
      for i := 0 to |subs|
        invariant old(defined) <= defined
        invariant goal == Following(tops, SearchSubs(v, subs[i..], others, State()))
      {
        assert subs[i..][1..] == subs[i + 1..];
        var m := subs[i];
        if m in defined {
          continue;
        }
        assert m in AllRefs(v) - defined;
        ghost var st, before := State(), tops;
        ghost var a := Search(st, [], Finished);
        if m in others {
          a := LoadAndSearch(v, m, m, others, st);
          ghost var more;
          end, more := LoadOne(v, m, m, others);
          if !end.Finished? {
            tops := tops + more;
            end := AfterFailedLoad(v, m, others, subs[i + 1..], end);
            return;
          }
        }
        assert State() == a.st && a.end.Finished?;
        ghost var found;
        end, found := LoadDefining(v, m, others);
        tops := before + (a.tops + found);
        if !end.Finished? {
          end := AfterFailedTag(subs[i + 1..], end);
          return;
        }
        FollowingTwice(before, a.tops + found, SearchSubs(v, subs[i + 1..], others, State()));
      }
      end := Finished;
      assert tops + [] == tops;
    }

    /** The second loop of _getTemplate: every sibling with a `define` tag for the name. */
    method LoadDefining(v: Views, m: string, others: seq<string>) returns (end: End, ghost tops: seq<string>)
      requires Agrees(v) && InPlace(others) && m in AllRefs(v)
      modifies this
      ensures old(defined) <= defined
      ensures Search(State(), tops, end) == ByDefine(v, m, others, others, old(State()))
      decreases AllRefs(v) - (defined + {m}), 2
    {
      tops := [];
      ghost var goal := ByDefine(v, m, others, others, State());
      assert others[0..] == others;
      AfterNothing(goal);
      for i := 0 to |others|
        invariant old(defined) <= defined
        invariant InPlace(others[i..])
        invariant goal == Following(tops, ByDefine(v, m, others[i..], others, State()))
      {
        assert others[i..][1..] == others[i + 1..];
        var other := others[i];
        if other !in v.files {
          continue;
        }
        if m in v.files[other].defineTags {
          ghost var more;
          end, more := LoadOne(v, m, other, others);
          ghost var before := tops;
          tops := tops + more;
          if !end.Finished? {
            end := AfterFailedLoad(v, m, others[i + 1..], [], Logged(end));
            return;
          }
          FollowingTwice(before, more, ByDefine(v, m, others[i + 1..], others, State()));
        }
      }
      end := Finished;
      assert tops + [] == tops;
    }

    /** Loads one sibling, then searches for what it refers to. */
    method LoadOne(v: Views, m: string, file: string, others: seq<string>) returns (end: End, ghost tops: seq<string>)
      requires Agrees(v) && InPlace(others) && m in AllRefs(v) && Provides(v, file, m)
      modifies this
      ensures old(defined) <= defined
      ensures Search(State(), tops, end) == LoadAndSearch(v, m, file, others, old(State()))
      decreases AllRefs(v) - (defined + {m}), 1
    {
      ghost var st := State();
      var e := GetTplDeep(v, file, "");
      if !e.Subs? {
        return EndOf(e), [file];
      }
      LoadDeepMeaning(v, file, "", st);
      RefersOfFile(v, Resolve(v, file, ""));
      ProvidesDefines(v, file, m, st);
      ghost var more;
      end, more := SearchOthers(v, e.names, others);
      tops := [file] + more;
    }
  }

  function Following(tops: seq<string>, s: Search): Search
  {
    s.(tops := tops + s.tops)
  }

  lemma AfterNothing(s: Search)
    ensures Following([], s) == s
  {
    assert [] + s.tops == s.tops;
  }

  lemma FollowingTwice(a: seq<string>, b: seq<string>, s: Search)
    ensures Following(a, Following(b, s)) == Following(a + b, s)
  {
    assert a + (b + s.tops) == (a + b) + s.tops;
  }

  method GetTemplate(v: Views, file: string, others: seq<string>)
    returns (t: TemplateSet, end: End, ghost tops: seq<string>)
    requires Agrees(v) && InPlace(others)
    ensures Search(t.State(), tops, end) == Template(v, file, others)
  {
    t := new TemplateSet(file);
    var e := t.GetTplDeep(v, file, "");
    if !e.Subs? {
      return t, EndOf(e), [file];
    }
    LoadDeepMeaning(v, file, "", Fresh(file));
    RefersOfFile(v, Resolve(v, file, ""));
    ghost var more;
    end, more := t.SearchOthers(v, e.names, others);
    tops := [file] + more;
  }
}
