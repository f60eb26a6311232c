/**
 How deep the search for missing names nests (_getTemplate of ctrl/template.go), and when it
 never ends. The search is given here with a bound on its nested calls; it yields nothing if it
 needs more. Unlike `SearchSubs` this asks nothing of the `define` tags.
 */
module TemplateTermination {
  import opened Wrappers
  import opened Templates
  import opened TemplateSearch

  function SearchWithin(v: Views, subs: seq<string>, others: seq<string>, st: Loaded, depth: nat): Option<Search>
    decreases depth, 2, |subs|
  {
    if subs == [] then Some(Search(st, [], Finished))
    else if subs[0] in st.defined then SearchWithin(v, subs[1..], others, st, depth)
    else
      var m := subs[0];
      var a :- if m in others then LoadWithin(v, m, others, st, depth) else Some(Search(st, [], Finished));
      if !a.end.Finished? then Some(a.(end := AfterFailedLoad(v, m, others, subs[1..], a.end)))
      else
        var b :- DefineWithin(v, m, others, others, a.st, depth);
        if !b.end.Finished? then Some(Search(b.st, a.tops + b.tops, AfterFailedTag(subs[1..], b.end)))
        else
          var c :- SearchWithin(v, subs[1..], others, b.st, depth);
          Some(Search(c.st, a.tops + b.tops + c.tops, c.end))
  }

  function DefineWithin(v: Views, m: string, left: seq<string>, others: seq<string>, st: Loaded,
      depth: nat): Option<Search>
    decreases depth, 1, |left|
  {
    if left == [] then Some(Search(st, [], Finished))
    else if left[0] !in v.files || m !in v.files[left[0]].defineTags then
      DefineWithin(v, m, left[1..], others, st, depth)
    else
      var a :- LoadWithin(v, left[0], others, st, depth);
      if !a.end.Finished? then Some(a.(end := AfterFailedLoad(v, m, left[1..], [], Logged(a.end))))
      else
        var b :- DefineWithin(v, m, left[1..], others, a.st, depth);
        Some(Search(b.st, a.tops + b.tops, b.end))
  }

  function LoadWithin(v: Views, file: string, others: seq<string>, st: Loaded, depth: nat): Option<Search>
    decreases depth, 0
  {
    var l := LoadDeep(v, file, "", st);
    if !l.ending.Subs? then Some(Search(l.st, [file], EndOf(l.ending)))
    else if depth == 0 then None
    else
      var r :- SearchWithin(v, l.ending.names, others, l.st, depth - 1);
      Some(Search(r.st, [file] + r.tops, r.end))
  }

  function TemplateWithin(v: Views, file: string, others: seq<string>, depth: nat): Option<Search>
  {
    var l := Include(v, file);
    if !l.ending.Subs? then Some(Search(l.st, [file], EndOf(l.ending)))
    else
      var r :- SearchWithin(v, l.ending.names, others, l.st, depth);
      Some(Search(r.st, [file] + r.tops, r.end))
  }

  // ---------------------------------------------------------------- where tags agree with the parser

  lemma {:induction false} FewerIn(a: set<string>, b: set<string>)
    requires a <= b
    ensures |a| <= |b|
    decreases |a|
  {
    if x :| x in a {
      FewerIn(a - {x}, b - {x});
    }
  }

  /** The names still undefined once `m` is defined. */
  lemma OneLess(v: Views, m: string, st: Loaded, later: Loaded)
    requires m in AllRefs(v) - st.defined && st.defined + {m} <= later.defined
    ensures |AllRefs(v) - later.defined| < |AllRefs(v) - st.defined|
  {
    FewerIn(AllRefs(v) - later.defined, AllRefs(v) - st.defined - {m});
  }

  lemma {:induction false} SearchDepth(v: Views, subs: seq<string>, others: seq<string>, st: Loaded, depth: nat)
    requires Agrees(v) && InPlace(others) && Refers(v, subs)
    requires |AllRefs(v) - st.defined| <= depth
    ensures SearchWithin(v, subs, others, st, depth) == Some(SearchSubs(v, subs, others, st))
    decreases depth, 2, |subs|
  {
    if subs != [] {
      if subs[0] in st.defined {
        SearchDepth(v, subs[1..], others, st, depth);
      } else {
        var m := subs[0];
        assert m in AllRefs(v) - st.defined;
        OneLess(v, m, st, Loaded(st.defined + {m}, []));
        var a := if m in others then LoadAndSearch(v, m, m, others, st) else Search(st, [], Finished);
        if m in others {
          LoadDepth(v, m, m, others, st, depth);
        }
        if a.end.Finished? {
          FewerIn(AllRefs(v) - (a.st.defined + {m}), AllRefs(v) - (st.defined + {m}));
          DefineDepth(v, m, others, others, a.st, depth);
          var b := ByDefine(v, m, others, others, a.st);
          FewerIn(AllRefs(v) - b.st.defined, AllRefs(v) - st.defined);
          if b.end.Finished? {
            SearchDepth(v, subs[1..], others, b.st, depth);
          }
        }
      }
    }
  }

  lemma {:induction false} DefineDepth(v: Views, m: string, left: seq<string>, others: seq<string>, st: Loaded,
      depth: nat)
    requires Agrees(v) && InPlace(others) && InPlace(left) && m in AllRefs(v)
    requires |AllRefs(v) - (st.defined + {m})| < depth
    ensures DefineWithin(v, m, left, others, st, depth) == Some(ByDefine(v, m, left, others, st))
    decreases depth, 1, |left|
  {
    if left != [] {
      if left[0] !in v.files || m !in v.files[left[0]].defineTags {
        DefineDepth(v, m, left[1..], others, st, depth);
      } else {
        LoadDepth(v, m, left[0], others, st, depth);
        var a := LoadAndSearch(v, m, left[0], others, st);
        if a.end.Finished? {
          FewerIn(AllRefs(v) - (a.st.defined + {m}), AllRefs(v) - (st.defined + {m}));
          DefineDepth(v, m, left[1..], others, a.st, depth);
        }
      }
    }
  }

  lemma {:induction false} LoadDepth(v: Views, m: string, file: string, others: seq<string>, st: Loaded, depth: nat)
    requires Agrees(v) && InPlace(others) && m in AllRefs(v) && Provides(v, file, m)
    requires |AllRefs(v) - (st.defined + {m})| < depth
    ensures LoadWithin(v, file, others, st, depth) == Some(LoadAndSearch(v, m, file, others, st))
    decreases depth, 0
  {
    var l := LoadDeep(v, file, "", st);
    if l.ending.Subs? {
      LoadDeepMeaning(v, file, "", st);
      RefersOfFile(v, Resolve(v, file, ""));
      ProvidesDefines(v, file, m, st);
      FewerIn(AllRefs(v) - l.st.defined, AllRefs(v) - (st.defined + {m}));
      SearchDepth(v, l.ending.names, others, l.st, depth - 1);
    }
  }

  /** Searches nest no deeper than there are names that files refer to and the file does not bring with it. */
  lemma TemplateDepth(v: Views, file: string, others: seq<string>, depth: nat)
    requires Agrees(v) && InPlace(others)
    requires |AllRefs(v) - Include(v, file).st.defined| <= depth
    ensures TemplateWithin(v, file, others, depth) == Some(Template(v, file, others))
  {
    var l := Include(v, file);
    if l.ending.Subs? {
      LoadDeepMeaning(v, file, "", Fresh(file));
      RefersOfFile(v, Resolve(v, file, ""));
      SearchDepth(v, l.ending.names, others, l.st, depth);
    }
  }

  // ---------------------------------------------------------------- where they do not

  /**
   A file shows a `define` tag for a name (in a comment, say) that the parser does not define,
   and refers to that name itself.
   */
  predicate Misleading(v: Views, s: string, m: string)
  {
    && s in v.files && !("../" <= s) && s != m && !HasTemplateExt(m)
    && v.files[s].parses && v.files[s].refs == [m] && m in v.files[s].defineTags && m !in v.files[s].defines
  }

  predicate FirstTagged(v: Views, m: string, left: seq<string>, k: nat)
  {
    && k < |left| && left[k] in v.files && m in v.files[left[k]].defineTags
    && forall i :: 0 <= i < k && left[i] in v.files ==> m !in v.files[left[i]].defineTags
  }

  /** Such a load succeeds, defines nothing new but its own name, and asks for the name again. */
  lemma MisleadingLoads(v: Views, s: string, m: string, st: Loaded)
    requires Misleading(v, s, m) && m !in st.defined
    ensures var l := LoadDeep(v, s, "", st);
            l.ending == Subs([m]) && l.st.defined == st.defined + {s} + v.files[s].defines && m !in l.st.defined
  {
    RefersOfFile(v, s);
    OneRef(v, m, s, Opened(st, s, s, v.files[s]));
  }

  lemma {:induction false} SearchNeverEnds(v: Views, m: string, others: seq<string>, k: nat, st: Loaded, depth: nat)
    requires FirstTagged(v, m, others, k) && Misleading(v, others[k], m) && m !in others && m !in st.defined
    ensures SearchWithin(v, [m], others, st, depth) == None
    decreases depth, |others| + 1
  {
    assert others[0..] == others;
    DefineNeverEnds(v, m, others, 0, k, st, depth);
  }

  lemma {:induction false} DefineNeverEnds(v: Views, m: string, others: seq<string>, i: nat, k: nat, st: Loaded,
      depth: nat)
    requires FirstTagged(v, m, others, k) && Misleading(v, others[k], m) && m !in others && m !in st.defined && i <= k
    ensures DefineWithin(v, m, others[i..], others, st, depth) == None
    decreases depth, k - i
  {
    if i < k {
      assert others[i..][1..] == others[i + 1..];
      DefineNeverEnds(v, m, others, i + 1, k, st, depth);
    } else {
      MisleadingLoads(v, others[k], m, st);
      if depth > 0 {
        SearchNeverEnds(v, m, others, k, LoadDeep(v, others[k], "", st).st, depth - 1);
      }
    }
  }

  /**
   The agreement of tags and parser is needed: a file that lacks a name for which a misleading
   sibling comes first makes getTemplate search without end, however deep it may go.
   */
  lemma DisagreementNeverEnds(v: Views, file: string, others: seq<string>, m: string, k: nat, depth: nat)
    requires FirstTagged(v, m, others, k) && Misleading(v, others[k], m) && m !in others
    requires !("../" <= file) && file in v.files && v.files[file].parses && v.files[file].refs == [m]
    requires m != file && m !in v.files[file].defines
    ensures TemplateWithin(v, file, others, depth) == None
    ensures !Agrees(v)
  {
    RefersOfFile(v, file);
    var st := Opened(Fresh(file), file, file, v.files[file]);
    OneRef(v, m, file, st);
    assert Include(v, file) == Load(st, Subs([m]));
    SearchNeverEnds(v, m, others, k, st, depth);
  }
}
