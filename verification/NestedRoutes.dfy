/**
 Routes nested by path (addRegexpMatcher of route.go with NewRoute and Subrouter of mux_route.go):
 what a path adds to a route that has one already, and which requests nested routes answer.
 */
module NestedRoutes {
  import opened Wrappers
  import Braces
  import opened Text
  import opened Utf8
  import opened Regexp
  import opened Matching
  import opened NestedTemplates
  import opened RouteMatching
  import opened RouteGraph
  import opened RouteForest
  import opened RouteCalls
  import opened RouteReports

  predicate IsPathType(typ: RegexpType)
  {
    typ == PathType || typ == PrefixType
  }

  /** A route's path is what its template compiles to. */
  predicate PathCompiled(g: RegexpGroup)
  {
    g.path.Some? ==>
      IsPathType(g.path.value.typ) && Compiled(g.path.value.template, g.path.value.typ) == Ok(g.path.value)
  }

  /** The literals and names of a path do not depend on its being a prefix. */
  lemma SameForPrefix(tpl: string, a: RegexpType, b: RegexpType)
    requires a != QueryType && b != QueryType
    ensures Compiled(tpl, a).Ok? <==> Compiled(tpl, b).Ok?
    ensures Compiled(tpl, a).Err? ==> Compiled(tpl, a).error == Compiled(tpl, b).error
    ensures Compiled(tpl, a).Ok? ==>
              var x, y := Compiled(tpl, a).value, Compiled(tpl, b).value;
              x.segs == y.segs && x.last == y.last && x.template == tpl && x.typ == a && !x.loose
  {
  }

  lemma AddKeepsCompiled<M>(rec: RouteRec<M>, path: string, typ: RegexpType)
    requires (typ == QueryType ==> '=' in path) && PathCompiled(rec.conf.group)
    ensures PathCompiled(AddRegexp(rec, path, typ).conf.group)
  {
    if IsPathType(typ) && Compiled(FullTemplate(rec.conf.group, path, typ), typ).Ok? {
      SameForPrefix(FullTemplate(rec.conf.group, path, typ), typ, typ);
    }
  }

  ghost predicate AllCompiled<R, M>(s: Snap<R, M>)
  {
    && (forall r :: r in s.rs ==> PathCompiled(s.rs[r].conf.group))
    && (forall m :: m in s.ms ==> PathCompiled(s.ms[m].conf.group))
  }

  /** So it is in every configuration after any run. */
  lemma {:induction false} RunKeepsCompiled<R, M>(s: Snap<R, M>, ops: seq<Op<R, M>>)
    requires AllCompiled(s) && RunOk(s, ops)
    ensures AllCompiled(Run(s, ops))
    decreases |ops|
  {
    if ops != [] {
      if ops[0].AddMatcher? {
        AddKeepsCompiled(s.rs[ops[0].route], ops[0].path, ops[0].typ);
      }
      RunKeepsCompiled(Apply(s, ops[0]), ops[1..]);
    }
  }

  // ---------------------------------------------------------------- adding a path to a route

  /** The literals and names that a path gets on a route: those of the path already there, then its own. */
  predicate NestedUnder(p: Option<RouteRegexp>, own: RouteRegexp, rr: RouteRegexp)
  {
    if p.None? then rr.segs == own.segs && rr.last == own.last
    else
      rr.segs == Nested(p.value.segs, p.value.last, own.segs) &&
      rr.last == NestedLast(p.value.last, own.segs, own.last)
  }

  function OuterNames(p: Option<RouteRegexp>): seq<string>
  {
    if p.None? then [] else Names(p.value.segs)
  }

  /** What is wrong with a path: its own text, or names in it or before it that are taken. */
  function PathError(g: RegexpGroup, path: string, typ: RegexpType): Option<RouteError>
    requires IsPathType(typ)
  {
    if path != "" && path[0] != '/' then Some(NoLeadingSlash)
    else
      match Compiled(path, typ)
      case Err(e) => Some(BadTemplate(e))
      case Ok(own) =>
        if NamesFree(g.host, g.queries, OuterNames(g.path) + Names(own.segs)) then None else Some(DuplicateVariable)
  }

  lemma FullCompiled(g: RegexpGroup, path: string, typ: RegexpType)
    requires IsPathType(typ) && PathCompiled(g)
    ensures var full := Compiled(FullTemplate(g, path, typ), typ);
            && (full.Err? <==> Compiled(path, typ).Err?) && (full.Err? ==> full.error == Compiled(path, typ).error)
            && (full.Ok? ==>
                  && full.value.typ == typ && !full.value.loose
                  && NestedUnder(g.path, Compiled(path, typ).value, full.value)
                  && Names(full.value.segs) == OuterNames(g.path) + Names(Compiled(path, typ).value.segs))
  {
    if g.path.Some? {
      var p := g.path.value;
      SameForPrefix(p.template, p.typ, typ);
      CompiledOfNested(p.template, path, typ);
      SameForPrefix(Braces.TrimSlashes(p.template) + path, typ, typ);
    } else {
      SameForPrefix(path, typ, typ);
      if Compiled(path, typ).Ok? {
        assert [] + Names(Compiled(path, typ).value.segs) == Names(Compiled(path, typ).value.segs);
      }
    }
  }

  /**
   A path given to a route is refused exactly for what is wrong with its own text or with names
   that are taken. Otherwise one matcher is added: the literals and names of the path the route
   already has, without its trailing slashes, followed by those of the new one.
   */
  lemma PathIsNested<M>(rec: RouteRec<M>, path: string, typ: RegexpType) returns (rr: RouteRegexp)
    requires IsPathType(typ) && rec.err.None? && PathCompiled(rec.conf.group)
    ensures var added := AddRegexp(rec, path, typ);
            && added.err == PathError(rec.conf.group, path, typ)
            && (added.err.Some? ==> added.conf == rec.conf)
            && (added.err.None? ==>
                  && added.conf.matchers == rec.conf.matchers + [RegexpMatcher(rr)]
                  && added.conf.group == rec.conf.group.(path := Some(rr))
                  && rr.typ == typ && !rr.loose
                  && Compiled(path, typ).Ok? && NestedUnder(rec.conf.group.path, Compiled(path, typ).value, rr))
  {
    var g := rec.conf.group;
    FullCompiled(g, path, typ);
    var full := Compiled(FullTemplate(g, path, typ), typ);
    if full.Ok? {
      rr := full.value;
      ClashesIff(g, rr, typ);
    } else {
      rr := RouteRegexp("", typ, [], "", false, false);
    }
  }

  /** So it goes for every route of every run of builder calls. */
  lemma NestedAfterAnyRun<R, M>(root: M, ops: seq<Op<R, M>>, r: R, path: string, typ: RegexpType)
    returns (rr: RouteRegexp)
    requires IsPathType(typ) && RunOk(Start<R, M>(root), ops)
    requires r in Run(Start<R, M>(root), ops).rs && Run(Start<R, M>(root), ops).rs[r].err.None?
    ensures var rec := Run(Start<R, M>(root), ops).rs[r];
            var added := AddRegexp(rec, path, typ);
            && added.err == PathError(rec.conf.group, path, typ)
            && (added.err.None? ==>
                  && added.conf.matchers == rec.conf.matchers + [RegexpMatcher(rr)]
                  && rr.typ == typ && !rr.loose
                  && Compiled(path, typ).Ok? && NestedUnder(rec.conf.group.path, Compiled(path, typ).value, rr))
  {
    RunKeepsCompiled(Start<R, M>(root), ops);
    rr := PathIsNested(Run(Start<R, M>(root), ops).rs[r], path, typ);
  }

  /** Filled with values, the nested template is the filled prefix without trailing slashes, then the filled path. */
  lemma FillOfNested(sa: seq<Seg>, la: string, sb: seq<Seg>, lb: string, va: seq<string>, vb: seq<string>)
    requires |va| == |sa| && |vb| == |sb|
    ensures |Nested(sa, la, sb)| == |va + vb|
    ensures Fill(Nested(sa, la, sb), va + vb) + NestedLast(la, sb, lb) ==
            (Fill(sa, va) + Braces.TrimSlashes(la)) + (Fill(sb, vb) + lb)
  {
    var t := Braces.TrimSlashes(la);
    FillConcat(sa, Prefixed(t, sb), va, vb);
    if sb == [] {
      assert Fill(sa, va) + "" + (t + lb) == (Fill(sa, va) + t) + ("" + lb);
    } else {
      var rest := vb[0] + Fill(sb[1..], vb[1..]);
      assert Fill(Prefixed(t, sb), vb) == (t + sb[0].raw) + rest;
      Regrouped(Fill(sa, va), t, sb[0].raw, rest, lb);
    }
  }

  lemma Regrouped(a: string, t: string, raw: string, rest: string, lb: string)
    ensures (a + ((t + raw) + rest)) + lb == (a + t) + ((raw + rest) + lb)
  {
  }

  lemma {:induction false} FillConcat(a: seq<Seg>, b: seq<Seg>, va: seq<string>, vb: seq<string>)
    requires |va| == |a| && |vb| == |b|
    ensures |a + b| == |va + vb| && Fill(a + b, va + vb) == Fill(a, va) + Fill(b, vb)
  {
    if a == [] {
      assert a + b == b && va + vb == vb;
    } else {
      FillConcat(a[1..], b, va[1..], vb);
      assert (a + b)[1..] == a[1..] + b && (va + vb)[1..] == va[1..] + vb;
      Assoc(va[0], Fill(a[1..], va[1..]), Fill(b, vb));
      Assoc(a[0].raw, va[0] + Fill(a[1..], va[1..]), Fill(b, vb));
    }
  }

  // ---------------------------------------------------------------- nested routes answer nested paths

  /** A route with a prefix, its subrouter, and in that a route with a path. */
  function NestedCalls(a: string, b: string): seq<Op<nat, nat>>
  {
    [NewRoute(0, 1)] + ([AddMatcher(1, a, PrefixType)] + ([Subrouter(1, 10)] + ([NewRoute(10, 2)]
    + ([AddMatcher(2, b, PathType)] + []))))
  }

  ghost predicate NestedBuilt(s: Snap<nat, nat>, pa: RouteRegexp, rr: RouteRegexp)
  {
    0 in s.ms && 10 in s.ms && 1 in s.rs && 2 in s.rs &&
    s.ms[0].routes == [1] && s.ms[10].routes == [2] && s.rs[1].err.None? && s.rs[2].err.None? &&
    s.rs[1].conf.matchers == [RegexpMatcher(pa), SubMatcher(10)] &&
    s.rs[2].conf.matchers == [RegexpMatcher(pa), RegexpMatcher(rr)]
  }

  predicate Rooted(path: string)
  {
    path != "" ==> path[0] == '/'
  }

  /** What the first three calls leave, and the fourth. */
  ghost predicate PrefixBuilt(s: Snap<nat, nat>, pa: RouteRegexp)
  {
    0 in s.ms && 10 in s.ms && 1 in s.rs && 2 in s.rs &&
    s.ms[0].routes == [1] && s.ms[10].routes == [2] && s.rs[1].err.None? && s.rs[2].err.None? &&
    s.rs[1].conf.matchers == [RegexpMatcher(pa), SubMatcher(10)] &&
    s.rs[2].conf == RouteConf([RegexpMatcher(pa)], RegexpGroup(None, Some(pa), []))
  }

  lemma PrefixStep(s: Snap<nat, nat>, a: string, pa: RouteRegexp)
    requires s == Apply(Start(0), NewRoute(0, 1)) && Compiled(a, PrefixType) == Ok(pa) && Rooted(a)
    ensures var t := Apply(s, Op.AddMatcher(1, a, PrefixType));
            && t.ms == s.ms && t.rs.Keys == {1} && t.rs[1].err.None?
            && t.rs[1].conf == RouteConf([RegexpMatcher(pa)], RegexpGroup(None, Some(pa), []))
  {
    assert s.rs[1].conf.matchers + [RegexpMatcher(pa)] == [RegexpMatcher(pa)];
  }

  lemma SubrouterStep(s: Snap<nat, nat>, pa: RouteRegexp)
    requires s.ms.Keys == {0} && s.ms[0].routes == [1] && s.rs.Keys == {1} && s.rs[1].err.None?
    requires s.rs[1].conf == RouteConf([RegexpMatcher(pa)], RegexpGroup(None, Some(pa), []))
    ensures PrefixBuilt(Apply(Apply(s, Op.Subrouter(1, 10)), NewRoute(10, 2)), pa)
  {
    var t := Apply(s, Op.Subrouter(1, 10));
    assert t.rs[1].conf.matchers == [RegexpMatcher(pa)] + [SubMatcher(10)];
    assert t.ms[10].routes + [2] == [2];
  }

  lemma PathStep(s: Snap<nat, nat>, b: string, pa: RouteRegexp) returns (rr: RouteRegexp)
    requires PrefixBuilt(s, pa) && IsPathType(pa.typ) && Compiled(pa.template, pa.typ) == Ok(pa)
    requires Compiled(b, PathType).Ok? && Rooted(b)
    ensures NestedBuilt(Apply(s, Op.AddMatcher(2, b, PathType)), pa, rr)
    ensures rr.typ == PathType && !rr.loose && NestedUnder(Some(pa), Compiled(b, PathType).value, rr)
  {
    rr := PathAddedTo(s.rs[2], b, pa);
  }

  lemma PathAddedTo<M>(rec: RouteRec<M>, b: string, pa: RouteRegexp) returns (rr: RouteRegexp)
    requires rec.err.None? && rec.conf == RouteConf([RegexpMatcher(pa)], RegexpGroup(None, Some(pa), []))
    requires IsPathType(pa.typ) && Compiled(pa.template, pa.typ) == Ok(pa)
    requires Compiled(b, PathType).Ok? && Rooted(b)
    ensures var added := AddRegexp(rec, b, PathType);
            added.err.None? && added.conf.matchers == [RegexpMatcher(pa), RegexpMatcher(rr)]
    ensures rr.typ == PathType && !rr.loose && NestedUnder(Some(pa), Compiled(b, PathType).value, rr)
  {
    rr := PathIsNested(rec, b, PathType);
    assert rec.conf.matchers + [RegexpMatcher(rr)] == [RegexpMatcher(pa), RegexpMatcher(rr)];
  }

  lemma NestedRun(a: string, b: string, pa: RouteRegexp) returns (rr: RouteRegexp)
    requires Compiled(a, PrefixType) == Ok(pa) && Compiled(b, PathType).Ok? && Rooted(a) && Rooted(b)
    ensures RunOk(Start<nat, nat>(0), NestedCalls(a, b))
    ensures NestedBuilt(Run(Start<nat, nat>(0), NestedCalls(a, b)), pa, rr)
    ensures rr.typ == PathType && !rr.loose && NestedUnder(Some(pa), Compiled(b, PathType).value, rr)
  {
    var s0 := Start<nat, nat>(0);
    var s1 := Apply(s0, NewRoute(0, 1));
    var s2 := Apply(s1, Op.AddMatcher(1, a, PrefixType));
    PrefixStep(s1, a, pa);
    SubrouterStep(s2, pa);
    var s3 := Apply(s2, Op.Subrouter(1, 10));
    var s4 := Apply(s3, NewRoute(10, 2));
    SameForPrefix(a, PrefixType, PrefixType);
    rr := PathStep(s4, b, pa);
    var last: seq<Op<nat, nat>> := [AddMatcher(2, b, PathType)] + [];
    RunStep(s4, Op.AddMatcher(2, b, PathType), []);
    RunStep(s3, NewRoute(10, 2), last);
    RunStep(s2, Op.Subrouter(1, 10), [NewRoute(10, 2)] + last);
    RunStep(s1, Op.AddMatcher(1, a, PrefixType), [Op.Subrouter(1, 10)] + ([NewRoute(10, 2)] + last));
    RunStep(s0, NewRoute(0, 1),
            [Op.AddMatcher(1, a, PrefixType)] + ([Op.Subrouter(1, 10)] + ([NewRoute(10, 2)] + last)));
  }

  lemma NestedTrees(s: Snap<nat, nat>, pa: RouteRegexp, rr: RouteRegexp)
    requires Graph(s) && NestedBuilt(s, pa, rr)
    ensures MuxTree(s, 0) == [RouteTree(s, 1)]
    ensures RouteTree(s, 1).tests == [Regexp(pa), Sub([RouteTree(s, 2)])]
    ensures RouteTree(s, 2).tests == [Regexp(pa), Regexp(rr)]
  {
    RouteTreeAt(s, s.ms[0].routes, s.ms[0].rank, 0);
    RouteTreeAt(s, s.ms[10].routes, s.ms[10].rank, 0);
    assert MuxTree(s, 10) == [RouteTree(s, 2)];
    TestTreeAt(s, s.rs[1].conf.matchers, s.rs[1].floor, 0);
    TestTreeAt(s, s.rs[1].conf.matchers, s.rs[1].floor, 1);
    TestTreeAt(s, s.rs[2].conf.matchers, s.rs[2].floor, 0);
    TestTreeAt(s, s.rs[2].conf.matchers, s.rs[2].floor, 1);
  }

  /** Both routes take the request exactly if prefix and nested path accept it; the inner one is reported. */
  lemma NestedAnswers<R>(outer: Node<R>, inner: Node<R>, pa: RouteRegexp, rr: RouteRegexp, req: Request)
    requires !outer.failed && !inner.failed
    requires outer.tests == [Regexp(pa), Sub([inner])] && inner.tests == [Regexp(pa), Regexp(rr)]
    ensures var o := MatchRoutes([outer], req, Empty());
            && (o.matched <==> Accepts(pa, req) && Accepts(rr, req))
            && (o.matched ==> o.state.route == Some(inner.id))
  {
    OneRoute(outer, req);
    OneRoute(inner, req);
    TwoTests(outer.tests, pa, Sub([inner]), req);
    TwoTests(inner.tests, pa, Regexp(rr), req);
    RouterReports([outer], req, Empty());
    if TakenBy(outer, req) {
      assert Reporting(inner, req) == [inner] && Reporting(outer, req) == [inner] + [outer];
    }
  }

  lemma OneRoute<R>(n: Node<R>, req: Request)
    ensures SomeTakes([n], req) <==> TakenBy(n, req)
    ensures ReportingRoutes([n], req) == Reporting(n, req)
  {
    var rest := [n][1..];
    assert rest == [] && !SomeTakes(rest, req) && ReportingRoutes(rest, req) == [];
  }

  lemma TwoTests<R>(tests: seq<Test<R>>, pa: RouteRegexp, t: Test<R>, req: Request)
    requires tests == [Regexp(pa), t]
    ensures TakesAll(tests, req) <==> Accepts(pa, req) && TakesTest(t, req)
    ensures ReportingTests(tests, req) == if Accepts(pa, req) && t.Sub? then ReportingRoutes(t.routes, req) else []
  {
    var rest, none := tests[1..], tests[1..][1..];
    assert rest == [t] && none == [] && TakesAll(none, req) && ReportingTests(none, req) == [];
    assert TakesAll(rest, req) <==> TakesTest(t, req);
  }

  /**
   After a route with a prefix, its subrouter and in that a route with a path, the router matches
   exactly the requests that the prefix accepts and that are accepted by the literals and names of
   the prefix, without its trailing slashes, followed by those of the path; the inner route answers.
   */
  lemma NestedRoutesMatch(a: string, b: string, pa: RouteRegexp, req: Request) returns (rr: RouteRegexp)
    requires Compiled(a, PrefixType) == Ok(pa) && Compiled(b, PathType).Ok? && Rooted(a) && Rooted(b)
    ensures RunOk(Start<nat, nat>(0), NestedCalls(a, b))
    ensures rr.typ == PathType && !rr.loose && NestedUnder(Some(pa), Compiled(b, PathType).value, rr)
    ensures var s := Run(Start<nat, nat>(0), NestedCalls(a, b));
            && Graph(s) && 0 in s.ms
            && var o := MatchRoutes(MuxTree(s, 0), req, Empty());
               && (o.matched <==> Accepts(pa, req) && Accepts(rr, req))
               && (o.matched ==> o.state.route == Some(2))
  {
    rr := NestedRun(a, b, pa);
    CallsKeepGraph(NestedCalls(a, b));
    BuiltMatches(Run(Start<nat, nat>(0), NestedCalls(a, b)), pa, rr, req);
  }

  lemma CallsKeepGraph(ops: seq<Op<nat, nat>>)
    requires RunOk(Start<nat, nat>(0), ops)
    ensures Graph(Run(Start<nat, nat>(0), ops))
  {
    RunKeepsGraph(Start<nat, nat>(0), ops);
  }

  lemma BuiltMatches(s: Snap<nat, nat>, pa: RouteRegexp, rr: RouteRegexp, req: Request)
    requires Graph(s) && NestedBuilt(s, pa, rr)
    ensures var o := MatchRoutes(MuxTree(s, 0), req, Empty());
            && (o.matched <==> Accepts(pa, req) && Accepts(rr, req))
            && (o.matched ==> o.state.route == Some(2))
  {
    NestedTrees(s, pa, rr);
    NestedAnswers(RouteTree(s, 1), RouteTree(s, 2), pa, rr, req);
  }

  /** What a prefix of literals alone compiles to. */
  function PrefixLiteral(a: string): RouteRegexp
  {
    RouteRegexp(a, PrefixType, [], a, false, false)
  }

  lemma PrefixCompiles(a: string)
    requires PlainPath(a)
    ensures Compiled(a, PrefixType) == Ok(PrefixLiteral(a))
  {
    CompileOfRender([], a, PrefixType);
    AsciiIsValid(a);
  }

  lemma PrefixAccepts(a: string, req: Request)
    requires PlainPath(a)
    ensures Accepts(PrefixLiteral(a), req) <==> a <= req.path
  {
    AsciiIsValid(a);
    ReadsExactly(a, req.path);
  }

  lemma LiteralPathAccepts(rr: RouteRegexp, req: Request)
    requires rr.typ == PathType && !rr.loose && rr.segs == []
    requires forall k :: 0 <= k < |rr.last| ==> rr.last[k] as int < 0x80
    ensures Accepts(rr, req) <==> req.path == rr.last
  {
    AsciiIsValid(rr.last);
    ReadsExactly(rr.last, req.path);
  }

  lemma {:induction false} TrimmedIsPrefix(s: string)
    ensures Braces.TrimSlashes(s) <= s
    decreases |s|
  {
    if s != [] && s[|s| - 1] == '/' {
      TrimmedIsPrefix(s[..|s| - 1]);
    }
  }

  /**
   For a prefix and a path without variables: exactly the requests for the prefix without its
   trailing slashes followed by the path, as far as they begin with the prefix itself. That is
   all of them unless the prefix ends in more slashes than the path begins with.
   */
  lemma LiteralRoutesMatch(a: string, b: string, req: Request)
    requires PlainPath(a) && PlainPath(b)
    ensures RunOk(Start<nat, nat>(0), NestedCalls(a, b))
    ensures var s := Run(Start<nat, nat>(0), NestedCalls(a, b));
            && Graph(s) && 0 in s.ms
            && var o := MatchRoutes(MuxTree(s, 0), req, Empty());
               && (o.matched <==> req.path == Braces.TrimSlashes(a) + b && a <= Braces.TrimSlashes(a) + b)
               && (o.matched ==> o.state.route == Some(2))
  {
    PrefixCompiles(a);
    LiteralCompiles(b);
    var pa := PrefixLiteral(a);
    var rr := NestedRoutesMatch(a, b, pa, req);
    LiteralsDecide(a, b, rr, req);
  }

  lemma LiteralsDecide(a: string, b: string, rr: RouteRegexp, req: Request)
    requires PlainPath(a) && PlainPath(b) && rr.typ == PathType && !rr.loose
    requires NestedUnder(Some(PrefixLiteral(a)), PathLiteral(b), rr)
    ensures Accepts(PrefixLiteral(a), req) && Accepts(rr, req) <==>
            req.path == Braces.TrimSlashes(a) + b && a <= Braces.TrimSlashes(a) + b
  {
    PrefixAccepts(a, req);
    NestedLiteral(a, b, rr);
    LiteralPathAccepts(rr, req);
  }

  lemma NestedLiteral(a: string, b: string, rr: RouteRegexp)
    requires PlainPath(a) && PlainPath(b) && NestedUnder(Some(PrefixLiteral(a)), PathLiteral(b), rr)
    ensures rr.segs == [] && rr.last == Braces.TrimSlashes(a) + b
    ensures forall k :: 0 <= k < |rr.last| ==> rr.last[k] as int < 0x80
  {
    var t := Braces.TrimSlashes(a);
    TrimmedIsPrefix(a);
    assert forall k :: 0 <= k < |t| ==> t[k] == a[k];
  }
}
