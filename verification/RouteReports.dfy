/**
 What a RouteMatch holds when matching is over (Match of route.go and mux_route.go): the route and
 controller that are reported and the value of every variable, for any tree of routes.
 */
module RouteReports {
  import opened Wrappers
  import opened Utf8
  import opened Regexp
  import opened Matching
  import opened RouteMatching
  import opened RouteGraph
  import opened RouteForest
  import opened RouteVariables

  // ---------------------------------------------------------------- the routes that report themselves

  /** Whether a route takes the request; what the shared match holds plays no part in it. */
  predicate TakenBy<R>(n: Node<R>, req: Request)
    decreases n, 1
  {
    !n.failed && TakesAll(n.tests, req)
  }

  predicate TakesAll<R>(tests: seq<Test<R>>, req: Request)
    decreases tests, 0
  {
    tests == [] || (TakesTest(tests[0], req) && TakesAll(tests[1..], req))
  }

  predicate TakesTest<R>(t: Test<R>, req: Request)
    decreases t, 1
  {
    match t
    case Regexp(rr) => Accepts(rr, req)
    case Sub(routes) => SomeTakes(routes, req)
  }

  predicate SomeTakes<R>(routes: seq<Node<R>>, req: Request)
    decreases routes, 0
  {
    routes != [] && (TakenBy(routes[0], req) || SomeTakes(routes[1..], req))
  }

  /** The routes that match on the way, in the order in which they report themselves: inner ones first. */
  function Reporting<R>(n: Node<R>, req: Request): seq<Node<R>>
    decreases n, 1
  {
    if n.failed then []
    else ReportingTests(n.tests, req) + if TakesAll(n.tests, req) then [n] else []
  }

  function ReportingTests<R>(tests: seq<Test<R>>, req: Request): seq<Node<R>>
    decreases tests, 0
  {
    if tests == [] then []
    else
      (match tests[0]
       case Regexp(_) => []
       case Sub(routes) => ReportingRoutes(routes, req))
      + if TakesTest(tests[0], req) then ReportingTests(tests[1..], req) else []
  }

  function ReportingRoutes<R>(routes: seq<Node<R>>, req: Request): seq<Node<R>>
    decreases routes, 0
  {
    if routes == [] then []
    else Reporting(routes[0], req) + if TakenBy(routes[0], req) then [] else ReportingRoutes(routes[1..], req)
  }

  // ---------------------------------------------------------------- what they leave

  function AllExprs<R>(vs: seq<Node<R>>): seq<RouteRegexp>
  {
    if vs == [] then [] else Exprs(vs[0].group) + AllExprs(vs[1..])
  }

  function FirstController<R>(vs: seq<Node<R>>): Option<Controller>
  {
    if vs == [] then None else if vs[0].controller.Some? then vs[0].controller else FirstController(vs[1..])
  }

  /** The value of a variable in a match that may not have any yet. */
  function ValueIn<R>(m: MatchState<R>, x: string): Option<string>
  {
    if m.vars.None? then None else Get(m.vars.value, x)
  }

  /** Each variable has the value of the last expression that binds it, or the one it had. */
  ghost predicate LastValues<R>(es: seq<RouteRegexp>, req: Request, m: MatchState<R>, out: MatchState<R>)
  {
    forall x ::
      && (forall k: nat :: Decides(es, req, x, k) ==> ValueIn(out, x) == Binds(es[k], req, x))
      && (NoneBinds(es, req, x) ==> ValueIn(out, x) == ValueIn(m, x))
  }

  /** What reporting routes make of a match: the first route and the first controller stay, the last values win. */
  ghost predicate Reports<R>(vs: seq<Node<R>>, req: Request, m: MatchState<R>, out: MatchState<R>)
  {
    && out.route == (if m.route.Some? || vs == [] then m.route else Some(vs[0].id))
    && out.controller == (if m.controller.Some? then m.controller else FirstController(vs))
    && (out.vars.Some? <==> m.vars.Some? || vs != [])
    && LastValues(AllExprs(vs), req, m, out)
  }

  /** The same by recording one route after another. */
  function Recorded<R>(vs: seq<Node<R>>, req: Request, m: MatchState<R>): MatchState<R>
  {
    if vs == [] then m else Recorded(vs[1..], req, Record(vs[0], req, m))
  }

  lemma {:induction false} RecordedConcat<R>(a: seq<Node<R>>, b: seq<Node<R>>, req: Request, m: MatchState<R>)
    ensures Recorded(a + b, req, m) == Recorded(b, req, Recorded(a, req, m))
  {
    if a == [] {
      assert a + b == b;
    } else {
      assert (a + b)[1..] == a[1..] + b;
      RecordedConcat(a[1..], b, req, Record(a[0], req, m));
    }
  }

  lemma RecordedOne<R>(n: Node<R>, req: Request, m: MatchState<R>)
    ensures Recorded([n], req, m) == Record(n, req, m)
  {
    assert [n][1..] == [];
  }

  lemma {:induction false} QueryVarsConcat(a: seq<RouteRegexp>, b: seq<RouteRegexp>, req: Request, vars: Vars)
    ensures QueryVars(a + b, req, vars) == QueryVars(b, req, QueryVars(a, req, vars))
    decreases |a|
  {
    if a == [] {
      assert a + b == b;
    } else {
      assert (a + b)[1..] == a[1..] + b;
      QueryVarsConcat(a[1..], b, req, VarsOf(a[0], req, vars));
    }
  }

  function VarsIn<R>(m: MatchState<R>): Vars
  {
    if m.vars.None? then map[] else m.vars.value
  }

  lemma {:induction false} RecordedParts<R>(vs: seq<Node<R>>, req: Request, m: MatchState<R>)
    ensures var out := Recorded(vs, req, m);
            && out.route == (if m.route.Some? || vs == [] then m.route else Some(vs[0].id))
            && out.controller == (if m.controller.Some? then m.controller else FirstController(vs))
            && (out.vars.Some? <==> m.vars.Some? || vs != [])
            && VarsIn(out) == QueryVars(AllExprs(vs), req, VarsIn(m))
    decreases |vs|
  {
    if vs != [] {
      var t := Record(vs[0], req, m);
      RecordedParts(vs[1..], req, t);
      ExprsInOrder(vs[0].group, req, VarsIn(m));
      QueryVarsConcat(Exprs(vs[0].group), AllExprs(vs[1..]), req, VarsIn(m));
    }
  }

  lemma RecordedReports<R>(vs: seq<Node<R>>, req: Request, m: MatchState<R>)
    ensures Reports(vs, req, m, Recorded(vs, req, m))
  {
    var out, es := Recorded(vs, req, m), AllExprs(vs);
    RecordedParts(vs, req, m);
    forall x
      ensures forall k: nat :: Decides(es, req, x, k) ==> ValueIn(out, x) == Binds(es[k], req, x)
      ensures NoneBinds(es, req, x) ==> ValueIn(out, x) == ValueIn(m, x)
    {
      forall k: nat | Decides(es, req, x, k) ensures ValueIn(out, x) == Binds(es[k], req, x) {
        LastWins(es, req, VarsIn(m), x, k);
      }
      if NoneBinds(es, req, x) {
        NoneBindsLeaves(es, req, VarsIn(m), x);
      }
    }
  }

  // ---------------------------------------------------------------- matching, for every tree

  lemma {:induction false} NodeRecorded<R>(n: Node<R>, req: Request, m: MatchState<R>)
    ensures MatchNode(n, req, m) == Outcome(TakenBy(n, req), Recorded(Reporting(n, req), req, m))
    decreases n, 1
  {
    if !n.failed {
      TestsRecorded(n.tests, req, m);
      var inner := ReportingTests(n.tests, req);
      if TakesAll(n.tests, req) {
        RecordedConcat(inner, [n], req, m);
        RecordedOne(n, req, Recorded(inner, req, m));
      } else {
        assert inner + [] == inner;
      }
    }
  }

  lemma {:induction false} TestsRecorded<R>(tests: seq<Test<R>>, req: Request, m: MatchState<R>)
    ensures MatchTests(tests, req, m) == Outcome(TakesAll(tests, req), Recorded(ReportingTests(tests, req), req, m))
    decreases tests, 0
  {
    if tests != [] {
      var inner: seq<Node<R>> := [];
      match tests[0] {
        case Regexp(_) =>
        case Sub(routes) =>
          RoutesRecorded(routes, req, m);
          inner := ReportingRoutes(routes, req);
      }
      var rest := if TakesTest(tests[0], req) then ReportingTests(tests[1..], req) else [];
      assert ReportingTests(tests, req) == inner + rest;
      RecordedConcat(inner, rest, req, m);
      if TakesTest(tests[0], req) {
        TestsRecorded(tests[1..], req, Recorded(inner, req, m));
      }
    }
  }

  lemma {:induction false} RoutesRecorded<R>(routes: seq<Node<R>>, req: Request, m: MatchState<R>)
    ensures MatchRoutes(routes, req, m) ==
            Outcome(SomeTakes(routes, req), Recorded(ReportingRoutes(routes, req), req, m))
    decreases routes, 0
  {
    if routes != [] {
      var inner := Reporting(routes[0], req);
      var rest := if TakenBy(routes[0], req) then [] else ReportingRoutes(routes[1..], req);
      NodeRecorded(routes[0], req, m);
      RecordedConcat(inner, rest, req, m);
      if !TakenBy(routes[0], req) {
        RoutesRecorded(routes[1..], req, Recorded(inner, req, m));
      }
    }
  }

  /** A route matches if it takes the request, and the match then holds what the reporting routes make of it. */
  lemma MatchReports<R>(n: Node<R>, req: Request, m: MatchState<R>)
    ensures MatchNode(n, req, m).matched <==> TakenBy(n, req)
    ensures Reports(Reporting(n, req), req, m, MatchNode(n, req, m).state)
  {
    NodeRecorded(n, req, m);
    RecordedReports(Reporting(n, req), req, m);
  }

  lemma RouterReports<R>(routes: seq<Node<R>>, req: Request, m: MatchState<R>)
    ensures MatchRoutes(routes, req, m).matched <==> SomeTakes(routes, req)
    ensures Reports(ReportingRoutes(routes, req), req, m, MatchRoutes(routes, req, m).state)
  {
    RoutesRecorded(routes, req, m);
    RecordedReports(ReportingRoutes(routes, req), req, m);
  }

  // ---------------------------------------------------------------- where subrouters stand last

  function Reversed<R>(c: Chain<R>): seq<Node<R>>
  {
    if c == [] then [] else Reversed(c[1..]) + [c[0]]
  }

  lemma {:induction false} SettleIsRecorded<R>(c: Chain<R>, req: Request, m: MatchState<R>)
    ensures Settle(c, req, m) == Recorded(Reversed(c), req, m)
  {
    if c != [] {
      SettleIsRecorded(c[1..], req, m);
      RecordedConcat(Reversed(c[1..]), [c[0]], req, m);
      RecordedOne(c[0], req, Recorded(Reversed(c[1..]), req, m));
    }
  }

  /**
   Where subrouters stand last only the winning leaf and its ancestors report themselves, the
   leaf first: its route, the innermost controller, and for every variable the value of the
   outermost expression that binds it.
   */
  lemma WinnerReports<R>(routes: seq<Node<R>>, req: Request, k: nat)
    requires AllWellPlaced(routes) && k < |Leaves(routes)| && Satisfied(Leaves(routes)[k], req)
    requires forall j :: 0 <= j < k ==> !Satisfied(Leaves(routes)[j], req)
    ensures MatchRoutes(routes, req, Empty()).matched
    ensures Reports(Reversed(Leaves(routes)[k]), req, Empty(), MatchRoutes(routes, req, Empty()).state)
  {
    var c := Leaves(routes)[k];
    NestedRoutingIsFlat(routes, req);
    SettleIsRecorded(c, req, Empty());
    RecordedReports(Reversed(c), req, Empty());
  }

  // ---------------------------------------------------------------- from builder calls to variables

  /** A router with one route that has a path and a controller. */
  function PathWithController<R, M>(root: M, r: R, tpl: string, c: Controller): seq<Op<R, M>>
  {
    [NewRoute(root, r)] + ([AddMatcher(r, tpl, PathType)] + ([Op.Control(r, c)] + []))
  }

  lemma PathBuilt<R, M>(root: M, r: R, tpl: string, c: Controller, rr: RouteRegexp)
    requires Compiled(tpl, PathType) == Ok(rr) && (tpl != "" ==> tpl[0] == '/')
    ensures RunOk(Start<R, M>(root), PathWithController(root, r, tpl, c))
    ensures var s := Run(Start<R, M>(root), PathWithController(root, r, tpl, c));
            && root in s.ms && s.ms[root].routes == [r] && r in s.rs
            && s.rs[r].err.None? && s.rs[r].controller == Some(c)
            && s.rs[r].conf == RouteConf([RegexpMatcher(rr)], RegexpGroup(None, Some(rr), []))
  {
    var s0 := Start<R, M>(root);
    var s1 := Apply(s0, NewRoute(root, r));
    var s2 := Apply(s1, Op.AddMatcher(r, tpl, PathType));
    assert s1.rs[r].conf.matchers + [RegexpMatcher(rr)] == [RegexpMatcher(rr)];
    RunStep(s2, Op.Control(r, c), []);
    RunStep(s1, Op.AddMatcher(r, tpl, PathType), [Op.Control(r, c)] + []);
    RunStep(s0, NewRoute(root, r), [Op.AddMatcher(r, tpl, PathType)] + ([Op.Control(r, c)] + []));
  }

  /** The tree of a router whose only route has a single matcher. */
  lemma OneRouteTree<R, M>(s: Snap<R, M>, root: M, r: R, rr: RouteRegexp)
    requires Graph(s) && root in s.ms && s.ms[root].routes == [r] && r in s.rs
    requires s.rs[r].err.None? && s.rs[r].conf.matchers == [RegexpMatcher(rr)]
    ensures MuxTree(s, root) == [Node(r, false, s.rs[r].controller, s.rs[r].conf.group, [Regexp(rr)])]
  {
    RouteTreeAt(s, s.ms[root].routes, s.ms[root].rank, 0);
    TestTreeAt(s, s.rs[r].conf.matchers, s.rs[r].floor, 0);
    assert RouteTree(s, r).tests == [Regexp(rr)];
    assert MuxTree(s, root) == [RouteTree(s, r)];
  }

  lemma OneReports<R>(n: Node<R>, rr: RouteRegexp, req: Request)
    requires !n.failed && n.tests == [Regexp(rr)] && Accepts(rr, req) && n.group == RegexpGroup(None, Some(rr), [])
    ensures SomeTakes([n], req) && ReportingRoutes([n], req) == [n] && AllExprs([n]) == [rr]
  {
    var none: seq<Test<R>>, rest: seq<Node<R>> := n.tests[1..], [n][1..];
    assert none == [] && rest == [];
    assert TakesAll(none, req) && ReportingTests(none, req) == [];
    assert TakesTest(n.tests[0], req) && TakesAll(n.tests, req) && ReportingTests(n.tests, req) == [];
    assert TakenBy(n, req) && Reporting(n, req) == [n];
    assert Exprs(n.group) == [rr] && AllExprs(rest) == [];
  }

  /** The answer of a router with one route that has one expression. */
  lemma OneRouteAnswers<R>(n: Node<R>, rr: RouteRegexp, req: Request)
    requires !n.failed && n.tests == [Regexp(rr)] && Accepts(rr, req) && n.group == RegexpGroup(None, Some(rr), [])
    ensures var o := MatchRoutes([n], req, Empty());
            && o.matched && o.state.route == Some(n.id) && o.state.controller == n.controller
            && (forall x :: ValueIn(o.state, x) == Binds(rr, req, x))
            && (forall x :: Binds(rr, req, x).Some? ==> x in VarsN(rr))
  {
    OneReports(n, rr, req);
    RouterReports([n], req, Empty());
    OneExprValues(rr, req, MatchRoutes([n], req, Empty()).state);
    assert FirstController([n]) == n.controller;
  }

  lemma OneExprValues<R>(rr: RouteRegexp, req: Request, out: MatchState<R>)
    requires LastValues([rr], req, Empty<R>(), out)
    ensures forall x :: ValueIn(out, x) == Binds(rr, req, x)
    ensures forall x :: Binds(rr, req, x).Some? ==> x in VarsN(rr)
  {
    forall x ensures ValueIn(out, x) == Binds(rr, req, x) && (Binds(rr, req, x).Some? ==> x in VarsN(rr)) {
      VarsOfAt(rr, req, map[], x);
      assert [rr][0 + 1..] == [];
      if Binds(rr, req, x).Some? {
        assert Decides([rr], req, x, 0);
      } else {
        assert NoneBinds([rr], req, x);
      }
    }
  }

  /** The values that a filled template of variables with distinct names binds. */
  lemma FilledBinds(segs: seq<Seg>, last: string, vals: seq<string>, req: Request) returns (rr: RouteRegexp)
    requires PlainTemplate(segs, last) && Separated(segs, '/') && Distinct(Names(segs))
    requires ValidLiterals(segs, last) && NoReplacement(segs, last)
    requires |vals| == |segs| && forall k :: 0 <= k < |vals| ==> vals[k] != "" && '/' !in vals[k]
    requires req.path == Fill(segs, vals) + last
    ensures Compiled(Render(segs, last), PathType) == Ok(rr) && Accepts(rr, req)
    ensures forall k :: 0 <= k < |segs| ==> Binds(rr, req, segs[k].name) == Some(vals[k])
    ensures VarsN(rr) == Names(segs)
  {
    PathVariables(segs, last, vals, req, map[]);
    CompileOfRender(segs, last, PathType);
    rr := Compiled(Render(segs, last), PathType).value;
  }

  /** A request that the path accepts is answered by the route, with what the path binds. */
  lemma BuiltAnswers<R, M>(root: M, r: R, tpl: string, c: Controller, rr: RouteRegexp, req: Request)
    requires Compiled(tpl, PathType) == Ok(rr) && (tpl != "" ==> tpl[0] == '/') && Accepts(rr, req)
    ensures RunOk(Start<R, M>(root), PathWithController(root, r, tpl, c))
    ensures var s := Run(Start<R, M>(root), PathWithController(root, r, tpl, c));
            && Graph(s) && root in s.ms
            && var o := MatchRoutes(MuxTree(s, root), req, Empty());
               && o.matched && o.state.route == Some(r) && o.state.controller == Some(c)
               && (forall x :: ValueIn(o.state, x) == Binds(rr, req, x))
               && (forall x :: Binds(rr, req, x).Some? ==> x in VarsN(rr))
  {
    PathBuilt<R, M>(root, r, tpl, c, rr);
    RunKeepsGraph(Start<R, M>(root), PathWithController(root, r, tpl, c));
    var s := Run(Start<R, M>(root), PathWithController(root, r, tpl, c));
    OneRouteTree(s, root, r, rr);
    OneRouteAnswers(MuxTree(s, root)[0], rr, req);
  }

  /**
   From builder calls to the variables of a request: a path of `{name}` variables and a
   controller are given to a new route. A request for the filled path is answered by this
   route and controller, and its variables are the names with the values they were filled with.
   */
  lemma FilledPathIsReported<R, M>(root: M, r: R, c: Controller, segs: seq<Seg>, last: string, vals: seq<string>,
                                   req: Request)
    requires PlainTemplate(segs, last) && Separated(segs, '/') && Distinct(Names(segs))
    requires ValidLiterals(segs, last) && NoReplacement(segs, last)
    requires |vals| == |segs| && forall k :: 0 <= k < |vals| ==> vals[k] != "" && '/' !in vals[k]
    requires req.path == Fill(segs, vals) + last
    requires Render(segs, last) != "" ==> Render(segs, last)[0] == '/'
    ensures RunOk(Start<R, M>(root), PathWithController(root, r, Render(segs, last), c))
    ensures var s := Run(Start<R, M>(root), PathWithController(root, r, Render(segs, last), c));
            && Graph(s) && root in s.ms
            && var o := MatchRoutes(MuxTree(s, root), req, Empty());
               && o.matched && o.state.route == Some(r) && o.state.controller == Some(c)
               && (forall k :: 0 <= k < |segs| ==> ValueIn(o.state, segs[k].name) == Some(vals[k]))
               && (forall x :: ValueIn(o.state, x).Some? ==> x in Names(segs))
  {
    var rr := FilledBinds(segs, last, vals, req);
    BuiltAnswers<R, M>(root, r, Render(segs, last), c, rr, req);
  }
}
