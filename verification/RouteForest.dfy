/**
 Runs of configuration calls. Whatever the calls, routers never contain themselves and errors
 stick. When every route gets at most one subrouter, as its last matcher, the objects form a
 forest: routing is then flat, and siblings are isolated from each other.
 */
module RouteForest {
  import opened Wrappers
  import opened Utf8
  import opened Regexp
  import opened Matching
  import opened RouteMatching
  import opened RouteGraph

  // ---------------------------------------------------------------- all runs

  function EmptyConf<M>(): RouteConf<M>
  {
    RouteConf([], RegexpGroup(None, None, []))
  }

  /** A single router without routes. */
  function Start<R, M>(root: M): Snap<R, M>
  {
    Snap(map[], map[root := MuxRec([], EmptyConf(), 0.0, 1.0)])
  }

  ghost predicate RunOk<R, M>(s: Snap<R, M>, ops: seq<Op<R, M>>)
    decreases |ops|
  {
    ops == [] || (Applicable(s, ops[0]) && RunOk(Apply(s, ops[0]), ops[1..]))
  }

  ghost function Run<R, M>(s: Snap<R, M>, ops: seq<Op<R, M>>): Snap<R, M>
    requires RunOk(s, ops)
    decreases |ops|
  {
    if ops == [] then s else Run(Apply(s, ops[0]), ops[1..])
  }

  lemma {:induction false} RunKeepsGraph<R, M>(s: Snap<R, M>, ops: seq<Op<R, M>>)
    requires Graph(s) && RunOk(s, ops)
    ensures Graph(Run(s, ops))
    decreases |ops|
  {
    if ops != [] {
      ApplyKeeps(s, ops[0]);
      RunKeepsGraph(Apply(s, ops[0]), ops[1..]);
    }
  }

  /** After any calls at all, no router contains itself. */
  lemma NoRunMakesACycle<R, M>(root: M, ops: seq<Op<R, M>>, m: M)
    requires RunOk(Start<R, M>(root), ops) && m in Run(Start<R, M>(root), ops).ms
    ensures var s := Run(Start<R, M>(root), ops);
            Graph(s) && !RoutesReach(s, s.ms[m].routes, s.ms[m].rank, AMux(m))
  {
    RunKeepsGraph(Start<R, M>(root), ops);
    NoRouterContainsItself(Run(Start<R, M>(root), ops), m);
  }

  /** No call of the run is made on an object that the route reaches by then. */
  ghost predicate Elsewhere<R, M>(s: Snap<R, M>, ops: seq<Op<R, M>>, r: R)
    requires Graph(s) && RunOk(s, ops) && r in s.rs
    decreases |ops|
  {
    ops == [] ||
    (!RouteReaches(s, r, Changed(ops[0])) &&
     (ApplyKeeps(s, ops[0]); Elsewhere(Apply(s, ops[0]), ops[1..], r)))
  }

  /** However long, such a run leaves the route as it is. */
  lemma {:induction false} RunIsIsolated<R, M>(s: Snap<R, M>, ops: seq<Op<R, M>>, r: R)
    requires Graph(s) && RunOk(s, ops) && r in s.rs && Elsewhere(s, ops, r)
    ensures Graph(Run(s, ops)) && r in Run(s, ops).rs && RouteTree(Run(s, ops), r) == RouteTree(s, r)
    decreases |ops|
  {
    if ops != [] {
      ApplyKeeps(s, ops[0]);
      RouteTreeIsolated(s, Apply(s, ops[0]), r, Changed(ops[0]));
      RunIsIsolated(Apply(s, ops[0]), ops[1..], r);
    }
  }

  function Regexps<M>(ms: seq<Matcher<M>>): seq<RouteRegexp>
  {
    if ms == [] then []
    else Regexps(ms[..|ms| - 1]) + (match ms[|ms| - 1] case RegexpMatcher(rr) => [rr] case SubMatcher(_) => [])
  }

  /** Once a route has an error it keeps one, gains no path, host or query matcher, and never matches. */
  lemma {:induction false} ErrorsStick<R, M>(s: Snap<R, M>, ops: seq<Op<R, M>>, r: R)
    requires Graph(s) && RunOk(s, ops) && r in s.rs && s.rs[r].err.Some?
    ensures r in Run(s, ops).rs
    ensures var rec := Run(s, ops).rs[r];
            && rec.err.Some?
            && rec.conf.group == s.rs[r].conf.group
            && Regexps(rec.conf.matchers) == Regexps(s.rs[r].conf.matchers)
            && rec.controller == s.rs[r].controller
    ensures Graph(Run(s, ops))
    ensures RouteTree(Run(s, ops), r).failed
    decreases |ops|
  {
    RunKeepsGraph(s, ops);
    if ops != [] {
      var t := Apply(s, ops[0]);
      ApplyKeeps(s, ops[0]);
      if ops[0].Subrouter? && ops[0].route == r {
        var ms := s.rs[r].conf.matchers;
        assert (ms + [SubMatcher(ops[0].mux)])[..|ms|] == ms;
      }
      assert Regexps(t.rs[r].conf.matchers) == Regexps(s.rs[r].conf.matchers);
      ErrorsStick(t, ops[1..], r);
    }
  }

  // ---------------------------------------------------------------- forests

  predicate NoSub<M>(ms: seq<Matcher<M>>)
  {
    forall k :: 0 <= k < |ms| ==> ms[k].RegexpMatcher?
  }

  predicate SubLast<M>(ms: seq<Matcher<M>>)
  {
    forall k :: 0 <= k < |ms| - 1 ==> ms[k].RegexpMatcher?
  }

  /** The router a route refers to. */
  function SubOf<M>(ms: seq<Matcher<M>>): Option<M>
  {
    if ms != [] && ms[|ms| - 1].SubMatcher? then Some(ms[|ms| - 1].mux) else None
  }

  /** Subrouters stand last; every router has at most one route above it, every route at most one router. */
  ghost predicate Forest<R, M>(s: Snap<R, M>)
  {
    && (forall r :: r in s.rs ==> SubLast(s.rs[r].conf.matchers))
    && (forall m :: m in s.ms ==> NoSub(s.ms[m].conf.matchers))
    && (forall p, q | p in s.rs && q in s.rs && SubOf(s.rs[p].conf.matchers).Some? &&
                      SubOf(s.rs[p].conf.matchers) == SubOf(s.rs[q].conf.matchers) :: p == q)
    && (forall m, n, i, j | m in s.ms && n in s.ms && 0 <= i < |s.ms[m].routes| && 0 <= j < |s.ms[n].routes| &&
                            s.ms[m].routes[i] == s.ms[n].routes[j] :: m == n && i == j)
  }

  /** Calls that give a route at most one subrouter, and no matcher after it. */
  ghost predicate Disciplined<R, M>(s: Snap<R, M>, op: Op<R, M>)
  {
    && Applicable(s, op)
    && match op
       case Subrouter(r, _) => NoSub(s.rs[r].conf.matchers)
       case AddMatcher(r, _, _) => NoSub(s.rs[r].conf.matchers)
       case _ => true
  }

  lemma SubOfRoute<R, M>(s: Snap<R, M>, r: R)
    requires Graph(s) && r in s.rs && SubOf(s.rs[r].conf.matchers).Some?
    ensures SubOf(s.rs[r].conf.matchers).value in s.ms
  {
    var ms := s.rs[r].conf.matchers;
    assert ms[|ms| - 1].SubMatcher?;
  }

  lemma RecordKeepsSub<R, M>(s: Snap<R, M>, op: Op<R, M>, r: R)
    requires Graph(s) && Forest(s) && Disciplined(s, op) && r in Apply(s, op).rs
    ensures SubLast(Apply(s, op).rs[r].conf.matchers)
    ensures var now := SubOf(Apply(s, op).rs[r].conf.matchers);
            if op.Subrouter? && op.route == r then now == Some(op.mux)
            else now == if r in s.rs then SubOf(s.rs[r].conf.matchers) else None
  {
    if op.AddMatcher? && op.route == r {
      AddRegexpKeeps(s.rs[r], op.path, op.typ);
    } else if op.NewRoute? && op.route == r {
      assert NoSub(s.ms[op.mux].conf.matchers);
    }
  }

  lemma ForestKept<R, M>(s: Snap<R, M>, op: Op<R, M>)
    requires Graph(s) && Forest(s) && Disciplined(s, op)
    ensures Forest(Apply(s, op))
  {
    var t := Apply(s, op);
    forall r | r in t.rs ensures SubLast(t.rs[r].conf.matchers) {
      RecordKeepsSub(s, op, r);
    }
    forall p, q | p in t.rs && q in t.rs && SubOf(t.rs[p].conf.matchers).Some? &&
                  SubOf(t.rs[p].conf.matchers) == SubOf(t.rs[q].conf.matchers)
      ensures p == q
    {
      RecordKeepsSub(s, op, p);
      RecordKeepsSub(s, op, q);
      if p in s.rs && SubOf(s.rs[p].conf.matchers).Some? {
        SubOfRoute(s, p);
      }
      if q in s.rs && SubOf(s.rs[q].conf.matchers).Some? {
        SubOfRoute(s, q);
      }
    }
    forall m, n, i, j | m in t.ms && n in t.ms && 0 <= i < |t.ms[m].routes| && 0 <= j < |t.ms[n].routes| &&
                        t.ms[m].routes[i] == t.ms[n].routes[j]
      ensures m == n && i == j
    {
      RoutesKept(s, op, m, i);
      RoutesKept(s, op, n, j);
    }
    forall m | m in t.ms ensures NoSub(t.ms[m].conf.matchers) {
    }
  }

  /** Only a new route is ever new in a router's list. */
  lemma RoutesKept<R, M>(s: Snap<R, M>, op: Op<R, M>, m: M, i: nat)
    requires Graph(s) && Applicable(s, op) && m in Apply(s, op).ms && i < |Apply(s, op).ms[m].routes|
    ensures m in s.ms
    ensures var r := Apply(s, op).ms[m].routes[i];
            if i < |s.ms[m].routes| then r == s.ms[m].routes[i] && r in s.rs
            else op.NewRoute? && op.mux == m && i == |s.ms[m].routes| && r == op.route && r !in s.rs
  {
  }

  // ---------------------------------------------------------------- disciplined runs

  ghost predicate DisciplinedRun<R, M>(s: Snap<R, M>, ops: seq<Op<R, M>>)
    decreases |ops|
  {
    ops == [] || (Disciplined(s, ops[0]) && DisciplinedRun(Apply(s, ops[0]), ops[1..]))
  }

  lemma {:induction false} DisciplinedRunKeeps<R, M>(s: Snap<R, M>, ops: seq<Op<R, M>>)
    requires Graph(s) && Forest(s) && DisciplinedRun(s, ops)
    ensures RunOk(s, ops) && Graph(Run(s, ops)) && Forest(Run(s, ops))
    decreases |ops|
  {
    if ops != [] {
      ApplyKeeps(s, ops[0]);
      ForestKept(s, ops[0]);
      DisciplinedRunKeeps(Apply(s, ops[0]), ops[1..]);
    }
  }

  lemma {:induction false} TestTreesAt<R, M>(s: Snap<R, M>, ms: seq<Matcher<M>>, x: real)
    requires Graph(s) && SubsBelow(s, ms, x)
    ensures |TestTrees(s, ms, x)| == |ms|
    ensures forall k :: 0 <= k < |ms| ==> (TestTrees(s, ms, x)[k].Regexp? <==> ms[k].RegexpMatcher?)
    ensures ms != [] && ms[|ms| - 1].SubMatcher? ==>
              ms[|ms| - 1].mux in s.ms &&
              TestTrees(s, ms, x)[|ms| - 1] == Sub(MuxTree(s, ms[|ms| - 1].mux))
    decreases |ms|
  {
    if ms != [] {
      TestTreesAt(s, ms[1..], x);
      var rest := TestTrees(s, ms[1..], x);
      assert forall k :: 1 <= k < |ms| ==> TestTrees(s, ms, x)[k] == rest[k - 1] && ms[k] == ms[1..][k - 1];
    }
  }

  lemma {:induction false} TreeWellPlaced<R, M>(s: Snap<R, M>, r: R)
    requires Graph(s) && Forest(s) && r in s.rs
    ensures WellPlaced(RouteTree(s, r))
    decreases UpTo(s, s.rs[r].rank), 1, 0
  {
    var ms := s.rs[r].conf.matchers;
    var n := RouteTree(s, r);
    FloorSmaller(s, r);
    TestTreesAt(s, ms, s.rs[r].floor);
    if HasSub(n) {
      var m := ms[|ms| - 1].mux;
      BelowSmaller(s, m, s.rs[r].floor);
      TreesWellPlaced(s, s.ms[m].routes, s.ms[m].rank);
    }
  }

  lemma {:induction false} TreesWellPlaced<R, M>(s: Snap<R, M>, rs: seq<R>, x: real)
    requires Graph(s) && Forest(s) && RoutesBelow(s, rs, x)
    ensures AllWellPlaced(RouteTrees(s, rs, x))
    decreases Below(s, x), 2, |rs|
  {
    if rs != [] {
      UpToWithin(s, rs[0], x);
      TreeWellPlaced(s, rs[0]);
      TreesWellPlaced(s, rs[1..], x);
    }
  }

  /**
   After any disciplined run, every router answers every request as the flat list of its
   leaves does: the first leaf all of whose own and ancestors' matchers accept.
   */
  lemma DisciplinedRoutingIsFlat<R, M>(root: M, ops: seq<Op<R, M>>, m: M, req: Request)
    requires DisciplinedRun(Start<R, M>(root), ops)
    ensures RunOk(Start<R, M>(root), ops) && Graph(Run(Start<R, M>(root), ops))
    ensures m in Run(Start<R, M>(root), ops).ms ==>
      var routes := MuxTree(Run(Start<R, M>(root), ops), m);
      && MatchRoutes(routes, req, Empty()) == FirstMatch(Leaves(routes), req, Empty())
      && (MatchRoutes(routes, req, Empty()).matched <==>
          exists k :: 0 <= k < |Leaves(routes)| && Satisfied(Leaves(routes)[k], req))
  {
    DisciplinedRunKeeps(Start<R, M>(root), ops);
    var s := Run(Start<R, M>(root), ops);
    if m in s.ms {
      TreesWellPlaced(s, s.ms[m].routes, s.ms[m].rank);
      RoutesAreFlat(MuxTree(s, m), req, Empty());
      FirstMatchFails(Leaves(MuxTree(s, m)), req, Empty());
    }
  }

  // ---------------------------------------------------------------- siblings

  /** What reaches an object and is not it reaches something that refers to it directly. */
  ghost predicate Parent<R, M>(s: Snap<R, M>, p: Target<R, M>, c: Target<R, M>)
  {
    match (p, c)
    case (ARoute(r), AMux(m)) =>
      r in s.rs &&
      exists k :: 0 <= k < |s.rs[r].conf.matchers| && s.rs[r].conf.matchers[k] == SubMatcher(m)
    case (AMux(m), ARoute(r)) => m in s.ms && exists k :: 0 <= k < |s.ms[m].routes| && s.ms[m].routes[k] == r
    case _ => false
  }

  lemma ParentUnique<R, M>(s: Snap<R, M>, p: Target<R, M>, q: Target<R, M>, c: Target<R, M>)
    requires Forest(s) && Parent(s, p, c) && Parent(s, q, c)
    ensures p == q
  {
    if c.AMux? {
      SubOfParent(s, p.r, c.m);
      SubOfParent(s, q.r, c.m);
    }
  }

  lemma SubOfParent<R, M>(s: Snap<R, M>, r: R, m: M)
    requires Forest(s) && r in s.rs && Parent(s, ARoute(r), AMux(m))
    ensures SubOf(s.rs[r].conf.matchers) == Some(m)
  {
    var ms := s.rs[r].conf.matchers;
    var k :| 0 <= k < |ms| && ms[k] == SubMatcher(m);
    assert SubLast(ms);
    assert k == |ms| - 1;
  }

  lemma ParentHigher<R, M>(s: Snap<R, M>, p: Target<R, M>, c: Target<R, M>)
    requires Graph(s) && Parent(s, p, c)
    ensures Known(s, p) && Known(s, c) && RankOf(s, c) < RankOf(s, p)
  {
  }

  lemma {:induction false} ReachedViaParent<R, M>(s: Snap<R, M>, r: R, c: Target<R, M>) returns (p: Target<R, M>)
    requires Graph(s) && r in s.rs && RouteReaches(s, r, c) && c != ARoute(r)
    ensures Parent(s, p, c) && RouteReaches(s, r, p)
    decreases UpTo(s, s.rs[r].rank), 1, 0
  {
    FloorSmaller(s, r);
    p := TestsViaParent(s, s.rs[r].conf.matchers, s.rs[r].floor, c, r);
  }

  lemma {:induction false} TestsViaParent<R, M>(
      s: Snap<R, M>, ms: seq<Matcher<M>>, x: real, c: Target<R, M>, r: R) returns (p: Target<R, M>)
    requires Graph(s) && SubsBelow(s, ms, x) && TestsReach(s, ms, x, c)
    requires r in s.rs && forall k :: 0 <= k < |ms| ==> ms[k] in s.rs[r].conf.matchers
    ensures Parent(s, p, c) && (p == ARoute(r) || TestsReach(s, ms, x, p))
    decreases UpTo(s, x), 2, |ms|
  {
    if TestsReach(s, ms[1..], x, c) {
      assert forall k :: 0 <= k < |ms[1..]| ==> ms[1..][k] == ms[k + 1];
      p := TestsViaParent(s, ms[1..], x, c, r);
    } else {
      var m := ms[0].mux;
      BelowSmaller(s, m, x);
      if c == AMux(m) {
        assert ms[0] in s.rs[r].conf.matchers;
        p := ARoute(r);
      } else {
        p := RoutesViaParent(s, s.ms[m].routes, s.ms[m].rank, c, m);
      }
    }
  }

  lemma {:induction false} RoutesViaParent<R, M>(
      s: Snap<R, M>, rs: seq<R>, x: real, c: Target<R, M>, m: M) returns (p: Target<R, M>)
    requires Graph(s) && RoutesBelow(s, rs, x) && RoutesReach(s, rs, x, c)
    requires m in s.ms && forall k :: 0 <= k < |rs| ==> rs[k] in s.ms[m].routes
    ensures Parent(s, p, c) && (p == AMux(m) || RoutesReach(s, rs, x, p))
    decreases Below(s, x), 2, |rs|
  {
    if RoutesReach(s, rs[1..], x, c) {
      assert forall k :: 0 <= k < |rs[1..]| ==> rs[1..][k] == rs[k + 1];
      p := RoutesViaParent(s, rs[1..], x, c, m);
    } else if c == ARoute(rs[0]) {
      assert rs[0] in s.ms[m].routes;
      p := AMux(m);
    } else {
      UpToWithin(s, rs[0], x);
      p := ReachedViaParent(s, rs[0], c);
    }
  }

  /** The objects above rank `x`. */
  ghost function Above<R, M>(s: Snap<R, M>, x: real): set<Target<R, M>>
  {
    (set r | r in s.rs && s.rs[r].rank > x :: ARoute(r)) + (set m | m in s.ms && s.ms[m].rank > x :: AMux(m))
  }

  lemma AboveSmaller<R, M>(s: Snap<R, M>, p: Target<R, M>, c: Target<R, M>)
    requires Graph(s) && Parent(s, p, c)
    ensures Known(s, p) && Known(s, c) && Above(s, RankOf(s, p)) < Above(s, RankOf(s, c))
  {
    ParentHigher(s, p, c);
    assert p in Above(s, RankOf(s, c)) && p !in Above(s, RankOf(s, p));
  }

  /** In a forest, two routes of the same router reach nothing in common. */
  lemma {:induction false} SiblingsApart<R, M>(s: Snap<R, M>, m: M, i: nat, j: nat, c: Target<R, M>)
    requires Graph(s) && Forest(s) && m in s.ms && i < |s.ms[m].routes| && j < |s.ms[m].routes| && i != j
    requires RouteReaches(s, s.ms[m].routes[i], c)
    ensures !RouteReaches(s, s.ms[m].routes[j], c)
    decreases if Known(s, c) then Above(s, RankOf(s, c)) else {}
  {
    var r1, r2 := s.ms[m].routes[i], s.ms[m].routes[j];
    assert r1 != r2;
    assert Parent(s, AMux(m), ARoute(r1)) && Parent(s, AMux(m), ARoute(r2));
    if RouteReaches(s, r2, c) {
      if c == ARoute(r1) {
        MuxNotBelow(s, r2, m, c);
      } else if c == ARoute(r2) {
        MuxNotBelow(s, r1, m, c);
      } else {
        var p := ReachedViaParent(s, r1, c);
        var q := ReachedViaParent(s, r2, c);
        ParentUnique(s, p, q, c);
        AboveSmaller(s, p, c);
        SiblingsApart(s, m, i, j, p);
      }
    }
  }

  /** A route does not reach a sibling: it would have to reach their router. */
  lemma MuxNotBelow<R, M>(s: Snap<R, M>, r: R, m: M, c: Target<R, M>)
    requires Graph(s) && Forest(s) && r in s.rs && m in s.ms && s.rs[r].rank < s.ms[m].rank
    requires Parent(s, AMux(m), c) && c != ARoute(r)
    ensures !RouteReaches(s, r, c)
  {
    if RouteReaches(s, r, c) {
      var p := ReachedViaParent(s, r, c);
      ParentUnique(s, p, AMux(m), c);
      ReachedRank(s, r, AMux(m));
    }
  }

  /**
   In a forest, a call made on anything under one route of a router leaves the answers of its
   other routes alone.
   */
  lemma SiblingsIsolated<R, M>(
      s: Snap<R, M>, op: Op<R, M>, m: M, i: nat, j: nat, req: Request, st: MatchState<R>)
    requires Graph(s) && Forest(s) && Applicable(s, op)
    requires m in s.ms && i < |s.ms[m].routes| && j < |s.ms[m].routes| && i != j
    requires RouteReaches(s, s.ms[m].routes[i], Changed(op))
    ensures var r := s.ms[m].routes[j];
            && Graph(Apply(s, op)) && r in Apply(s, op).rs
            && MatchNode(RouteTree(Apply(s, op), r), req, st) == MatchNode(RouteTree(s, r), req, st)
  {
    SiblingsApart(s, m, i, j, Changed(op));
    CallsAreIsolated(s, op, s.ms[m].routes[j], req, st);
  }

  // ---------------------------------------------------------------- two subrouters on one route

  /** A route with two subrouters, and a route in the second. */
  function TwoSubrouters(): seq<Op<nat, nat>>
  {
    [NewRoute(0, 1), Subrouter(1, 10), Subrouter(1, 11), NewRoute(11, 2)]
  }

  function TwoSubroutersSnap(): Snap<nat, nat>
  {
    var subs := RouteConf([SubMatcher(10)], EmptyConf<nat>().group);
    Snap(map[1 := RouteRec(None, None, RouteConf([SubMatcher(10), SubMatcher(11)], EmptyConf<nat>().group), 0.375, 0.5),
             2 := RouteRec(None, None, subs, 0.25, 0.3125)],
         map[0 := MuxRec([1], EmptyConf(), 0.0, 1.0),
             10 := MuxRec([], EmptyConf(), 0.0, 0.25),
             11 := MuxRec([2], subs, 0.25, 0.375)])
  }

  lemma RunStep<R, M>(s: Snap<R, M>, op: Op<R, M>, rest: seq<Op<R, M>>)
    requires Applicable(s, op) && RunOk(Apply(s, op), rest)
    ensures RunOk(s, [op] + rest) && Run(s, [op] + rest) == Run(Apply(s, op), rest)
  {
    assert ([op] + rest)[1..] == rest;
  }

  lemma TwoSubroutersRun()
    ensures RunOk(Start<nat, nat>(0), TwoSubrouters())
    ensures Run(Start<nat, nat>(0), TwoSubrouters()) == TwoSubroutersSnap()
  {
    var s0 := Start<nat, nat>(0);
    var s1 := Apply(s0, NewRoute(0, 1));
    var s2 := Apply(s1, Subrouter(1, 10));
    var s3 := Apply(s2, Subrouter(1, 11));
    var s4 := Apply(s3, NewRoute(11, 2));
    assert s1.rs[1] == RouteRec(None, None, EmptyConf(), 0.0, 0.5);
    assert s2.rs[1] == RouteRec(None, None, RouteConf([SubMatcher(10)], EmptyConf<nat>().group), 0.25, 0.5);
    assert s3.rs[1] == TwoSubroutersSnap().rs[1];
    assert s4.rs == TwoSubroutersSnap().rs;
    assert s4.ms[0].routes == [1] && s4.ms[11].routes == [2];
    assert s4.ms[0] == TwoSubroutersSnap().ms[0] && s4.ms[10] == TwoSubroutersSnap().ms[10];
    assert s4.ms[11] == TwoSubroutersSnap().ms[11];
    assert s4.ms == TwoSubroutersSnap().ms;
    RunStep(s3, NewRoute(11, 2), []);
    RunStep(s2, Subrouter(1, 11), [NewRoute(11, 2)]);
    RunStep(s1, Subrouter(1, 10), [Subrouter(1, 11)] + [NewRoute(11, 2)]);
    RunStep(s0, NewRoute(0, 1), [Subrouter(1, 10)] + ([Subrouter(1, 11)] + [NewRoute(11, 2)]));
    assert [NewRoute(11, 2)] + [] == [NewRoute(11, 2)];
    assert TwoSubrouters() == [NewRoute(0, 1)] + ([Subrouter(1, 10)] + ([Subrouter(1, 11)] + [NewRoute(11, 2)]));
  }

  /**
   Without the discipline, isolation fails: a second subrouter copies its parent's matchers with
   the first subrouter among them, so its routes reach the first. A route added to the first
   makes them answer every request, where they answered none.
   */
  lemma SharedSubrouter(req: Request)
    ensures RunOk(Start<nat, nat>(0), TwoSubrouters())
    ensures var s := Run(Start<nat, nat>(0), TwoSubrouters());
            && Graph(s) && 2 in s.rs && s.ms[10].routes == [] && s.ms[11].routes == [2]
            && RouteReaches(s, 2, AMux(10))
            && Applicable(s, NewRoute(10, 3))
            && Graph(Apply(s, NewRoute(10, 3)))
            && !MatchNode(RouteTree(s, 2), req, Empty()).matched
            && MatchNode(RouteTree(Apply(s, NewRoute(10, 3)), 2), req, Empty()).matched
  {
    TwoSubroutersRun();
    RunKeepsGraph(Start<nat, nat>(0), TwoSubrouters());
    RouteAddedBehind(TwoSubroutersSnap(), 2, 10, 3, req);
  }

  /** A route with a subrouter as its only matcher matches when the subrouter does. */
  lemma BehindSubrouter<R, M>(s: Snap<R, M>, r: R, m: M, req: Request)
    requires Graph(s) && r in s.rs && s.rs[r].err.None? && s.rs[r].conf.matchers == [SubMatcher(m)]
    ensures m in s.ms && RouteReaches(s, r, AMux(m))
    ensures MatchNode(RouteTree(s, r), req, Empty()).matched <==> MatchRoutes(MuxTree(s, m), req, Empty()).matched
  {
    var ms, x := s.rs[r].conf.matchers, s.rs[r].floor;
    assert ms[0] == SubMatcher(m);
    TestTreesAt(s, ms, x);
    var tests := RouteTree(s, r).tests;
    assert tests == [] + [Sub(MuxTree(s, m))];
    MatchTestsSplit([], Sub(MuxTree(s, m)), req, Empty());
    assert TestsReach(s, ms, x, AMux(m));
  }

  /** The first route of an empty subrouter without matchers makes the routes behind it answer everything. */
  lemma RouteAddedBehind<R, M>(s: Snap<R, M>, r: R, m: M, added: R, req: Request)
    requires Graph(s) && r in s.rs && s.rs[r].err.None? && s.rs[r].conf.matchers == [SubMatcher(m)]
    requires m in s.ms && s.ms[m].routes == [] && s.ms[m].conf.matchers == [] && added !in s.rs
    ensures RouteReaches(s, r, AMux(m)) && Graph(Apply(s, NewRoute(m, added)))
    ensures !MatchNode(RouteTree(s, r), req, Empty()).matched
    ensures MatchNode(RouteTree(Apply(s, NewRoute(m, added)), r), req, Empty()).matched
  {
    var t := Apply(s, NewRoute(m, added));
    ApplyKeeps(s, NewRoute(m, added));
    BehindSubrouter(s, r, m, req);
    BehindSubrouter(t, r, m, req);
    SingleRoute(t, m, added, req);
  }

  lemma SingleRoute<R, M>(t: Snap<R, M>, m: M, r: R, req: Request)
    requires Graph(t) && m in t.ms && t.ms[m].routes == [] + [r]
    requires r in t.rs && t.rs[r].err.None? && t.rs[r].conf.matchers == []
    ensures MatchRoutes(MuxTree(t, m), req, Empty()).matched
  {
    var rs, x := t.ms[m].routes, t.ms[m].rank;
    assert rs[0] == r;
    RouteCount(t, rs, x);
    assert RouteTrees(t, rs, x)[0] == RouteTree(t, r);
    TestCount(t, t.rs[r].conf.matchers, t.rs[r].floor);
    assert RouteTree(t, r).tests == [];
    assert MatchNode(RouteTree(t, r), req, Empty()).matched;
  }

  // ---------------------------------------------------------------- a subrouter that is not last

  /** A route that gets a path after its subrouter, and another route beside it. */
  function PathAfterSubrouter(a: string, b: string): seq<Op<nat, nat>>
  {
    [NewRoute(0, 1), Subrouter(1, 10), NewRoute(10, 2), AddMatcher(1, a, PathType),
     NewRoute(0, 3), AddMatcher(3, b, PathType)]
  }

  /** What a path of literals alone compiles to. */
  function PathLiteral(path: string): RouteRegexp
  {
    RouteRegexp(path, PathType, [], path, false, false)
  }

  predicate PlainPath(path: string)
  {
    path != [] && path[0] == '/' && BraceFree(path) && forall k :: 0 <= k < |path| ==> path[k] as int < 0x80
  }

  lemma LiteralCompiles(path: string)
    requires PlainPath(path)
    ensures Compiled(path, PathType) == Ok(PathLiteral(path))
  {
    CompileOfRender([], path, PathType);
    AsciiIsValid(path);
  }

  lemma LiteralAccepts(path: string, req: Request)
    requires PlainPath(path)
    ensures Accepts(PathLiteral(path), req) <==> req.path == path
  {
    AsciiIsValid(path);
    ReadsExactly(path, req.path);
  }

  /** A first path of literals is added to a route that has neither host, path nor queries. */
  lemma LiteralAdded<M>(rec: RouteRec<M>, path: string)
    requires PlainPath(path) && rec.err.None? && rec.conf.group == RegexpGroup(None, None, [])
    ensures AddRegexp(rec, path, PathType) ==
            rec.(conf := RouteConf(rec.conf.matchers + [RegexpMatcher(PathLiteral(path))],
                                   RegexpGroup(None, Some(PathLiteral(path)), [])))
  {
    LiteralCompiles(path);
  }

  lemma {:induction false} TestTreeAt<R, M>(s: Snap<R, M>, ms: seq<Matcher<M>>, x: real, k: nat)
    requires Graph(s) && SubsBelow(s, ms, x) && k < |ms|
    ensures |TestTrees(s, ms, x)| == |ms|
    ensures match ms[k]
            case RegexpMatcher(rr) => TestTrees(s, ms, x)[k] == Regexp(rr)
            case SubMatcher(m) => m in s.ms && TestTrees(s, ms, x)[k] == Sub(MuxTree(s, m))
    decreases k
  {
    TestCount(s, ms, x);
    if k > 0 {
      TestTreeAt(s, ms[1..], x, k - 1);
      assert TestTrees(s, ms, x)[1..] == TestTrees(s, ms[1..], x);
    }
  }

  lemma {:induction false} RouteTreeAt<R, M>(s: Snap<R, M>, rs: seq<R>, x: real, k: nat)
    requires Graph(s) && RoutesBelow(s, rs, x) && k < |rs|
    ensures |RouteTrees(s, rs, x)| == |rs| && rs[k] in s.rs && RouteTrees(s, rs, x)[k] == RouteTree(s, rs[k])
    decreases k
  {
    RouteCount(s, rs, x);
    if k > 0 {
      RouteTreeAt(s, rs[1..], x, k - 1);
      assert RouteTrees(s, rs, x)[1..] == RouteTrees(s, rs[1..], x);
    }
  }

  /** What the first three calls of PathAfterSubrouter leave. */
  ghost predicate WithInner(s: Snap<nat, nat>)
  {
    0 in s.ms && 10 in s.ms && 1 in s.rs && 2 in s.rs && 3 !in s.rs &&
    s.ms[0].routes == [1] && s.ms[0].conf == EmptyConf() && s.ms[10].routes == [2] &&
    s.rs[1].err.None? && s.rs[1].conf == RouteConf([SubMatcher(10)], EmptyConf<nat>().group) &&
    s.rs[2].err.None? && s.rs[2].conf.matchers == []
  }

  /** And all of them. */
  ghost predicate Misplaced(s: Snap<nat, nat>, a: string, b: string)
  {
    0 in s.ms && 10 in s.ms && 1 in s.rs && 2 in s.rs && 3 in s.rs &&
    s.ms[0].routes == [1, 3] && s.ms[10].routes == [2] &&
    s.rs[1].err.None? && s.rs[2].err.None? && s.rs[3].err.None? &&
    s.rs[1].conf.matchers == [SubMatcher(10), RegexpMatcher(PathLiteral(a))] &&
    s.rs[2].conf.matchers == [] && s.rs[3].conf.matchers == [RegexpMatcher(PathLiteral(b))]
  }

  lemma InnerAdded(s: Snap<nat, nat>)
    requires s == Start(0)
    ensures var ops := [NewRoute(0, 1)] + ([Subrouter(1, 10)] + ([NewRoute(10, 2)] + []));
            RunOk(s, ops) && WithInner(Run(s, ops))
  {
    var s1 := Apply(s, NewRoute(0, 1));
    var s2 := Apply(s1, Subrouter(1, 10));
    RunStep(s2, NewRoute(10, 2), []);
    RunStep(s1, Subrouter(1, 10), [NewRoute(10, 2)] + []);
    RunStep(s, NewRoute(0, 1), [Subrouter(1, 10)] + ([NewRoute(10, 2)] + []));
  }

  /** What the next call leaves. */
  ghost predicate WithPath(s: Snap<nat, nat>, a: string)
  {
    0 in s.ms && 10 in s.ms && 1 in s.rs && 2 in s.rs && 3 !in s.rs &&
    s.ms[0].routes == [1] && s.ms[0].conf == EmptyConf() && s.ms[10].routes == [2] &&
    s.rs[1].err.None? && s.rs[2].err.None? && s.rs[2].conf.matchers == [] &&
    s.rs[1].conf.matchers == [SubMatcher(10), RegexpMatcher(PathLiteral(a))]
  }

  lemma PathAdded(s: Snap<nat, nat>, a: string)
    requires WithInner(s) && PlainPath(a)
    ensures WithPath(Apply(s, AddMatcher(1, a, PathType)), a)
  {
    LiteralAdded(s.rs[1], a);
  }

  lemma SecondAdded(s: Snap<nat, nat>, a: string, b: string)
    requires WithPath(s, a) && PlainPath(b)
    ensures Applicable(Apply(s, NewRoute(0, 3)), Op.AddMatcher(3, b, PathType))
    ensures Misplaced(Apply(Apply(s, NewRoute(0, 3)), Op.AddMatcher(3, b, PathType)), a, b)
  {
    var t := Apply(s, NewRoute(0, 3));
    assert t.rs[3].conf == EmptyConf<nat>() && t.ms[0].routes == [1] + [3];
    LiteralAdded(t.rs[3], b);
  }

  lemma PathsAdded(s: Snap<nat, nat>, a: string, b: string)
    requires WithInner(s) && PlainPath(a) && PlainPath(b)
    ensures var ops := [AddMatcher(1, a, PathType)] + ([NewRoute(0, 3)] + ([AddMatcher(3, b, PathType)] + []));
            RunOk(s, ops) && Misplaced(Run(s, ops), a, b)
  {
    var s1 := Apply(s, AddMatcher(1, a, PathType));
    PathAdded(s, a);
    SecondAdded(s1, a, b);
    RunStep(Apply(s1, NewRoute(0, 3)), AddMatcher(3, b, PathType), []);
    RunStep(s1, NewRoute(0, 3), [AddMatcher(3, b, PathType)] + []);
    RunStep(s, AddMatcher(1, a, PathType), [NewRoute(0, 3)] + ([AddMatcher(3, b, PathType)] + []));
  }

  lemma {:induction false} RunConcat<R, M>(s: Snap<R, M>, a: seq<Op<R, M>>, b: seq<Op<R, M>>)
    requires RunOk(s, a) && RunOk(Run(s, a), b)
    ensures RunOk(s, a + b) && Run(s, a + b) == Run(Run(s, a), b)
    decreases |a|
  {
    if a == [] {
      assert a + b == b;
    } else {
      assert (a + b)[1..] == a[1..] + b;
      RunConcat(Apply(s, a[0]), a[1..], b);
    }
  }

  lemma PathAfterSubrouterRun(a: string, b: string)
    requires PlainPath(a) && PlainPath(b)
    ensures RunOk(Start<nat, nat>(0), PathAfterSubrouter(a, b))
    ensures var s := Run(Start<nat, nat>(0), PathAfterSubrouter(a, b)); Graph(s) && Misplaced(s, a, b)
  {
    var s0 := Start<nat, nat>(0);
    var first: seq<Op<nat, nat>> := [NewRoute(0, 1)] + ([Subrouter(1, 10)] + ([NewRoute(10, 2)] + []));
    var next: seq<Op<nat, nat>> :=
      [AddMatcher(1, a, PathType)] + ([NewRoute(0, 3)] + ([AddMatcher(3, b, PathType)] + []));
    InnerAdded(s0);
    PathsAdded(Run(s0, first), a, b);
    RunConcat(s0, first, next);
    assert PathAfterSubrouter(a, b) == first + next;
    RunKeepsGraph(s0, PathAfterSubrouter(a, b));
  }

  /**
   A run of builder calls that reports the wrong route: a path is given to route 1 after its
   subrouter, so a request for `b` is refused by route 1 and accepted by route 3, and the match
   then names route 2, which is inside route 1.
   */
  lemma WrongRouteReported(a: string, b: string, req: Request)
    requires PlainPath(a) && PlainPath(b) && a != b && req.path == b
    ensures RunOk(Start<nat, nat>(0), PathAfterSubrouter(a, b))
    ensures var s := Run(Start<nat, nat>(0), PathAfterSubrouter(a, b));
            && Graph(s) && 0 in s.ms && 1 in s.rs && 3 in s.rs && s.ms[0].routes == [1, 3]
            && !MatchNode(RouteTree(s, 1), req, Empty()).matched
            && MatchNode(RouteTree(s, 3), req, Empty()).state.route == Some(3)
            && MatchRoutes(MuxTree(s, 0), req, Empty()).matched
            && MatchRoutes(MuxTree(s, 0), req, Empty()).state.route == Some(2)
  {
    PathAfterSubrouterRun(a, b);
    var s := Run(Start<nat, nat>(0), PathAfterSubrouter(a, b));
    MisplacedTrees(s, a, b);
    LiteralAccepts(a, req);
    LiteralAccepts(b, req);
    SubrouterNotLast(RouteTree(s, 1), RouteTree(s, 2), RouteTree(s, 3), PathLiteral(a), PathLiteral(b), req);
  }

  lemma MisplacedTrees(s: Snap<nat, nat>, a: string, b: string)
    requires Graph(s) && Misplaced(s, a, b)
    ensures MuxTree(s, 0) == [RouteTree(s, 1), RouteTree(s, 3)]
    ensures RouteTree(s, 1).tests == [Sub([RouteTree(s, 2)]), Regexp(PathLiteral(a))]
    ensures RouteTree(s, 2).tests == [] && RouteTree(s, 3).tests == [Regexp(PathLiteral(b))]
  {
    RouteTreeAt(s, s.ms[0].routes, s.ms[0].rank, 0);
    RouteTreeAt(s, s.ms[0].routes, s.ms[0].rank, 1);
    RouteTreeAt(s, s.ms[10].routes, s.ms[10].rank, 0);
    assert MuxTree(s, 10) == [RouteTree(s, 2)];
    TestTreeAt(s, s.rs[1].conf.matchers, s.rs[1].floor, 0);
    TestTreeAt(s, s.rs[1].conf.matchers, s.rs[1].floor, 1);
    TestCount(s, s.rs[2].conf.matchers, s.rs[2].floor);
    TestTreeAt(s, s.rs[3].conf.matchers, s.rs[3].floor, 0);
  }
}
