/**
 The objects a sequence of configuration calls builds: routes and routers that refer to each
 other, each with its own copy of the configuration it was created from. `R` and `M` are the
 identities of route and router objects.

 Every object has a rank above the ranks of what it refers to, and a floor below its rank:
 what it refers to lies at or below the floor, and a subrouter created from it goes between.
 */
module RouteGraph {
  import opened Wrappers
  import opened Braces
  import opened Regexp
  import opened Matching
  import opened RouteMatching

  datatype RouteError = NoLeadingSlash | BadTemplate(why: CompileError) | DuplicateVariable | OddPairs

  datatype Matcher<M> = RegexpMatcher(rr: RouteRegexp) | SubMatcher(mux: M)

  /** What a router and its routes share, and each new route or router copies. */
  datatype RouteConf<M> = RouteConf(matchers: seq<Matcher<M>>, group: RegexpGroup)

  datatype RouteRec<M> = RouteRec(
    err: Option<RouteError>, controller: Option<Controller>, conf: RouteConf<M>, floor: real, rank: real)

  datatype MuxRec<R, M> = MuxRec(routes: seq<R>, conf: RouteConf<M>, floor: real, rank: real)

  datatype Snap<R, M> = Snap(rs: map<R, RouteRec<M>>, ms: map<M, MuxRec<R, M>>)

  datatype Target<R, M> = ARoute(r: R) | AMux(m: M)

  // ---------------------------------------------------------------- adding a matcher

  /** uniqueVars: the two lists have no name in common. */
  predicate UniqueVars(s1: seq<string>, s2: seq<string>)
  {
    forall i, j :: 0 <= i < |s1| && 0 <= j < |s2| ==> s1[i] != s2[j]
  }

  function VarsN(rr: RouteRegexp): seq<string>
  {
    Names(rr.segs)
  }

  predicate UniqueInQueries(names: seq<string>, queries: seq<RouteRegexp>)
  {
    forall k :: 0 <= k < |queries| ==> UniqueVars(names, VarsN(queries[k]))
  }

  /** The template a new path matcher compiles: nested under the path the route already has. */
  function FullTemplate(g: RegexpGroup, path: string, typ: RegexpType): string
  {
    if (typ == PathType || typ == PrefixType) && g.path.Some? then TrimSlashes(g.path.value.template) + path else path
  }

  /** A variable of the new expression is one of a query, or of the path next to a host, or of the host. */
  predicate Clashes(g: RegexpGroup, rr: RouteRegexp, typ: RegexpType)
  {
    var other := if typ == HostType then g.path else g.host;
    !UniqueInQueries(VarsN(rr), g.queries) || (other.Some? && !UniqueVars(VarsN(rr), VarsN(other.value)))
  }

  function Extended(g: RegexpGroup, rr: RouteRegexp, typ: RegexpType): RegexpGroup
  {
    match typ
    case HostType => g.(host := Some(rr))
    case QueryType => g.(queries := g.queries + [rr])
    case _ => g.(path := Some(rr))
  }

  /** addRegexpMatcher on a route without an error. */
  function WithRegexp<M>(conf: RouteConf<M>, path: string, typ: RegexpType): Result<RouteConf<M>, RouteError>
    requires typ == QueryType ==> '=' in path
  {
    var g := conf.group;
    if (typ == PathType || typ == PrefixType) && path != "" && path[0] != '/' then Err(NoLeadingSlash)
    else
      match Compiled(FullTemplate(g, path, typ), typ)
      case Err(e) => Err(BadTemplate(e))
      case Ok(rr) =>
        if Clashes(g, rr, typ) then Err(DuplicateVariable)
        else Ok(RouteConf(conf.matchers + [RegexpMatcher(rr)], Extended(g, rr, typ)))
  }

  /** Path, PathPrefix, Host and one pair of Queries: an earlier error stays, a new one is kept. */
  function AddRegexp<M>(rec: RouteRec<M>, path: string, typ: RegexpType): RouteRec<M>
    requires typ == QueryType ==> '=' in path
  {
    if rec.err.Some? then rec
    else
      match WithRegexp(rec.conf, path, typ)
      case Err(e) => rec.(err := Some(e))
      case Ok(conf) => rec.(conf := conf)
  }

  // ---------------------------------------------------------------- well-founded graphs

  /** The queries of a route, pair by pair. */
  function AddQueries<M>(rec: RouteRec<M>, pairs: seq<string>): RouteRec<M>
    requires |pairs| % 2 == 0
    decreases |pairs|
  {
    if pairs == [] then rec
    else AddQueries(AddRegexp(rec, pairs[0] + "=" + pairs[1], QueryType), pairs[2..])
  }

  lemma {:induction false} QueriesAfterError<M>(rec: RouteRec<M>, pairs: seq<string>)
    requires |pairs| % 2 == 0 && rec.err.Some?
    ensures AddQueries(rec, pairs) == rec
    decreases |pairs|
  {
    if pairs != [] {
      QueriesAfterError(rec, pairs[2..]);
    }
  }

  predicate SubsBelow<R, M>(s: Snap<R, M>, ms: seq<Matcher<M>>, x: real)
  {
    forall k :: 0 <= k < |ms| && ms[k].SubMatcher? ==> ms[k].mux in s.ms && s.ms[ms[k].mux].rank <= x
  }

  predicate RoutesBelow<R, M>(s: Snap<R, M>, rs: seq<R>, x: real)
  {
    forall k :: 0 <= k < |rs| ==> rs[k] in s.rs && s.rs[rs[k]].rank < x
  }

  ghost predicate Graph<R, M>(s: Snap<R, M>)
  {
    && (forall r :: r in s.rs ==> s.rs[r].floor < s.rs[r].rank && SubsBelow(s, s.rs[r].conf.matchers, s.rs[r].floor))
    && (forall m :: m in s.ms ==>
          && s.ms[m].floor < s.ms[m].rank
          && SubsBelow(s, s.ms[m].conf.matchers, s.ms[m].floor)
          && RoutesBelow(s, s.ms[m].routes, s.ms[m].rank))
  }

  /** The objects of rank at most `x`, and those below `x`. */
  ghost function UpTo<R, M>(s: Snap<R, M>, x: real): set<Target<R, M>>
  {
    (set r | r in s.rs && s.rs[r].rank <= x :: ARoute(r)) + (set m | m in s.ms && s.ms[m].rank <= x :: AMux(m))
  }

  ghost function Below<R, M>(s: Snap<R, M>, x: real): set<Target<R, M>>
  {
    (set r | r in s.rs && s.rs[r].rank < x :: ARoute(r)) + (set m | m in s.ms && s.ms[m].rank < x :: AMux(m))
  }

  lemma FloorSmaller<R, M>(s: Snap<R, M>, r: R)
    requires Graph(s) && r in s.rs
    ensures UpTo(s, s.rs[r].floor) < UpTo(s, s.rs[r].rank)
  {
    assert ARoute(r) in UpTo(s, s.rs[r].rank) && ARoute(r) !in UpTo(s, s.rs[r].floor);
  }

  lemma BelowSmaller<R, M>(s: Snap<R, M>, m: M, x: real)
    requires m in s.ms && s.ms[m].rank <= x
    ensures Below(s, s.ms[m].rank) < UpTo(s, x)
  {
    assert AMux(m) in UpTo(s, x) && AMux(m) !in Below(s, s.ms[m].rank);
  }

  lemma UpToWithin<R, M>(s: Snap<R, M>, r: R, x: real)
    requires r in s.rs && s.rs[r].rank < x
    ensures UpTo(s, s.rs[r].rank) <= Below(s, x)
  {
  }

  // ---------------------------------------------------------------- the tree an object stands for

  ghost function RouteTree<R, M>(s: Snap<R, M>, r: R): Node<R>
    requires Graph(s) && r in s.rs
    decreases UpTo(s, s.rs[r].rank), 1, 0
  {
    var rec := s.rs[r];
    FloorSmaller(s, r);
    Node(r, rec.err.Some?, rec.controller, rec.conf.group, TestTrees(s, rec.conf.matchers, rec.floor))
  }

  ghost function TestTrees<R, M>(s: Snap<R, M>, ms: seq<Matcher<M>>, x: real): seq<Test<R>>
    requires Graph(s) && SubsBelow(s, ms, x)
    decreases UpTo(s, x), 2, |ms|
  {
    if ms == [] then []
    else
      [match ms[0]
       case RegexpMatcher(rr) => Regexp(rr)
       case SubMatcher(m) => (BelowSmaller(s, m, x); Sub(RouteTrees(s, s.ms[m].routes, s.ms[m].rank)))]
      + TestTrees(s, ms[1..], x)
  }

  ghost function RouteTrees<R, M>(s: Snap<R, M>, rs: seq<R>, x: real): seq<Node<R>>
    requires Graph(s) && RoutesBelow(s, rs, x)
    decreases Below(s, x), 2, |rs|
  {
    if rs == [] then []
    else
      UpToWithin(s, rs[0], x);
      [RouteTree(s, rs[0])] + RouteTrees(s, rs[1..], x)
  }

  /** The routes of a router. */
  ghost function MuxTree<R, M>(s: Snap<R, M>, m: M): seq<Node<R>>
    requires Graph(s) && m in s.ms
  {
    RouteTrees(s, s.ms[m].routes, s.ms[m].rank)
  }

  // ---------------------------------------------------------------- reachability

  ghost predicate RouteReaches<R, M>(s: Snap<R, M>, r: R, c: Target<R, M>)
    requires Graph(s) && r in s.rs
    decreases UpTo(s, s.rs[r].rank), 1, 0
  {
    FloorSmaller(s, r);
    c == ARoute(r) || TestsReach(s, s.rs[r].conf.matchers, s.rs[r].floor, c)
  }

  ghost predicate TestsReach<R, M>(s: Snap<R, M>, ms: seq<Matcher<M>>, x: real, c: Target<R, M>)
    requires Graph(s) && SubsBelow(s, ms, x)
    decreases UpTo(s, x), 2, |ms|
  {
    ms != [] &&
    ((ms[0].SubMatcher? &&
      (BelowSmaller(s, ms[0].mux, x);
       c == AMux(ms[0].mux) || RoutesReach(s, s.ms[ms[0].mux].routes, s.ms[ms[0].mux].rank, c)))
     || TestsReach(s, ms[1..], x, c))
  }

  ghost predicate RoutesReach<R, M>(s: Snap<R, M>, rs: seq<R>, x: real, c: Target<R, M>)
    requires Graph(s) && RoutesBelow(s, rs, x)
    decreases Below(s, x), 2, |rs|
  {
    rs != [] && (UpToWithin(s, rs[0], x); RouteReaches(s, rs[0], c) || RoutesReach(s, rs[1..], x, c))
  }

  ghost predicate Known<R, M>(s: Snap<R, M>, c: Target<R, M>)
  {
    match c
    case ARoute(r) => r in s.rs
    case AMux(m) => m in s.ms
  }

  ghost function RankOf<R, M>(s: Snap<R, M>, c: Target<R, M>): real
    requires Known(s, c)
  {
    match c
    case ARoute(r) => s.rs[r].rank
    case AMux(m) => s.ms[m].rank
  }

  /** What is reached is known, and of no higher rank. */
  lemma {:induction false} ReachedRank<R, M>(s: Snap<R, M>, r: R, c: Target<R, M>)
    requires Graph(s) && r in s.rs && RouteReaches(s, r, c)
    ensures Known(s, c) && (c == ARoute(r) || RankOf(s, c) < s.rs[r].rank)
    decreases UpTo(s, s.rs[r].rank), 1, 0
  {
    if c != ARoute(r) {
      FloorSmaller(s, r);
      TestsReachedRank(s, s.rs[r].conf.matchers, s.rs[r].floor, c);
    }
  }

  lemma {:induction false} TestsReachedRank<R, M>(s: Snap<R, M>, ms: seq<Matcher<M>>, x: real, c: Target<R, M>)
    requires Graph(s) && SubsBelow(s, ms, x) && TestsReach(s, ms, x, c)
    ensures Known(s, c) && RankOf(s, c) <= x
    decreases UpTo(s, x), 2, |ms|
  {
    if TestsReach(s, ms[1..], x, c) {
      TestsReachedRank(s, ms[1..], x, c);
    } else if c != AMux(ms[0].mux) {
      var m := ms[0].mux;
      BelowSmaller(s, m, x);
      RoutesReachedRank(s, s.ms[m].routes, s.ms[m].rank, c);
    }
  }

  lemma {:induction false} RoutesReachedRank<R, M>(s: Snap<R, M>, rs: seq<R>, x: real, c: Target<R, M>)
    requires Graph(s) && RoutesBelow(s, rs, x) && RoutesReach(s, rs, x, c)
    ensures Known(s, c) && RankOf(s, c) < x
    decreases Below(s, x), 2, |rs|
  {
    if RoutesReach(s, rs[1..], x, c) {
      RoutesReachedRank(s, rs[1..], x, c);
    } else {
      UpToWithin(s, rs[0], x);
      ReachedRank(s, rs[0], c);
    }
  }

  /** A router never contains itself, so matching terminates. */
  lemma NoRouterContainsItself<R, M>(s: Snap<R, M>, m: M)
    requires Graph(s) && m in s.ms
    ensures !RoutesReach(s, s.ms[m].routes, s.ms[m].rank, AMux(m))
  {
    if RoutesReach(s, s.ms[m].routes, s.ms[m].rank, AMux(m)) {
      RoutesReachedRank(s, s.ms[m].routes, s.ms[m].rank, AMux(m));
    }
  }

  // ---------------------------------------------------------------- isolation

  /** The second snapshot has everything the first has, unchanged but for `c`. */
  ghost predicate AgreesOff<R, M>(s: Snap<R, M>, t: Snap<R, M>, c: Target<R, M>)
  {
    && (forall r :: r in s.rs ==> r in t.rs && t.rs[r].rank == s.rs[r].rank && (ARoute(r) != c ==> t.rs[r] == s.rs[r]))
    && (forall m :: m in s.ms ==> m in t.ms && t.ms[m].rank == s.ms[m].rank && (AMux(m) != c ==> t.ms[m] == s.ms[m]))
  }

  /** A change to one object changes no tree that does not reach it. */
  lemma {:induction false} RouteTreeIsolated<R, M>(s: Snap<R, M>, t: Snap<R, M>, r: R, c: Target<R, M>)
    requires Graph(s) && Graph(t) && AgreesOff(s, t, c) && r in s.rs && !RouteReaches(s, r, c)
    ensures RouteTree(t, r) == RouteTree(s, r)
    decreases UpTo(s, s.rs[r].rank), 1, 0
  {
    FloorSmaller(s, r);
    TestTreesIsolated(s, t, s.rs[r].conf.matchers, s.rs[r].floor, c);
  }

  lemma {:induction false} TestTreesIsolated<R, M>(
      s: Snap<R, M>, t: Snap<R, M>, ms: seq<Matcher<M>>, x: real, c: Target<R, M>)
    requires Graph(s) && Graph(t) && AgreesOff(s, t, c)
    requires SubsBelow(s, ms, x) && SubsBelow(t, ms, x) && !TestsReach(s, ms, x, c)
    ensures TestTrees(t, ms, x) == TestTrees(s, ms, x)
    decreases UpTo(s, x), 2, |ms|
  {
    if ms != [] {
      TestTreesIsolated(s, t, ms[1..], x, c);
      if ms[0].SubMatcher? {
        var m := ms[0].mux;
        BelowSmaller(s, m, x);
        assert t.ms[m] == s.ms[m];
        RouteTreesIsolated(s, t, s.ms[m].routes, s.ms[m].rank, c);
      }
    }
  }

  lemma {:induction false} RouteTreesIsolated<R, M>(
      s: Snap<R, M>, t: Snap<R, M>, rs: seq<R>, x: real, c: Target<R, M>)
    requires Graph(s) && Graph(t) && AgreesOff(s, t, c)
    requires RoutesBelow(s, rs, x) && RoutesBelow(t, rs, x) && !RoutesReach(s, rs, x, c)
    ensures RouteTrees(t, rs, x) == RouteTrees(s, rs, x)
    decreases Below(s, x), 2, |rs|
  {
    if rs != [] {
      UpToWithin(s, rs[0], x);
      RouteTreeIsolated(s, t, rs[0], c);
      RouteTreesIsolated(s, t, rs[1..], x, c);
    }
  }

  // ---------------------------------------------------------------- configuration calls

  datatype Op<R, M> =
    | NewRoute(mux: M, route: R)
    | Subrouter(route: R, mux: M)
    | AddMatcher(route: R, path: string, typ: RegexpType)
    | Control(route: R, ctrl: Controller)
    | Fail(route: R)

  /** The object a call changes. */
  function Changed<R, M>(op: Op<R, M>): Target<R, M>
  {
    match op
    case NewRoute(m, _) => AMux(m)
    case Subrouter(r, _) => ARoute(r)
    case AddMatcher(r, _, _) => ARoute(r)
    case Control(r, _) => ARoute(r)
    case Fail(r) => ARoute(r)
  }

  /** The call is made on an existing object, and what it creates is new. */
  ghost predicate Applicable<R, M>(s: Snap<R, M>, op: Op<R, M>)
  {
    && Known(s, Changed(op))
    && match op
       case NewRoute(_, r) => r !in s.rs
       case Subrouter(_, m) => m !in s.ms
       case AddMatcher(_, path, typ) => typ == QueryType ==> '=' in path
       case _ => true
  }

  function Middle(a: real, b: real): real
  {
    (a + b) / 2.0
  }

  /** What a configuration call does. */
  ghost function Apply<R, M>(s: Snap<R, M>, op: Op<R, M>): Snap<R, M>
    requires Applicable(s, op)
  {
    match op
    case NewRoute(m, r) =>
      var mux := s.ms[m];
      Snap(s.rs[r := RouteRec(None, None, mux.conf, mux.floor, Middle(mux.floor, mux.rank))],
           s.ms[m := mux.(routes := mux.routes + [r])])
    case Subrouter(r, m) =>
      var rec := s.rs[r];
      var rank := Middle(rec.floor, rec.rank);
      var conf := rec.conf.(matchers := rec.conf.matchers + [SubMatcher(m)]);
      Snap(s.rs[r := rec.(conf := conf, floor := rank)],
           s.ms[m := MuxRec([], rec.conf, rec.floor, rank)])
    case AddMatcher(r, path, typ) => s.(rs := s.rs[r := AddRegexp(s.rs[r], path, typ)])
    case Control(r, c) => if s.rs[r].err.None? then s.(rs := s.rs[r := s.rs[r].(controller := Some(c))]) else s
    case Fail(r) => s.(rs := s.rs[r := s.rs[r].(err := Some(OddPairs))])
  }

  lemma AddRegexpKeeps<M>(rec: RouteRec<M>, path: string, typ: RegexpType)
    requires typ == QueryType ==> '=' in path
    ensures var rec' := AddRegexp(rec, path, typ);
            && rec'.floor == rec.floor && rec'.rank == rec.rank && rec'.controller == rec.controller
            && (rec'.conf == rec.conf || (rec.err.None? && rec'.err.None? &&
              exists rr :: rec'.conf.matchers == rec.conf.matchers + [RegexpMatcher(rr)]))
  {
    if rec.err.None? && WithRegexp(rec.conf, path, typ).Ok? {
      var rr := Compiled(FullTemplate(rec.conf.group, path, typ), typ).value;
      assert WithRegexp(rec.conf, path, typ).value.matchers == rec.conf.matchers + [RegexpMatcher(rr)];
    }
  }

  lemma ApplyAgrees<R, M>(s: Snap<R, M>, op: Op<R, M>)
    requires Applicable(s, op)
    ensures AgreesOff(s, Apply(s, op), Changed(op))
  {
    if op.AddMatcher? {
      AddRegexpKeeps(s.rs[op.route], op.path, op.typ);
    }
  }

  lemma StaysBelow<R, M>(s: Snap<R, M>, t: Snap<R, M>, c: Target<R, M>, ms: seq<Matcher<M>>, x: real)
    requires AgreesOff(s, t, c) && SubsBelow(s, ms, x)
    ensures SubsBelow(t, ms, x)
  {
  }

  lemma RouteKeeps<R, M>(s: Snap<R, M>, op: Op<R, M>, r: R)
    requires Graph(s) && Applicable(s, op) && r in Apply(s, op).rs
    ensures var t := Apply(s, op); t.rs[r].floor < t.rs[r].rank && SubsBelow(t, t.rs[r].conf.matchers, t.rs[r].floor)
  {
    var t := Apply(s, op);
    ApplyAgrees(s, op);
    if r in s.rs {
      StaysBelow(s, t, Changed(op), s.rs[r].conf.matchers, s.rs[r].floor);
      if op.AddMatcher? && op.route == r {
        AddRegexpKeeps(s.rs[r], op.path, op.typ);
      }
    } else {
      StaysBelow(s, t, Changed(op), s.ms[op.mux].conf.matchers, s.ms[op.mux].floor);
    }
  }

  lemma MuxKeeps<R, M>(s: Snap<R, M>, op: Op<R, M>, m: M)
    requires Graph(s) && Applicable(s, op) && m in Apply(s, op).ms
    ensures var t := Apply(s, op);
            && t.ms[m].floor < t.ms[m].rank
            && SubsBelow(t, t.ms[m].conf.matchers, t.ms[m].floor)
            && RoutesBelow(t, t.ms[m].routes, t.ms[m].rank)
  {
    var t := Apply(s, op);
    ApplyAgrees(s, op);
    if m in s.ms {
      StaysBelow(s, t, Changed(op), s.ms[m].conf.matchers, s.ms[m].floor);
      assert RoutesBelow(t, s.ms[m].routes, s.ms[m].rank);
    } else {
      StaysBelow(s, t, Changed(op), s.rs[op.route].conf.matchers, s.rs[op.route].floor);
    }
  }

  /** Every call keeps the graph well-founded and changes only its own object. */
  lemma ApplyKeeps<R, M>(s: Snap<R, M>, op: Op<R, M>)
    requires Graph(s) && Applicable(s, op)
    ensures Graph(Apply(s, op)) && AgreesOff(s, Apply(s, op), Changed(op))
  {
    ApplyAgrees(s, op);
    forall r | r in Apply(s, op).rs
      ensures var t := Apply(s, op); t.rs[r].floor < t.rs[r].rank && SubsBelow(t, t.rs[r].conf.matchers, t.rs[r].floor)
    {
      RouteKeeps(s, op, r);
    }
    forall m | m in Apply(s, op).ms
      ensures var t := Apply(s, op);
              && t.ms[m].floor < t.ms[m].rank
              && SubsBelow(t, t.ms[m].conf.matchers, t.ms[m].floor)
              && RoutesBelow(t, t.ms[m].routes, t.ms[m].rank)
    {
      MuxKeeps(s, op, m);
    }
  }

  /**
   A call changes matching only for routes that reach the object it is made on: every other
   route answers every request as before.
   */
  lemma CallsAreIsolated<R, M>(s: Snap<R, M>, op: Op<R, M>, r: R, req: Request, m: MatchState<R>)
    requires Graph(s) && Applicable(s, op) && r in s.rs && !RouteReaches(s, r, Changed(op))
    ensures Graph(Apply(s, op)) && r in Apply(s, op).rs
    ensures MatchNode(RouteTree(Apply(s, op), r), req, m) == MatchNode(RouteTree(s, r), req, m)
  {
    ApplyKeeps(s, op);
    RouteTreeIsolated(s, Apply(s, op), r, Changed(op));
  }

  // ---------------------------------------------------------------- when a call changes a tree

  /** The tree of the object itself differs. */
  ghost predicate Differs<R, M>(s: Snap<R, M>, t: Snap<R, M>, c: Target<R, M>)
    requires Graph(s) && Graph(t) && AgreesOff(s, t, c) && Known(s, c)
  {
    match c
    case ARoute(r) => RouteTree(t, r) != RouteTree(s, r)
    case AMux(m) => MuxTree(t, m) != MuxTree(s, m)
  }

  /** Then so does every tree that reaches it. */
  lemma {:induction false} RouteTreeChanged<R, M>(s: Snap<R, M>, t: Snap<R, M>, r: R, c: Target<R, M>)
    requires Graph(s) && Graph(t) && AgreesOff(s, t, c) && Known(s, c) && Differs(s, t, c)
    requires r in s.rs && RouteReaches(s, r, c)
    ensures RouteTree(t, r) != RouteTree(s, r)
    decreases UpTo(s, s.rs[r].rank), 1, 0
  {
    if c != ARoute(r) {
      FloorSmaller(s, r);
      TestTreesChanged(s, t, s.rs[r].conf.matchers, s.rs[r].floor, c);
    }
  }

  lemma {:induction false} TestTreesChanged<R, M>(
      s: Snap<R, M>, t: Snap<R, M>, ms: seq<Matcher<M>>, x: real, c: Target<R, M>)
    requires Graph(s) && Graph(t) && AgreesOff(s, t, c) && Known(s, c) && Differs(s, t, c)
    requires SubsBelow(s, ms, x) && SubsBelow(t, ms, x) && TestsReach(s, ms, x, c)
    ensures TestTrees(t, ms, x) != TestTrees(s, ms, x)
    decreases UpTo(s, x), 2, |ms|
  {
    if TestsReach(s, ms[1..], x, c) {
      TestTreesChanged(s, t, ms[1..], x, c);
      TailsDiffer(TestTrees(t, ms, x), TestTrees(s, ms, x), TestTrees(t, ms[1..], x), TestTrees(s, ms[1..], x));
    } else {
      var m := ms[0].mux;
      BelowSmaller(s, m, x);
      if c != AMux(m) {
        assert t.ms[m] == s.ms[m];
        RouteTreesChanged(s, t, s.ms[m].routes, s.ms[m].rank, c);
      }
      assert TestTrees(t, ms, x)[0] == Sub(MuxTree(t, m)) && TestTrees(s, ms, x)[0] == Sub(MuxTree(s, m));
    }
  }

  lemma TailsDiffer<T>(a: seq<T>, b: seq<T>, a1: seq<T>, b1: seq<T>)
    requires a != [] && b != [] && a[1..] == a1 && b[1..] == b1 && a1 != b1
    ensures a != b
  {
  }

  lemma {:induction false} RouteTreesChanged<R, M>(
      s: Snap<R, M>, t: Snap<R, M>, rs: seq<R>, x: real, c: Target<R, M>)
    requires Graph(s) && Graph(t) && AgreesOff(s, t, c) && Known(s, c) && Differs(s, t, c)
    requires RoutesBelow(s, rs, x) && RoutesBelow(t, rs, x) && RoutesReach(s, rs, x, c)
    ensures RouteTrees(t, rs, x) != RouteTrees(s, rs, x)
    decreases Below(s, x), 2, |rs|
  {
    UpToWithin(s, rs[0], x);
    if RouteReaches(s, rs[0], c) {
      RouteTreeChanged(s, t, rs[0], c);
      assert RouteTrees(t, rs, x)[0] == RouteTree(t, rs[0]) && RouteTrees(s, rs, x)[0] == RouteTree(s, rs[0]);
    } else {
      RouteTreesChanged(s, t, rs[1..], x, c);
      TailsDiffer(RouteTrees(t, rs, x), RouteTrees(s, rs, x), RouteTrees(t, rs[1..], x), RouteTrees(s, rs[1..], x));
    }
  }

  /** An object whose own tree is the same changes no tree. */
  lemma {:induction false} RouteTreeSame<R, M>(s: Snap<R, M>, t: Snap<R, M>, r: R, c: Target<R, M>)
    requires Graph(s) && Graph(t) && AgreesOff(s, t, c) && Known(s, c) && !Differs(s, t, c)
    requires r in s.rs
    ensures RouteTree(t, r) == RouteTree(s, r)
    decreases UpTo(s, s.rs[r].rank), 1, 0
  {
    if c != ARoute(r) {
      FloorSmaller(s, r);
      TestTreesSame(s, t, s.rs[r].conf.matchers, s.rs[r].floor, c);
    }
  }

  lemma {:induction false} TestTreesSame<R, M>(
      s: Snap<R, M>, t: Snap<R, M>, ms: seq<Matcher<M>>, x: real, c: Target<R, M>)
    requires Graph(s) && Graph(t) && AgreesOff(s, t, c) && Known(s, c) && !Differs(s, t, c)
    requires SubsBelow(s, ms, x) && SubsBelow(t, ms, x)
    ensures TestTrees(t, ms, x) == TestTrees(s, ms, x)
    decreases UpTo(s, x), 2, |ms|
  {
    if ms != [] {
      TestTreesSame(s, t, ms[1..], x, c);
      if ms[0].SubMatcher? && c != AMux(ms[0].mux) {
        var m := ms[0].mux;
        BelowSmaller(s, m, x);
        assert t.ms[m] == s.ms[m];
        RouteTreesSame(s, t, s.ms[m].routes, s.ms[m].rank, c);
      }
    }
  }

  lemma {:induction false} RouteTreesSame<R, M>(
      s: Snap<R, M>, t: Snap<R, M>, rs: seq<R>, x: real, c: Target<R, M>)
    requires Graph(s) && Graph(t) && AgreesOff(s, t, c) && Known(s, c) && !Differs(s, t, c)
    requires RoutesBelow(s, rs, x) && RoutesBelow(t, rs, x)
    ensures RouteTrees(t, rs, x) == RouteTrees(s, rs, x)
    decreases Below(s, x), 2, |rs|
  {
    if rs != [] {
      UpToWithin(s, rs[0], x);
      RouteTreeSame(s, t, rs[0], c);
      RouteTreesSame(s, t, rs[1..], x, c);
    }
  }

  /** Whether a call does anything: a route with an error takes no more matchers and no controller. */
  predicate Effective<R, M>(s: Snap<R, M>, op: Op<R, M>)
  {
    match op
    case NewRoute(_, _) => true
    case Subrouter(_, _) => true
    case AddMatcher(r, _, _) => r in s.rs && s.rs[r].err.None?
    case Control(r, c) => r in s.rs && s.rs[r].err.None? && s.rs[r].controller != Some(c)
    case Fail(r) => r in s.rs && s.rs[r].err.None?
  }

  lemma {:induction false} TestCount<R, M>(s: Snap<R, M>, ms: seq<Matcher<M>>, x: real)
    requires Graph(s) && SubsBelow(s, ms, x)
    ensures |TestTrees(s, ms, x)| == |ms|
  {
    if ms != [] {
      TestCount(s, ms[1..], x);
    }
  }

  lemma {:induction false} RouteCount<R, M>(s: Snap<R, M>, rs: seq<R>, x: real)
    requires Graph(s) && RoutesBelow(s, rs, x)
    ensures |RouteTrees(s, rs, x)| == |rs|
  {
    if rs != [] {
      RouteCount(s, rs[1..], x);
    }
  }

  /** The tests of a route lie below it, so a change to the route leaves them alone. */
  lemma OwnTestsSame<R, M>(s: Snap<R, M>, t: Snap<R, M>, r: R)
    requires Graph(s) && Graph(t) && AgreesOff(s, t, ARoute(r)) && r in s.rs
    requires t.rs[r].conf == s.rs[r].conf && t.rs[r].floor == s.rs[r].floor
    ensures RouteTree(t, r).tests == RouteTree(s, r).tests
  {
    var ms, x := s.rs[r].conf.matchers, s.rs[r].floor;
    if TestsReach(s, ms, x, ARoute(r)) {
      TestsReachedRank(s, ms, x, ARoute(r));
    }
    TestTreesIsolated(s, t, ms, x, ARoute(r));
  }

  /** An effective call changes the tree of its own object, and no other call does. */
  lemma EffectiveIff<R, M>(s: Snap<R, M>, op: Op<R, M>)
    requires Graph(s) && Applicable(s, op)
    ensures Graph(Apply(s, op)) && AgreesOff(s, Apply(s, op), Changed(op))
    ensures Differs(s, Apply(s, op), Changed(op)) <==> Effective(s, op)
  {
    var t := Apply(s, op);
    ApplyKeeps(s, op);
    match op {
      case NewRoute(m, _) =>
        RouteCount(s, s.ms[m].routes, s.ms[m].rank);
        RouteCount(t, t.ms[m].routes, t.ms[m].rank);
      case Subrouter(r, _) =>
        TestCount(s, s.rs[r].conf.matchers, s.rs[r].floor);
        TestCount(t, t.rs[r].conf.matchers, t.rs[r].floor);
      case AddMatcher(r, path, typ) =>
        AddRegexpKeeps(s.rs[r], path, typ);
        TestCount(s, s.rs[r].conf.matchers, s.rs[r].floor);
        TestCount(t, t.rs[r].conf.matchers, t.rs[r].floor);
        if s.rs[r].err.Some? {
          assert t.rs == s.rs;
        }
      case Control(r, c) =>
        if !Effective(s, op) {
          assert t.rs == s.rs;
        }
      case Fail(r) =>
        OwnTestsSame(s, t, r);
    }
  }

  /** A call changes what a route is if and only if the route reaches the changed object and the call does anything. */
  lemma TreeChangesIff<R, M>(s: Snap<R, M>, op: Op<R, M>, r: R)
    requires Graph(s) && Applicable(s, op) && r in s.rs
    ensures Graph(Apply(s, op)) && r in Apply(s, op).rs
    ensures RouteTree(Apply(s, op), r) != RouteTree(s, r) <==> RouteReaches(s, r, Changed(op)) && Effective(s, op)
  {
    var t := Apply(s, op);
    EffectiveIff(s, op);
    if !RouteReaches(s, r, Changed(op)) {
      RouteTreeIsolated(s, t, r, Changed(op));
    } else if Effective(s, op) {
      RouteTreeChanged(s, t, r, Changed(op));
    } else {
      RouteTreeSame(s, t, r, Changed(op));
    }
  }
}
