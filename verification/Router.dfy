/**
 The route and router objects of route.go and mux_route.go. Each method is tied to the pure
 model: configuration calls to `RouteGraph.Apply` on a snapshot of the objects in a `World`,
 matching to `RouteMatching`.
 */
module Router {
  import opened Wrappers
  import opened Regexp
  import opened Matching
  import opened RouteMatching
  import opened RouteGraph
  import opened ConfCopy

  /** The route and router objects under consideration. */
  datatype World = World(routes: set<Route>, muxes: set<Multiplexer>)

  /** The arrays behind the slices of all configurations. */
  ghost function Storage(w: World): set<object>
    reads w.routes, w.muxes
  {
    (set r | r in w.routes :: r.conf.matchers.buf as object) + (set r | r in w.routes :: r.conf.queries.buf as object) +
    (set m | m in w.muxes :: m.conf.matchers.buf as object) + (set m | m in w.muxes :: m.conf.queries.buf as object)
  }

  /** No two objects share storage. */
  ghost predicate AllApart(w: World)
    reads w.routes, w.muxes
  {
    && (forall r, q :: r in w.routes && q in w.routes && r != q ==> OwnStorage(r.conf, q.conf))
    && (forall m, n :: m in w.muxes && n in w.muxes && m != n ==> OwnStorage(m.conf, n.conf))
    && (forall r, m :: r in w.routes && m in w.muxes ==> OwnStorage(r.conf, m.conf))
  }

  /** Every object's slices hold what the object is said to hold. */
  ghost predicate Truthful(w: World)
    reads w.routes, w.muxes, Storage(w)
  {
    && (forall r :: r in w.routes ==> Holds(r.conf, r.value))
    && (forall m :: m in w.muxes ==> Holds(m.conf, m.value))
  }

  ghost predicate Owned(w: World)
    reads w.routes, w.muxes, Storage(w)
  {
    AllApart(w) && Truthful(w)
  }

  ghost function SnapOf(w: World): Snap<Route, Multiplexer>
    reads w.routes, w.muxes
  {
    Snap(map r | r in w.routes :: r.Rec(), map m | m in w.muxes :: m.Rec())
  }

  /** Every object of the world, and the storage of its slices, is as it was. */
  twostate lemma AllKept(w: World)
    requires old(Truthful(w))
    requires forall r :: r in w.routes ==>
              unchanged(r) && unchanged(r.conf.matchers.buf) && unchanged(r.conf.queries.buf)
    requires forall m :: m in w.muxes ==>
              unchanged(m) && unchanged(m.conf.matchers.buf) && unchanged(m.conf.queries.buf)
    ensures Truthful(w) && SnapOf(w) == old(SnapOf(w))
  {
    assert forall r :: r in w.routes ==> old(Holds(r.conf, r.value));
    assert forall m :: m in w.muxes ==> old(Holds(m.conf, m.value));
  }

  /** A route with storage of its own joins. */
  lemma RouteJoins(w: World, r: Route)
    requires Owned(w) && r !in w.routes && Holds(r.conf, r.value)
    requires forall q :: q in w.routes ==> OwnStorage(r.conf, q.conf)
    requires forall m :: m in w.muxes ==> OwnStorage(r.conf, m.conf)
    ensures var w2 := w.(routes := w.routes + {r});
            Owned(w2) && SnapOf(w2) == SnapOf(w).(rs := SnapOf(w).rs[r := r.Rec()])
  {
    var w2 := w.(routes := w.routes + {r});
    assert SnapOf(w2).rs == SnapOf(w).rs[r := r.Rec()];
  }

  lemma MuxJoins(w: World, m: Multiplexer)
    requires Owned(w) && m !in w.muxes && Holds(m.conf, m.value)
    requires forall r :: r in w.routes ==> OwnStorage(r.conf, m.conf)
    requires forall n :: n in w.muxes ==> OwnStorage(m.conf, n.conf)
    ensures var w2 := w.(muxes := w.muxes + {m});
            Owned(w2) && SnapOf(w2) == SnapOf(w).(ms := SnapOf(w).ms[m := m.Rec()])
  {
    var w2 := w.(muxes := w.muxes + {m});
    assert SnapOf(w2).ms == SnapOf(w).ms[m := m.Rec()];
  }

  class RouteMatch {
    var route: Route?
    var controller: Option<Controller>
    var vars: Option<Vars>

    constructor ()
      ensures State() == Empty()
    {
      route, controller, vars := null, None, None;
    }

    function State(): MatchState<Route>
      reads this
    {
      MatchState(if route == null then None else (var r: Route := route; Some(r)), controller, vars)
    }
  }

  class Route {
    var err: Option<RouteError>
    var controller: Option<Controller>
    var conf: Conf<Multiplexer>
    /** What the slices of the configuration hold. */
    ghost var value: RouteConf<Multiplexer>
    ghost var floor: real
    ghost const rank: real

    constructor (conf: Conf<Multiplexer>, ghost value: RouteConf<Multiplexer>, ghost floor: real, ghost rank: real)
      ensures this.conf == conf && Rec() == RouteRec(None, None, value, floor, rank)
    {
      err, controller, this.value := None, None, value;
      this.conf, this.floor, this.rank := conf, floor, rank;
    }

    ghost function Rec(): RouteRec<Multiplexer>
      reads this
    {
      RouteRec(err, controller, value, floor, rank)
    }

    /** The configuration's storage is what it was, or new. */
    twostate predicate StorageKept()
      reads this, conf.matchers.buf, conf.queries.buf
    {
      && Holds(conf, value)
      && (conf.matchers.buf == old(conf.matchers.buf) || fresh(conf.matchers.buf))
      && (conf.queries.buf == old(conf.queries.buf) || fresh(conf.queries.buf))
    }

    twostate lemma OthersKept(w: World)
      requires this in w.routes && forall q :: q in w.routes && q != this ==> unchanged(q)
      requires forall m :: m in w.muxes ==> unchanged(m)
      ensures SnapOf(w) == old(SnapOf(w)).(rs := old(SnapOf(w)).rs[this := Rec()])
    {
      var s, t := old(SnapOf(w)), SnapOf(w);
      assert forall q :: q in s.rs && q != this ==> t.rs[q] == s.rs[q];
      assert t.rs == s.rs[this := Rec()] && t.ms == s.ms;
    }

    /** The others' storage is as it was, and this route's is its own: so all is still in order. */
    twostate lemma OwnedKept(w: World)
      requires old(Owned(w)) && this in w.routes && StorageKept()
      requires forall q :: q in w.routes && q != this ==>
                 unchanged(q) && unchanged(q.conf.matchers.buf) && unchanged(q.conf.queries.buf)
      requires forall m :: m in w.muxes ==>
                 unchanged(m) && unchanged(m.conf.matchers.buf) && unchanged(m.conf.queries.buf)
      ensures Owned(w)
      ensures SnapOf(w) == old(SnapOf(w)).(rs := old(SnapOf(w)).rs[this := Rec()])
    {
      OthersKept(w);
      forall q | q in w.routes && q != this ensures Holds(q.conf, q.value) && OwnStorage(this.conf, q.conf) {
        assert old(Holds(q.conf, q.value)) && old(OwnStorage(this.conf, q.conf));
      }
      forall m | m in w.muxes ensures Holds(m.conf, m.value) && OwnStorage(this.conf, m.conf) {
        assert old(Holds(m.conf, m.value)) && old(OwnStorage(this.conf, m.conf));
      }
    }

    /** The error to store in the route, which is left as it was if there is one. */
    method AddRegexpMatcher(path: string, typ: RegexpType) returns (e: Option<RouteError>)
      requires Holds(conf, value)
      requires typ == QueryType ==> '=' in path
      modifies this`conf, this`value, conf.matchers.buf, conf.queries.buf
      ensures StorageKept()
      ensures RouteRec(e, controller, value, floor, rank) == AddRegexp(old(Rec()), path, typ)
    {
      if err.Some? {
        return err;
      }
      var tpl := path;
      if typ == PathType || typ == PrefixType {
        if |path| > 0 && path[0] != '/' {
          return Some(NoLeadingSlash);
        }
        if conf.path.Some? {
          tpl := Braces.TrimSlashes(conf.path.value.template) + path;
        }
      }
      var compiled := NewRouteRegexp(tpl, typ);
      if compiled.Err? {
        return Some(BadTemplate(compiled.error));
      }
      var rr := compiled.value;
      var clash := VariablesClash(GroupOf(conf), rr, typ);
      if clash {
        return Some(DuplicateVariable);
      }
      Extend(rr, typ);
      return None;
    }

    /** The part of addRegexpMatcher that stores the expression. */
    method Extend(rr: RouteRegexp, typ: RegexpType)
      requires Holds(conf, value)
      modifies this`conf, this`value, conf.matchers.buf, conf.queries.buf
      ensures StorageKept()
      ensures value == RouteConf(old(value).matchers + [RegexpMatcher(rr)], Extended(old(value).group, rr, typ))
    {
      if typ == HostType {
        conf := conf.(host := Some(rr));
      } else if typ == QueryType {
        conf := ConfCopy.AddQuery(conf, rr);
      } else {
        conf := conf.(path := Some(rr));
      }
      conf := ConfCopy.AddMatcher(conf, RegexpMatcher(rr));
      value := ValueOf(conf);
    }

    /** Adds an expression, or sets the error. */
    method SetRegexp(path: string, typ: RegexpType)
      requires Holds(conf, value)
      requires typ == QueryType ==> '=' in path
      modifies this, conf.matchers.buf, conf.queries.buf
      ensures StorageKept() && Rec() == AddRegexp(old(Rec()), path, typ)
    {
      err := AddRegexpMatcher(path, typ);
    }

    /** Among other objects, which keep what they hold. */
    method AddRegexpTo(path: string, typ: RegexpType, ghost w: World)
      requires this in w.routes && Owned(w)
      requires typ == QueryType ==> '=' in path
      modifies this, conf.matchers.buf, conf.queries.buf
      ensures Owned(w) && StorageKept()
      ensures SnapOf(w) == Apply(old(SnapOf(w)), Op.AddMatcher(this, path, typ))
    {
      SetRegexp(path, typ);
      OwnedKept(w);
    }

    /** The part of addRegexpMatcher that looks for a variable the route already has. */
    static method VariablesClash(g: RegexpGroup, rr: RouteRegexp, typ: RegexpType) returns (clash: bool)
      ensures clash <==> Clashes(g, rr, typ)
    {
      for i := 0 to |g.queries|
        invariant forall k :: 0 <= k < i ==> UniqueVars(VarsN(rr), VarsN(g.queries[k]))
      {
        var unique := CheckUnique(VarsN(rr), VarsN(g.queries[i]));
        if !unique {
          return true;
        }
      }
      var other := if typ == HostType then g.path else g.host;
      if other.Some? {
        var unique := CheckUnique(VarsN(rr), VarsN(other.value));
        return !unique;
      }
      return false;
    }

    method Path(path: string, ghost w: World) returns (r: Route)
      requires this in w.routes && Owned(w)
      modifies this, conf.matchers.buf, conf.queries.buf
      ensures Owned(w) && StorageKept()
      ensures r == this && SnapOf(w) == Apply(old(SnapOf(w)), Op.AddMatcher(this, path, PathType))
    {
      AddRegexpTo(path, PathType, w);
      r := this;
    }

    method PathPrefix(tpl: string, ghost w: World) returns (r: Route)
      requires this in w.routes && Owned(w)
      modifies this, conf.matchers.buf, conf.queries.buf
      ensures Owned(w) && StorageKept()
      ensures r == this && SnapOf(w) == Apply(old(SnapOf(w)), Op.AddMatcher(this, tpl, PrefixType))
    {
      AddRegexpTo(tpl, PrefixType, w);
      r := this;
    }

    method Host(tpl: string, ghost w: World) returns (r: Route)
      requires this in w.routes && Owned(w)
      modifies this, conf.matchers.buf, conf.queries.buf
      ensures Owned(w) && StorageKept()
      ensures r == this && SnapOf(w) == Apply(old(SnapOf(w)), Op.AddMatcher(this, tpl, HostType))
    {
      AddRegexpTo(tpl, HostType, w);
      r := this;
    }

    /** Pairs of keys and values; stops at the first error, and refuses an odd number of strings. */
    method Queries(pairs: seq<string>, ghost w: World) returns (r: Route?)
      requires this in w.routes && Owned(w)
      modifies this, conf.matchers.buf, conf.queries.buf
      ensures Owned(w) && StorageKept()
      ensures |pairs| % 2 == 1 ==>
                r == null && err == Some(OddPairs) && SnapOf(w) == Apply(old(SnapOf(w)), Fail(this))
      ensures |pairs| % 2 == 0 ==> r == this && Rec() == AddQueries(old(Rec()), pairs)
      ensures SnapOf(w).rs == old(SnapOf(w)).rs[this := Rec()] && SnapOf(w).ms == old(SnapOf(w)).ms
    {
      if |pairs| % 2 != 0 {
        err := Some(OddPairs);
        OwnedKept(w);
        return null;
      }
      AddPairs(pairs);
      OwnedKept(w);
      return this;
    }

    /** The loop of Queries. */
    method AddPairs(pairs: seq<string>)
      requires Holds(conf, value) && |pairs| % 2 == 0
      modifies this, conf.matchers.buf, conf.queries.buf
      ensures StorageKept() && Rec() == AddQueries(old(Rec()), pairs)
    {
      assert pairs[0..] == pairs;
      for i := 0 to |pairs| / 2
        invariant StorageKept()
        invariant AddQueries(old(Rec()), pairs) == AddQueries(Rec(), pairs[2 * i..])
      {
        assert pairs[2 * i..][2..] == pairs[2 * (i + 1)..];
        SetRegexp(pairs[2 * i] + "=" + pairs[2 * i + 1], QueryType);
        if err.Some? {
          QueriesAfterError(Rec(), pairs[2 * (i + 1)..]);
          return;
        }
      }
    }

    /** A controller is set only on a route without an error. */
    method Control(ctrl: Controller, ghost w: World) returns (r: Route)
      requires this in w.routes && Owned(w)
      modifies this
      ensures Owned(w) && StorageKept()
      ensures r == this && SnapOf(w) == Apply(old(SnapOf(w)), Op.Control(this, ctrl))
    {
      if err == None {
        controller := Some(ctrl);
      }
      OwnedKept(w);
      r := this;
    }

    /** A router with a copy of this route's configuration, which becomes this route's last matcher. */
    method Subrouter(ghost w: World) returns (router: Multiplexer)
      requires this in w.routes && Owned(w)
      modifies this, conf.matchers.buf
      ensures Owned(w.(muxes := w.muxes + {router})) && StorageKept()
      ensures fresh(router) && fresh(router.conf.matchers.buf) && fresh(router.conf.queries.buf)
      ensures SnapOf(w.(muxes := w.muxes + {router})) == Apply(old(SnapOf(w)), Op.Subrouter(this, router))
    {
      router := MakeSubrouter();
      OwnedKept(w);
      MuxJoins(w, router);
    }

    method MakeSubrouter() returns (router: Multiplexer)
      requires Holds(conf, value)
      modifies this, conf.matchers.buf
      ensures fresh(router) && router.Rec() == MuxRec([], old(value), old(floor), Middle(old(floor), rank))
      ensures Holds(router.conf, router.value) && OwnStorage(router.conf, conf)
      ensures fresh(router.conf.matchers.buf) && fresh(router.conf.queries.buf)
      ensures StorageKept()
      ensures Rec() == old(Rec()).(conf := WithMatcher(old(value), SubMatcher(router)),
                                   floor := Middle(old(floor), rank))
    {
      var copy := CopyRouteConf(conf);
      router := new Multiplexer(copy, value, floor, Middle(floor, rank));
      conf := ConfCopy.AddMatcher(conf, SubMatcher(router));
      value := ValueOf(conf);
      floor := Middle(floor, rank);
    }

    /** Runs the matchers over the shared match; once they all match, the route records itself there. */
    method Match(req: Request, match_: RouteMatch, ghost w: World) returns (matched: bool)
      requires Truthful(w) && Graph(SnapOf(w)) && this in w.routes
      modifies match_
      ensures Truthful(w) && SnapOf(w) == old(SnapOf(w))
      ensures Outcome(matched, match_.State()) == MatchNode(RouteTree(SnapOf(w), this), req, old(match_.State()))
      decreases UpTo(SnapOf(w), rank), 1, 1
    {
      ghost var tree := RouteTree(SnapOf(w), this);
      if err.Some? {
        return false;
      }
      matched := MatchAll(req, match_, w);
      if matched {
        RecordAmong(req, match_, tree, w);
      }
    }

    /** The loop of Match over the matchers, in order. */
    method MatchAll(req: Request, match_: RouteMatch, ghost w: World) returns (matched: bool)
      requires Truthful(w) && Graph(SnapOf(w)) && this in w.routes
      modifies match_
      ensures Truthful(w) && SnapOf(w) == old(SnapOf(w))
      ensures Outcome(matched, match_.State()) ==
              MatchTests(RouteTree(SnapOf(w), this).tests, req, old(match_.State()))
      decreases UpTo(SnapOf(w), rank), 1, 0
    {
      ghost var s := SnapOf(w);
      ghost var goal := MatchTests(RouteTree(s, this).tests, req, match_.State());
      FloorSmaller(s, this);
      ghost var matchers := value.matchers;
      assert matchers[0..] == matchers;
      for i := 0 to conf.matchers.len
        invariant Truthful(w) && SnapOf(w) == s && matchers == value.matchers
        invariant SubsBelow(s, matchers[i..], floor)
        invariant goal == MatchTests(TestTrees(s, matchers[i..], floor), req, match_.State())
      {
        ghost var rest := matchers[i..];
        assert rest[1..] == matchers[i + 1..];
        TestStep(s, rest, floor, req, match_.State());
        matched := MatchOne(i, req, match_, w);
        if !matched {
          return;
        }
      }
      return true;
    }

    /** The matcher at `i` is an expression or a router. */
    method MatchOne(i: nat, req: Request, match_: RouteMatch, ghost w: World) returns (matched: bool)
      requires Truthful(w) && Graph(SnapOf(w)) && this in w.routes && i < conf.matchers.len
      modifies match_
      ensures Truthful(w) && SnapOf(w) == old(SnapOf(w))
      ensures i < |value.matchers| && Resolves(SnapOf(w), value.matchers[i])
      ensures Outcome(matched, match_.State()) == OneOutcome(SnapOf(w), value.matchers[i], req, old(match_.State()))
      decreases UpTo(SnapOf(w), rank), 0
    {
      ghost var s := SnapOf(w);
      FloorSmaller(s, this);
      assert conf.matchers.buf[i] == value.matchers[i];
      match conf.matchers.buf[i] {
        case RegexpMatcher(rr) =>
          matched := Matching.Match(rr, req);
        case SubMatcher(mux) =>
          BelowSmaller(s, mux, floor);
          matched := mux.Match(req, match_, w);
      }
    }

    method RecordAmong(req: Request, match_: RouteMatch, ghost tree: Node<Route>, ghost w: World)
      requires Truthful(w) && this in w.routes
      requires tree.id == this && tree.controller == controller && tree.group == value.group
      modifies match_
      ensures Truthful(w) && SnapOf(w) == old(SnapOf(w))
      ensures match_.State() == Record(tree, req, old(match_.State()))
    {
      RecordMatch(req, match_, tree);
      AllKept(w);
    }

    /** Fills in what the shared match still lacks, and sets this route's variables. */
    method RecordMatch(req: Request, match_: RouteMatch, ghost tree: Node<Route>)
      requires Holds(conf, value)
      requires tree.id == this && tree.controller == controller && tree.group == value.group
      modifies match_
      ensures match_.State() == Record(tree, req, old(match_.State()))
    {
      if match_.route == null {
        match_.route := this;
      }
      if match_.controller.None? {
        match_.controller := controller;
      }
      if match_.vars.None? {
        match_.vars := Some(map[]);
      }
      var vars := SetMatch(GroupOf(conf), req, match_.vars.value);
      match_.vars := Some(vars);
    }
  }

  class Multiplexer {
    var routes: seq<Route>
    const conf: Conf<Multiplexer>
    ghost const value: RouteConf<Multiplexer>
    ghost const floor: real
    ghost const rank: real

    constructor (conf: Conf<Multiplexer>, ghost value: RouteConf<Multiplexer>, ghost floor: real, ghost rank: real)
      ensures this.conf == conf && Rec() == MuxRec([], value, floor, rank)
    {
      routes, this.value := [], value;
      this.conf, this.floor, this.rank := conf, floor, rank;
    }

    ghost function Rec(): MuxRec<Route, Multiplexer>
      reads this
    {
      MuxRec(routes, value, floor, rank)
    }

    /** Only the list of this router's routes has changed. */
    twostate lemma ListChanged(w: World)
      requires old(Owned(w)) && this in w.muxes
      requires forall r :: r in w.routes ==>
                 unchanged(r) && unchanged(r.conf.matchers.buf) && unchanged(r.conf.queries.buf)
      requires forall m :: m in w.muxes ==>
                 (m != this ==> unchanged(m)) && unchanged(m.conf.matchers.buf) && unchanged(m.conf.queries.buf)
      ensures Owned(w) && SnapOf(w) == old(SnapOf(w)).(ms := old(SnapOf(w)).ms[this := Rec()])
    {
      assert forall r :: r in w.routes ==> old(Holds(r.conf, r.value));
      assert forall m :: m in w.muxes ==> old(Holds(m.conf, m.value));
      assert SnapOf(w).ms == old(SnapOf(w)).ms[this := Rec()];
    }

    /** An empty route with a copy of this router's configuration, last in registration order. */
    method NewRoute(ghost w: World) returns (route: Route)
      requires this in w.muxes && Owned(w)
      modifies this
      ensures Owned(w.(routes := w.routes + {route}))
      ensures fresh(route) && fresh(route.conf.matchers.buf) && fresh(route.conf.queries.buf)
      ensures SnapOf(w.(routes := w.routes + {route})) == Apply(old(SnapOf(w)), Op.NewRoute(this, route))
    {
      var copy := CopyRouteConf(conf);
      route := new Route(copy, value, floor, Middle(floor, rank));
      routes := routes + [route];
      ListChanged(w);
      RouteJoins(w, route);
    }

    /** The first route that matches decides. */
    method Match(req: Request, match_: RouteMatch, ghost w: World) returns (matched: bool)
      requires Truthful(w) && Graph(SnapOf(w)) && this in w.muxes
      modifies match_
      ensures Truthful(w) && SnapOf(w) == old(SnapOf(w))
      ensures Outcome(matched, match_.State()) == MatchRoutes(MuxTree(SnapOf(w), this), req, old(match_.State()))
      decreases Below(SnapOf(w), rank), 2
    {
      ghost var s := SnapOf(w);
      ghost var goal := MatchRoutes(MuxTree(s, this), req, match_.State());
      assert routes[0..] == routes;
      for i := 0 to |routes|
        invariant Truthful(w) && SnapOf(w) == s
        invariant RoutesBelow(s, routes[i..], rank)
        invariant goal == MatchRoutes(RouteTrees(s, routes[i..], rank), req, match_.State())
      {
        ghost var rest := routes[i..];
        assert rest[1..] == routes[i + 1..];
        RouteStep(s, rest, rank, req, match_.State());
        var ok := routes[i].Match(req, match_, w);
        if ok {
          return true;
        }
      }
      return false;
    }
  }

  predicate Resolves<R, M>(s: Snap<R, M>, m: Matcher<M>)
  {
    m.SubMatcher? ==> m.mux in s.ms
  }

  ghost function OneOutcome<R, M>(s: Snap<R, M>, matcher: Matcher<M>, req: Request, m: MatchState<R>): Outcome<R>
    requires Graph(s) && Resolves(s, matcher)
  {
    match matcher
    case RegexpMatcher(rr) => Outcome(Accepts(rr, req), m)
    case SubMatcher(mux) => MatchRoutes(MuxTree(s, mux), req, m)
  }

  /** The first matcher decides, or the others do in the state it leaves. */
  lemma TestStep<R, M>(s: Snap<R, M>, ms: seq<Matcher<M>>, x: real, req: Request, m: MatchState<R>)
    requires Graph(s) && SubsBelow(s, ms, x) && ms != []
    ensures MatchTests(TestTrees(s, ms, x), req, m) ==
            var o := OneOutcome(s, ms[0], req, m);
            if o.matched then MatchTests(TestTrees(s, ms[1..], x), req, o.state) else o
    ensures SubsBelow(s, ms[1..], x)
  {
    var tests := TestTrees(s, ms, x);
    assert tests[1..] == TestTrees(s, ms[1..], x);
  }

  /** The first route decides if it matches, or the others do in the state it leaves. */
  lemma RouteStep<R, M>(s: Snap<R, M>, rs: seq<R>, x: real, req: Request, m: MatchState<R>)
    requires Graph(s) && RoutesBelow(s, rs, x) && rs != []
    ensures RoutesBelow(s, rs[1..], x) && UpTo(s, s.rs[rs[0]].rank) <= Below(s, x)
    ensures MatchRoutes(RouteTrees(s, rs, x), req, m) ==
            var o := MatchNode(RouteTree(s, rs[0]), req, m);
            if o.matched then o else MatchRoutes(RouteTrees(s, rs[1..], x), req, o.state)
  {
    UpToWithin(s, rs[0], x);
    var trees := RouteTrees(s, rs, x);
    assert trees[1..] == RouteTrees(s, rs[1..], x);
  }

  /** uniqueVars */
  method CheckUnique(s1: seq<string>, s2: seq<string>) returns (r: bool)
    ensures r <==> UniqueVars(s1, s2)
  {
    for i := 0 to |s1|
      invariant forall k, j :: 0 <= k < i && 0 <= j < |s2| ==> s1[k] != s2[j]
    {
      for j := 0 to |s2|
        invariant forall l :: 0 <= l < j ==> s1[i] != s2[l]
      {
        if s1[i] == s2[j] {
          return false;
        }
      }
    }
    return true;
  }
}
