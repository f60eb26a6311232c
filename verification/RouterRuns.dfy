/**
 Runs of builder calls on the objects of route.go and mux_route.go. Whatever is called in whatever
 order, no two objects ever share the storage of a slice, and the objects hold what `RouteForest`
 says of the run.
 */
module RouterRuns {
  import opened Regexp
  import opened RouteMatching
  import opened RouteGraph
  import opened ConfCopy
  import opened RouteForest
  import opened Router

  /** A builder call; objects are numbered in the order of their creation, from the root router on. */
  datatype Call =
    | NewRoute(mux: nat) | Subrouter(route: nat)
    | Path(route: nat, tpl: string) | PathPrefix(route: nat, tpl: string) | Host(route: nat, tpl: string)
    | Query(route: nat, key: string, value: string) | Control(route: nat, ctrl: Controller)

  predicate Possible(c: Call, routes: nat, muxes: nat)
  {
    if c.NewRoute? then c.mux < muxes else c.route < routes
  }

  predicate AllPossible(calls: seq<Call>, routes: nat, muxes: nat)
    decreases |calls|
  {
    calls == [] ||
    (Possible(calls[0], routes, muxes) &&
     AllPossible(calls[1..], routes + (if calls[0].NewRoute? then 1 else 0),
                             muxes + (if calls[0].Subrouter? then 1 else 0)))
  }

  /** The call in terms of the objects, of which it creates the last. */
  function OpOf(c: Call, routes: seq<Route>, muxes: seq<Multiplexer>): Op<Route, Multiplexer>
    requires Possible(c, |routes|, |muxes|) && (c.NewRoute? ==> routes != []) && (c.Subrouter? ==> muxes != [])
  {
    match c
    case NewRoute(m) => Op.NewRoute(muxes[m], routes[|routes| - 1])
    case Subrouter(r) => Op.Subrouter(routes[r], muxes[|muxes| - 1])
    case _ => RouteOp(c, routes[c.route])
  }

  function RouteOp(c: Call, r: Route): (op: Op<Route, Multiplexer>)
    requires !c.NewRoute? && !c.Subrouter?
    ensures op.AddMatcher? || op.Control?
    ensures op.route == r && (op.AddMatcher? && op.typ == QueryType ==> '=' in op.path)
  {
    match c
    case Path(_, tpl) => Op.AddMatcher(r, tpl, PathType)
    case PathPrefix(_, tpl) => Op.AddMatcher(r, tpl, PrefixType)
    case Host(_, tpl) => Op.AddMatcher(r, tpl, HostType)
    case Query(_, k, v) => Op.AddMatcher(r, k + "=" + v, QueryType)
    case Control(_, ctrl) => Op.Control(r, ctrl)
  }

  predicate Covers(w: World, routes: seq<Route>, muxes: seq<Multiplexer>)
  {
    (forall r :: r in routes ==> r in w.routes) && (forall m :: m in muxes ==> m in w.muxes)
  }

  /** The objects are those of the first world or new, and so is their storage. */
  twostate predicate Grown(w: World, new w2: World)
    reads w2.routes, w2.muxes
  {
    && (forall r :: r in w2.routes ==> fresh(r) || r in w.routes)
    && (forall m :: m in w2.muxes ==> fresh(m) || m in w.muxes)
    && (forall r :: r in w2.routes ==> fresh(r.conf.matchers.buf) || r.conf.matchers.buf in old(Storage(w)))
    && (forall r :: r in w2.routes ==> fresh(r.conf.queries.buf) || r.conf.queries.buf in old(Storage(w)))
    && (forall m :: m in w2.muxes ==> fresh(m.conf.matchers.buf) || m.conf.matchers.buf in old(Storage(w)))
    && (forall m :: m in w2.muxes ==> fresh(m.conf.queries.buf) || m.conf.queries.buf in old(Storage(w)))
  }

  /** The calls that only change a route. */
  method CallRoute(c: Call, r: Route, ghost w: World)
    requires Owned(w) && r in w.routes && !c.NewRoute? && !c.Subrouter?
    modifies r, r.conf.matchers.buf, r.conf.queries.buf
    ensures Owned(w) && r.StorageKept() && SnapOf(w) == Apply(old(SnapOf(w)), RouteOp(c, r))
  {
    match c {
      case Path(_, tpl) =>
        var _ := r.Path(tpl, w);
      case PathPrefix(_, tpl) =>
        var _ := r.PathPrefix(tpl, w);
      case Host(_, tpl) =>
        var _ := r.Host(tpl, w);
      case Query(_, k, v) =>
        CallQuery(k, v, r, w);
      case Control(_, ctrl) =>
        var _ := r.Control(ctrl, w);
    }
  }

  method CallQuery(k: string, v: string, r: Route, ghost w: World)
    requires Owned(w) && r in w.routes
    modifies r, r.conf.matchers.buf, r.conf.queries.buf
    ensures Owned(w) && r.StorageKept()
    ensures SnapOf(w) == Apply(old(SnapOf(w)), Op.AddMatcher(r, k + "=" + v, QueryType))
  {
    ghost var s, rec := SnapOf(w), r.Rec();
    var pairs := [k, v];
    var _ := r.Queries(pairs, w);
    assert pairs[2..] == [] && AddQueries(rec, pairs) == AddRegexp(rec, k + "=" + v, QueryType);
    assert SnapOf(w) == s.(rs := s.rs[r := r.Rec()]);
  }

  /** One route has changed, and only in its own storage. */
  twostate lemma GrownByRoute(change: (World, Route))
    requires old(Owned(change.0)) && change.1 in change.0.routes && change.1.StorageKept()
    requires forall q :: q in change.0.routes && q != change.1 ==> q.conf == old(q.conf)
    ensures Grown(change.0, change.0)
  {
  }

  /** No configuration has moved. */
  twostate lemma GrownByNone(w: World)
    requires old(Owned(w)) && forall r :: r in w.routes ==> r.conf == old(r.conf)
    ensures Grown(w, w)
  {
  }

  /** New objects with new storage have joined. */
  twostate lemma GrownByNew(w: World, new w2: World)
    requires Grown(w, w) && w.routes <= w2.routes && w.muxes <= w2.muxes
    requires forall r :: r in w2.routes && r !in w.routes ==>
               fresh(r) && fresh(r.conf.matchers.buf) && fresh(r.conf.queries.buf)
    requires forall m :: m in w2.muxes && m !in w.muxes ==>
               fresh(m) && fresh(m.conf.matchers.buf) && fresh(m.conf.queries.buf)
    ensures Grown(w, w2)
  {
  }

  twostate lemma GrownBySubrouter(change: (World, Route), new m: Multiplexer)
    requires old(Owned(change.0)) && change.1 in change.0.routes && change.1.StorageKept()
    requires forall q :: q in change.0.routes && q != change.1 ==> q.conf == old(q.conf)
    requires fresh(m) && fresh(m.conf.matchers.buf) && fresh(m.conf.queries.buf)
    ensures Grown(change.0, change.0.(muxes := change.0.muxes + {m}))
  {
    GrownByRoute(change);
    GrownByNew(change.0, change.0.(muxes := change.0.muxes + {m}));
  }

  method CallInWorld(c: Call, r: Route, ghost w: World)
    requires Owned(w) && r in w.routes && !c.NewRoute? && !c.Subrouter?
    modifies r, r.conf.matchers.buf, r.conf.queries.buf
    ensures Owned(w) && Grown(w, w) && SnapOf(w) == Apply(old(SnapOf(w)), RouteOp(c, r))
  {
    CallRoute(c, r, w);
    GrownByRoute((w, r));
  }

  method CallNewRoute(m: Multiplexer, ghost w: World) returns (ghost w2: World, r: Route)
    requires Owned(w) && m in w.muxes
    modifies m
    ensures r !in w.routes && w2 == w.(routes := w.routes + {r}) && Owned(w2) && Grown(w, w2)
    ensures SnapOf(w2) == Apply(old(SnapOf(w)), Op.NewRoute(m, r))
  {
    r := m.NewRoute(w);
    w2 := w.(routes := w.routes + {r});
    GrownByNone(w);
    GrownByNew(w, w2);
  }

  method CallSubrouter(r: Route, ghost w: World) returns (ghost w2: World, m: Multiplexer)
    requires Owned(w) && r in w.routes
    modifies r, r.conf.matchers.buf
    ensures m !in w.muxes && w2 == w.(muxes := w.muxes + {m}) && Owned(w2) && Grown(w, w2)
    ensures SnapOf(w2) == Apply(old(SnapOf(w)), Op.Subrouter(r, m))
  {
    m := r.Subrouter(w);
    w2 := w.(muxes := w.muxes + {m});
    GrownBySubrouter((w, r), m);
  }

  method CallOne(c: Call, ghost w: World, routes: seq<Route>, muxes: seq<Multiplexer>)
    returns (ghost w2: World, routes2: seq<Route>, muxes2: seq<Multiplexer>)
    requires Owned(w) && Covers(w, routes, muxes) && Possible(c, |routes|, |muxes|)
    modifies w.routes, w.muxes, Storage(w)
    ensures Owned(w2) && Covers(w2, routes2, muxes2) && Grown(w, w2)
    ensures |routes2| == |routes| + (if c.NewRoute? then 1 else 0)
    ensures |muxes2| == |muxes| + (if c.Subrouter? then 1 else 0)
    ensures routes <= routes2 && muxes <= muxes2
    ensures Applicable(old(SnapOf(w)), OpOf(c, routes2, muxes2))
    ensures SnapOf(w2) == Apply(old(SnapOf(w)), OpOf(c, routes2, muxes2))
  {
    w2, routes2, muxes2 := w, routes, muxes;
    if c.NewRoute? {
      var r;
      w2, r := CallNewRoute(muxes[c.mux], w);
      routes2 := routes + [r];
      assert OpOf(c, routes2, muxes2) == Op.NewRoute(muxes[c.mux], r);
    } else if c.Subrouter? {
      var m;
      w2, m := CallSubrouter(routes[c.route], w);
      muxes2 := muxes + [m];
      assert OpOf(c, routes2, muxes2) == Op.Subrouter(routes[c.route], m);
    } else {
      CallInWorld(c, routes[c.route], w);
    }
  }

  /** The call was made on the object of its number. */
  predicate Means(c: Call, op: Op<Route, Multiplexer>, routes: seq<Route>, muxes: seq<Multiplexer>)
  {
    && Possible(c, |routes|, |muxes|)
    && match c
       case NewRoute(m) => op.NewRoute? && op.mux == muxes[m] && op.route in routes
       case Subrouter(r) => op.Subrouter? && op.route == routes[r] && op.mux in muxes
       case _ => op == RouteOp(c, routes[c.route])
  }

  predicate AllMean(calls: seq<Call>, ops: seq<Op<Route, Multiplexer>>, routes: seq<Route>, muxes: seq<Multiplexer>)
  {
    |ops| == |calls| && forall k :: 0 <= k < |calls| ==> Means(calls[k], ops[k], routes, muxes)
  }

  lemma FirstMeans(calls: seq<Call>, ops: seq<Op<Route, Multiplexer>>, routes: seq<Route>, muxes: seq<Multiplexer>,
                   laterRoutes: seq<Route>, laterMuxes: seq<Multiplexer>)
    requires calls != [] && routes <= laterRoutes && muxes <= laterMuxes
    requires Possible(calls[0], |routes|, |muxes|)
    requires (calls[0].NewRoute? ==> routes != []) && (calls[0].Subrouter? ==> muxes != [])
    requires AllMean(calls[1..], ops, laterRoutes, laterMuxes)
    ensures AllMean(calls, [OpOf(calls[0], routes, muxes)] + ops, laterRoutes, laterMuxes)
  {
    var c, all := calls[0], [OpOf(calls[0], routes, muxes)] + ops;
    assert Means(c, all[0], laterRoutes, laterMuxes) by {
      if c.NewRoute? {
        assert laterRoutes[|routes| - 1] == routes[|routes| - 1] && laterMuxes[c.mux] == muxes[c.mux];
      } else if c.Subrouter? {
        assert laterMuxes[|muxes| - 1] == muxes[|muxes| - 1] && laterRoutes[c.route] == routes[c.route];
      } else {
        assert laterRoutes[c.route] == routes[c.route];
      }
    }
    assert forall k :: 1 <= k < |calls| ==> calls[k] == calls[1..][k - 1] && all[k] == ops[k - 1];
  }

  lemma PossibleTail(calls: seq<Call>, routes: nat, muxes: nat, routes1: nat, muxes1: nat)
    requires calls != [] && AllPossible(calls, routes, muxes)
    requires routes1 == routes + (if calls[0].NewRoute? then 1 else 0)
    requires muxes1 == muxes + (if calls[0].Subrouter? then 1 else 0)
    ensures AllPossible(calls[1..], routes1, muxes1)
  {
  }

  twostate lemma StorageGrown(w: World, new w2: World)
    requires Grown(w, w2)
    ensures forall b :: b in Storage(w2) ==> fresh(b) || b in old(Storage(w))
  {
  }

  /** Any calls on objects that own their storage: afterwards they do, and hold what the run says. */
  method CallAll(calls: seq<Call>, ghost w: World, routes: seq<Route>, muxes: seq<Multiplexer>)
    returns (ghost w2: World, routes2: seq<Route>, muxes2: seq<Multiplexer>, ghost ops: seq<Op<Route, Multiplexer>>)
    requires Owned(w) && Covers(w, routes, muxes) && AllPossible(calls, |routes|, |muxes|)
    modifies w.routes, w.muxes, Storage(w)
    ensures Owned(w2) && Covers(w2, routes2, muxes2) && routes <= routes2 && muxes <= muxes2
    ensures RunOk(old(SnapOf(w)), ops) && SnapOf(w2) == Run(old(SnapOf(w)), ops)
    ensures AllMean(calls, ops, routes2, muxes2)
    decreases |calls|
  {
    if calls == [] {
      return w, routes, muxes, [];
    }
    ghost var w1, rest;
    var routes1, muxes1;
    w1, routes1, muxes1 := CallOne(calls[0], w, routes, muxes);
    ghost var op := OpOf(calls[0], routes1, muxes1);
    PossibleTail(calls, |routes|, |muxes|, |routes1|, |muxes1|);
    StorageGrown(w, w1);
    w2, routes2, muxes2, rest := CallAll(calls[1..], w1, routes1, muxes1);
    RunStep(old(SnapOf(w)), op, rest);
    FirstMeans(calls, rest, routes1, muxes1, routes2, muxes2);
    ops := [op] + rest;
  }

  /** Any calls from a fresh router on. */
  method Build(calls: seq<Call>)
    returns (ghost w: World, routes: seq<Route>, muxes: seq<Multiplexer>, ghost ops: seq<Op<Route, Multiplexer>>)
    requires AllPossible(calls, 0, 1)
    ensures Owned(w) && Covers(w, routes, muxes) && muxes != [] && AllMean(calls, ops, routes, muxes)
    ensures RunOk(Start<Route, Multiplexer>(muxes[0]), ops)
    ensures SnapOf(w) == Run(Start<Route, Multiplexer>(muxes[0]), ops)
  {
    var conf := EmptySlices<Multiplexer>();
    var root := new Multiplexer(conf, EmptyConf(), 0.0, 1.0);
    w := World({}, {root});
    assert SnapOf(w) == Start(root);
    w, routes, muxes, ops := CallAll(calls, w, [], [root]);
  }
}
