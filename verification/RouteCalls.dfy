/**
 What the single calls of the builder do to a route (addRegexpMatcher of route.go): when a host or a
 query is refused, and which of the expressions a route tests it also takes its variables from.
 */
module RouteCalls {
  import opened Wrappers
  import opened Regexp
  import opened Matching
  import opened RouteGraph
  import opened RouteForest

  // ---------------------------------------------------------------- refusals

  /** None of the names belongs to the other expression or to a query. */
  predicate NamesFree(other: Option<RouteRegexp>, queries: seq<RouteRegexp>, names: seq<string>)
  {
    && (other.Some? ==> forall x :: x in names ==> x !in Names(other.value.segs))
    && (forall k, x :: 0 <= k < |queries| && x in names ==> x !in Names(queries[k].segs))
  }

  lemma UniqueIff(a: seq<string>, b: seq<string>)
    ensures UniqueVars(a, b) <==> forall x :: x in a ==> x !in b
  {
    if forall x :: x in a ==> x !in b {
      forall i, j | 0 <= i < |a| && 0 <= j < |b| ensures a[i] != b[j] {
        assert a[i] in a && b[j] in b;
      }
    }
  }

  lemma ClashesIff(g: RegexpGroup, rr: RouteRegexp, typ: RegexpType)
    ensures Clashes(g, rr, typ) <==> !NamesFree(if typ == HostType then g.path else g.host, g.queries, Names(rr.segs))
  {
    var other := if typ == HostType then g.path else g.host;
    if other.Some? {
      UniqueIff(VarsN(rr), VarsN(other.value));
    }
    forall k | 0 <= k < |g.queries|
      ensures UniqueVars(VarsN(rr), VarsN(g.queries[k])) <==>
              forall x :: x in Names(rr.segs) ==> x !in Names(g.queries[k].segs)
    {
      UniqueIff(VarsN(rr), VarsN(g.queries[k]));
    }
  }

  /** What is wrong with a template: its own text, or names in it that the others have. */
  function TemplateError(c: Result<RouteRegexp, CompileError>, other: Option<RouteRegexp>, queries: seq<RouteRegexp>)
    : Option<RouteError>
  {
    match c
    case Err(e) => Some(BadTemplate(e))
    case Ok(rr) => if NamesFree(other, queries, Names(rr.segs)) then None else Some(DuplicateVariable)
  }

  /** A host is refused exactly if its template is wrong or shares a name with the path or a query. */
  lemma HostAdded<M>(rec: RouteRec<M>, tpl: string)
    requires rec.err.None?
    ensures var (g, c, added) := (rec.conf.group, Compiled(tpl, HostType), AddRegexp(rec, tpl, HostType));
            && added.err == TemplateError(c, g.path, g.queries)
            && added.conf == if added.err.Some? then rec.conf
                             else RouteConf(rec.conf.matchers + [RegexpMatcher(c.value)], g.(host := Some(c.value)))
  {
    if Compiled(tpl, HostType).Ok? {
      ClashesIff(rec.conf.group, Compiled(tpl, HostType).value, HostType);
    }
  }

  /** A query is refused exactly if its template is wrong or shares a name with the host or another query. */
  lemma QueryAdded<M>(rec: RouteRec<M>, tpl: string)
    requires rec.err.None? && '=' in tpl
    ensures var (g, c, added) := (rec.conf.group, Compiled(tpl, QueryType), AddRegexp(rec, tpl, QueryType));
            && added.err == TemplateError(c, g.host, g.queries)
            && added.conf == if added.err.Some? then rec.conf
                             else RouteConf(rec.conf.matchers + [RegexpMatcher(c.value)],
                                            g.(queries := g.queries + [c.value]))
  {
    if Compiled(tpl, QueryType).Ok? {
      ClashesIff(rec.conf.group, Compiled(tpl, QueryType).value, QueryType);
    }
  }

  // ---------------------------------------------------------------- the expressions that give variables

  /** The last host expression, or the last path or prefix expression. */
  function LastOf(es: seq<RouteRegexp>, host: bool): Option<RouteRegexp>
  {
    if es == [] then None
    else
      var e := es[|es| - 1];
      if e.typ != QueryType && (e.typ == HostType) == host then Some(e) else LastOf(es[..|es| - 1], host)
  }

  function QueriesOf(es: seq<RouteRegexp>): seq<RouteRegexp>
  {
    if es == [] then []
    else QueriesOf(es[..|es| - 1]) + if es[|es| - 1].typ == QueryType then [es[|es| - 1]] else []
  }

  /**
   Of the expressions it tests, a route takes its variables from the last host, from the last path
   or prefix, and from every query, in order.
   */
  predicate GroupFollows<M>(c: RouteConf<M>)
  {
    var es := Regexps(c.matchers);
    c.group == RegexpGroup(LastOf(es, true), LastOf(es, false), QueriesOf(es))
  }

  ghost predicate AllFollow<R, M>(s: Snap<R, M>)
  {
    && (forall r :: r in s.rs ==> GroupFollows(s.rs[r].conf))
    && (forall m :: m in s.ms ==> GroupFollows(s.ms[m].conf))
  }

  lemma RegexpsOfMore<M>(ms: seq<Matcher<M>>, m: Matcher<M>)
    ensures Regexps(ms + [m]) == Regexps(ms) + match m case RegexpMatcher(rr) => [rr] case SubMatcher(_) => []
  {
    assert (ms + [m])[..|ms|] == ms;
  }

  function WithExpr<M>(c: RouteConf<M>, rr: RouteRegexp): RouteConf<M>
  {
    RouteConf(c.matchers + [RegexpMatcher(rr)], Extended(c.group, rr, rr.typ))
  }

  lemma ExtendedFollows<M>(c: RouteConf<M>, rr: RouteRegexp)
    requires GroupFollows(c)
    ensures GroupFollows(WithExpr(c, rr))
  {
    var es := Regexps(c.matchers);
    RegexpsOfMore(c.matchers, RegexpMatcher(rr));
    assert (es + [rr])[..|es|] == es;
    assert QueriesOf(es) + [] == QueriesOf(es);
  }

  /** A call leaves the configuration as it is or adds one expression of its type. */
  lemma AddedTo<M>(rec: RouteRec<M>, path: string, typ: RegexpType) returns (rr: Option<RouteRegexp>)
    requires typ == QueryType ==> '=' in path
    ensures AddRegexp(rec, path, typ).conf == if rr.None? then rec.conf else WithExpr(rec.conf, rr.value)
    ensures rr.Some? ==> rr.value.typ == typ
  {
    if rec.err.None? && WithRegexp(rec.conf, path, typ).Ok? {
      var tpl := FullTemplate(rec.conf.group, path, typ);
      CompiledType(tpl, typ);
      rr := Some(Compiled(tpl, typ).value);
    } else {
      rr := None;
    }
  }

  lemma AddFollows<M>(rec: RouteRec<M>, path: string, typ: RegexpType)
    requires (typ == QueryType ==> '=' in path) && GroupFollows(rec.conf)
    ensures GroupFollows(AddRegexp(rec, path, typ).conf)
  {
    var rr := AddedTo(rec, path, typ);
    if rr.Some? {
      ExtendedFollows(rec.conf, rr.value);
    }
  }

  lemma CompiledType(tpl: string, typ: RegexpType)
    requires typ == QueryType ==> '=' in tpl
    ensures Compiled(tpl, typ).Ok? ==> Compiled(tpl, typ).value.typ == typ
  {
  }

  /** Every run of builder calls keeps it so. */
  lemma {:induction false} RunFollows<R, M>(s: Snap<R, M>, ops: seq<Op<R, M>>)
    requires AllFollow(s) && RunOk(s, ops)
    ensures AllFollow(Run(s, ops))
    decreases |ops|
  {
    if ops != [] {
      var op := ops[0];
      if op.AddMatcher? {
        AddFollows(s.rs[op.route], op.path, op.typ);
      } else if op.Subrouter? {
        var ms := s.rs[op.route].conf.matchers;
        RegexpsOfMore(ms, SubMatcher(op.mux));
        assert Regexps(ms) + [] == Regexps(ms);
      }
      RunFollows(Apply(s, op), ops[1..]);
    }
  }

  lemma FollowsAfterAnyRun<R, M>(root: M, ops: seq<Op<R, M>>, r: R)
    requires RunOk(Start<R, M>(root), ops) && r in Run(Start<R, M>(root), ops).rs
    ensures GroupFollows(Run(Start<R, M>(root), ops).rs[r].conf)
  {
    RunFollows(Start<R, M>(root), ops);
  }
}
