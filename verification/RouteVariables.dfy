/**
 The variables a matched route leaves (setMatch of regexp.go) when host, path and queries name
 some. The builder compares the names of a new expression with most others, but those of a new
 query not with the path's (addRegexpMatcher of route.go), so a query can replace a path variable.
 */
module RouteVariables {
  import opened Wrappers
  import opened Text
  import opened Utf8
  import opened Query
  import opened Regexp
  import opened Matching
  import opened RouteGraph
  import opened RouteForest

  /** The expressions of a route in the order in which their variables are stored. */
  function Exprs(g: RegexpGroup): seq<RouteRegexp>
  {
    (if g.host.Some? then [g.host.value] else []) + (if g.path.Some? then [g.path.value] else []) + g.queries
  }

  function Get(vars: Vars, x: string): Option<string>
  {
    if x in vars then Some(vars[x]) else None
  }

  /** The value that a matching expression gives the variable. */
  function Binds(rr: RouteRegexp, req: Request, x: string): Option<string>
  {
    Get(VarsOf(rr, req, map[]), x)
  }

  lemma {:induction false} SetVarsAt(names: seq<string>, vals: seq<string>, vars: Vars, x: string)
    requires |names| == |vals|
    ensures var own := Get(SetVars(names, vals, map[]), x);
            && Get(SetVars(names, vals, vars), x) == (if own.Some? then own else Get(vars, x))
            && (own.Some? ==> x in names)
  {
    if names != [] {
      SetVarsAt(names[1..], vals[1..], vars[names[0] := vals[0]], x);
      SetVarsAt(names[1..], vals[1..], map[][names[0] := vals[0]], x);
    }
  }

  lemma VarsOfAt(rr: RouteRegexp, req: Request, vars: Vars, x: string)
    ensures Get(VarsOf(rr, req, vars), x) == if Binds(rr, req, x).Some? then Binds(rr, req, x) else Get(vars, x)
    ensures Binds(rr, req, x).Some? ==> x in VarsN(rr)
  {
    ExtractSound(rr, rr.segs, Subject(rr, req));
    if Submatches(rr, Subject(rr, req)).Some? {
      SetVarsAt(Names(rr.segs), Submatches(rr, Subject(rr, req)).value, vars, x);
    }
  }

  lemma ExprsInOrder(g: RegexpGroup, req: Request, vars: Vars)
    ensures MatchVars(g, req, vars) == QueryVars(Exprs(g), req, vars)
  {
    var v1 := if g.host.Some? then VarsOf(g.host.value, req, vars) else vars;
    var behind := (if g.path.Some? then [g.path.value] else []) + g.queries;
    assert g.path.Some? ==> behind[0] == g.path.value && behind[1..] == g.queries;
    assert g.path.None? ==> behind == g.queries;
    var all := Exprs(g);
    assert g.host.Some? ==> all[0] == g.host.value && all[1..] == behind;
    assert g.host.None? ==> all == behind;
    assert QueryVars(all, req, vars) == QueryVars(behind, req, v1);
  }

  // ---------------------------------------------------------------- the last one wins

  predicate NoneBinds(es: seq<RouteRegexp>, req: Request, x: string)
  {
    forall k :: 0 <= k < |es| ==> Binds(es[k], req, x).None?
  }

  /** The expression at `k` is the last to bind the variable. */
  predicate Decides(es: seq<RouteRegexp>, req: Request, x: string, k: nat)
  {
    k < |es| && Binds(es[k], req, x).Some? && NoneBinds(es[k + 1..], req, x)
  }

  lemma {:induction false} NoneBindsLeaves(es: seq<RouteRegexp>, req: Request, vars: Vars, x: string)
    requires NoneBinds(es, req, x)
    ensures Get(QueryVars(es, req, vars), x) == Get(vars, x)
    decreases |es|
  {
    if es != [] {
      assert Binds(es[0], req, x).None?;
      assert forall k :: 0 <= k < |es[1..]| ==> es[1..][k] == es[k + 1];
      VarsOfAt(es[0], req, vars, x);
      NoneBindsLeaves(es[1..], req, VarsOf(es[0], req, vars), x);
    }
  }

  lemma {:induction false} LastWins(es: seq<RouteRegexp>, req: Request, vars: Vars, x: string, k: nat)
    requires Decides(es, req, x, k)
    ensures Get(QueryVars(es, req, vars), x) == Binds(es[k], req, x)
    decreases k
  {
    if k == 0 {
      VarsOfAt(es[0], req, vars, x);
      NoneBindsLeaves(es[1..], req, VarsOf(es[0], req, vars), x);
    } else {
      assert es[1..][k - 1 + 1..] == es[k + 1..];
      LastWins(es[1..], req, VarsOf(es[0], req, vars), x, k - 1);
    }
  }

  lemma {:induction false} LastBinder(es: seq<RouteRegexp>, req: Request, x: string, k: nat) returns (l: nat)
    requires k < |es| && Binds(es[k], req, x).Some?
    ensures k <= l && Decides(es, req, x, l)
    decreases |es| - k
  {
    if NoneBinds(es[k + 1..], req, x) {
      l := k;
    } else {
      var j :| 0 <= j < |es[k + 1..]| && Binds(es[k + 1..][j], req, x).Some?;
      assert es[k + 1..][j] == es[k + 1 + j];
      l := LastBinder(es, req, x, k + 1 + j);
    }
  }

  /** A variable has the value of the last matching expression that names it, or the one it had. */
  lemma LastBindingWins(g: RegexpGroup, req: Request, vars: Vars, x: string)
    ensures forall k: nat :: Decides(Exprs(g), req, x, k) ==>
                              Get(MatchVars(g, req, vars), x) == Binds(Exprs(g)[k], req, x)
    ensures NoneBinds(Exprs(g), req, x) ==> Get(MatchVars(g, req, vars), x) == Get(vars, x)
  {
    var es := Exprs(g);
    ExprsInOrder(g, req, vars);
    forall k: nat | Decides(es, req, x, k) ensures Get(MatchVars(g, req, vars), x) == Binds(es[k], req, x) {
      LastWins(es, req, vars, x, k);
    }
    if NoneBinds(es, req, x) {
      NoneBindsLeaves(es, req, vars, x);
    }
  }

  // ---------------------------------------------------------------- when every value survives

  /** Every name that an expression binds ends up with that expression's value. */
  ghost predicate AllKept(g: RegexpGroup, req: Request, vars: Vars)
  {
    forall k, x :: 0 <= k < |Exprs(g)| && Binds(Exprs(g)[k], req, x).Some? ==>
      Get(MatchVars(g, req, vars), x) == Binds(Exprs(g)[k], req, x)
  }

  /** Expressions that bind the same name give it the same value. */
  ghost predicate Agree(a: RouteRegexp, b: RouteRegexp, req: Request)
  {
    forall x :: Binds(a, req, x).Some? && Binds(b, req, x).Some? ==> Binds(a, req, x) == Binds(b, req, x)
  }

  ghost predicate AllAgree(es: seq<RouteRegexp>, req: Request)
  {
    forall j, k :: 0 <= j < k < |es| ==> Agree(es[j], es[k], req)
  }

  lemma AllKeptIff(g: RegexpGroup, req: Request, vars: Vars)
    ensures AllKept(g, req, vars) <==> AllAgree(Exprs(g), req)
  {
    var es := Exprs(g);
    if AllAgree(es, req) {
      forall k, x | 0 <= k < |es| && Binds(es[k], req, x).Some?
        ensures Get(MatchVars(g, req, vars), x) == Binds(es[k], req, x)
      {
        var l := LastBinder(es, req, x, k);
        LastBindingWins(g, req, vars, x);
        assert l > k ==> Agree(es[k], es[l], req);
      }
    }
    if AllKept(g, req, vars) {
      forall j, k | 0 <= j < k < |es| ensures Agree(es[j], es[k], req) {
        forall x | Binds(es[j], req, x).Some? && Binds(es[k], req, x).Some?
          ensures Binds(es[j], req, x) == Binds(es[k], req, x)
        {
          assert Get(MatchVars(g, req, vars), x) == Binds(es[j], req, x);
        }
      }
    }
  }

  lemma ApartAgree(a: RouteRegexp, b: RouteRegexp, req: Request)
    requires UniqueVars(VarsN(a), VarsN(b)) || UniqueVars(VarsN(b), VarsN(a))
    ensures Agree(a, b, req)
  {
    forall x ensures !(Binds(a, req, x).Some? && Binds(b, req, x).Some?) {
      VarsOfAt(a, req, map[], x);
      VarsOfAt(b, req, map[], x);
    }
  }

  // ---------------------------------------------------------------- what the builder checks

  /** Host, path and queries share no names, except that the path may share some with the queries. */
  predicate NamesChecked(g: RegexpGroup)
  {
    && (g.host.Some? && g.path.Some? ==> UniqueVars(VarsN(g.host.value), VarsN(g.path.value)))
    && (g.host.Some? ==> UniqueInQueries(VarsN(g.host.value), g.queries))
    && (forall j, k :: 0 <= j < k < |g.queries| ==> UniqueVars(VarsN(g.queries[j]), VarsN(g.queries[k])))
  }

  lemma ExtendedIsChecked(g: RegexpGroup, rr: RouteRegexp, typ: RegexpType)
    requires NamesChecked(g) && !Clashes(g, rr, typ)
    ensures NamesChecked(Extended(g, rr, typ))
  {
    var h := Extended(g, rr, typ);
    forall j, k | 0 <= j < k < |h.queries| ensures UniqueVars(VarsN(h.queries[j]), VarsN(h.queries[k])) {
      if k == |g.queries| {
        assert UniqueVars(VarsN(rr), VarsN(g.queries[j]));
      }
    }
  }

  ghost predicate AllChecked<R, M>(s: Snap<R, M>)
  {
    && (forall r :: r in s.rs ==> NamesChecked(s.rs[r].conf.group))
    && (forall m :: m in s.ms ==> NamesChecked(s.ms[m].conf.group))
  }

  lemma AddRegexpIsChecked<M>(rec: RouteRec<M>, path: string, typ: RegexpType)
    requires (typ == QueryType ==> '=' in path) && NamesChecked(rec.conf.group)
    ensures NamesChecked(AddRegexp(rec, path, typ).conf.group)
  {
    if rec.err.None? && WithRegexp(rec.conf, path, typ).Ok? {
      ExtendedIsChecked(rec.conf.group, Compiled(FullTemplate(rec.conf.group, path, typ), typ).value, typ);
    }
  }

  lemma {:induction false} RunIsChecked<R, M>(s: Snap<R, M>, ops: seq<Op<R, M>>)
    requires AllChecked(s) && RunOk(s, ops)
    ensures AllChecked(Run(s, ops))
    decreases |ops|
  {
    if ops != [] {
      var op := ops[0];
      if op.AddMatcher? {
        AddRegexpIsChecked(s.rs[op.route], op.path, op.typ);
      }
      RunIsChecked(Apply(s, op), ops[1..]);
    }
  }

  /**
   After any run of builder calls a route leaves every name with the value of each expression
   that binds it if and only if its path and its queries agree on the names they share.
   */
  lemma KeptAfterAnyRun<R, M>(root: M, ops: seq<Op<R, M>>, r: R, req: Request, vars: Vars)
    requires RunOk(Start<R, M>(root), ops) && r in Run(Start<R, M>(root), ops).rs
    ensures var g := Run(Start<R, M>(root), ops).rs[r].conf.group;
            AllKept(g, req, vars) <==>
            (g.path.Some? ==> forall k :: 0 <= k < |g.queries| ==> Agree(g.path.value, g.queries[k], req))
  {
    RunIsChecked(Start<R, M>(root), ops);
    var g := Run(Start<R, M>(root), ops).rs[r].conf.group;
    AllKeptIff(g, req, vars);
    CheckedAgreeIff(g, req);
  }

  lemma CheckedAgreeIff(g: RegexpGroup, req: Request)
    requires NamesChecked(g)
    ensures AllAgree(Exprs(g), req) <==>
            (g.path.Some? ==> forall k :: 0 <= k < |g.queries| ==> Agree(g.path.value, g.queries[k], req))
  {
    if AllAgree(Exprs(g), req) {
      forall k | g.path.Some? && 0 <= k < |g.queries| ensures Agree(g.path.value, g.queries[k], req) {
        PathAndQuery(g, req, k);
      }
    }
    if g.path.Some? ==> forall k :: 0 <= k < |g.queries| ==> Agree(g.path.value, g.queries[k], req) {
      forall j, k | 0 <= j < k < |Exprs(g)| ensures Agree(Exprs(g)[j], Exprs(g)[k], req) {
        CheckedPair(g, req, j, k);
      }
    }
  }

  lemma PathAndQuery(g: RegexpGroup, req: Request, k: nat)
    requires AllAgree(Exprs(g), req) && g.path.Some? && k < |g.queries|
    ensures Agree(g.path.value, g.queries[k], req)
  {
    var es, n := Exprs(g), |Exprs(g)| - |g.queries|;
    assert es[n - 1] == g.path.value && es[n + k] == g.queries[k];
    assert Agree(es[n - 1], es[n + k], req);
  }

  lemma CheckedPair(g: RegexpGroup, req: Request, j: nat, k: nat)
    requires NamesChecked(g) && j < k < |Exprs(g)|
    requires g.path.Some? ==> forall i :: 0 <= i < |g.queries| ==> Agree(g.path.value, g.queries[i], req)
    ensures Agree(Exprs(g)[j], Exprs(g)[k], req)
  {
    var es, n := Exprs(g), |Exprs(g)| - |g.queries|;
    if j >= n {
      assert UniqueVars(VarsN(g.queries[j - n]), VarsN(g.queries[k - n]));
      ApartAgree(es[j], es[k], req);
    } else if g.host.Some? && j == 0 {
      assert k >= n ==> es[k] == g.queries[k - n];
      ApartAgree(es[j], es[k], req);
    } else {
      assert es[k] == g.queries[k - n];
    }
  }

  // ---------------------------------------------------------------- a query that replaces a path variable

  predicate PlainKey(key: string)
  {
    BraceFree(key) && '=' !in key && forall k :: 0 <= k < |key| ==> key[k] as int < 0x80
  }

  /** A literal and one variable. */
  function OneVariable(raw: string, name: string): string
  {
    raw + ['{'] + name + ['}']
  }

  lemma OneVariableCompiles(raw: string, name: string, typ: RegexpType)
    requires PlainName(name) && BraceFree(raw) && forall k :: 0 <= k < |raw| ==> raw[k] as int < 0x80
    requires typ == QueryType ==> '=' in raw
    ensures typ == QueryType ==> '=' in OneVariable(raw, name)
    ensures Compiled(OneVariable(raw, name), typ) == Ok(Assemble(OneVariable(raw, name), typ, [Seg(raw, name)], ""))
  {
    var segs, none := [Seg(raw, name)], "";
    assert segs[1..] == [] && Render([], none) == none;
    assert Render(segs, none) == OneVariable(raw, name);
    AsciiIsValid(raw);
    AsciiIsValid(none);
    assert typ == QueryType ==> '=' in OneVariable(raw, name) by {
      if typ == QueryType {
        var k :| 0 <= k < |raw| && raw[k] == '=';
        assert OneVariable(raw, name)[k] == '=';
      }
    }
    CompileOfRender(segs, none, typ);
  }

  lemma OneValueBinds(rr: RouteRegexp, raw: string, name: string, val: string, req: Request)
    requires Closed(rr) && rr.segs == [Seg(raw, name)] && rr.last == ""
    requires Valid(raw) && !HasReplacement(raw) && InClass(DefaultClass(rr.typ), val)
    requires Subject(rr, req) == raw + val
    ensures Binds(rr, req, name) == Some(val)
  {
    var vals, none := [val], rr.last;
    AsciiIsValid(none);
    assert rr.segs[1..] == [] && vals[1..] == [] && Fill([], []) == none && val + none == val;
    assert Reverse(rr, vals) == raw + val;
    ExtractOfFilled(rr, vals);
    assert Names(rr.segs) == [name];
    assert SetVars([name], vals, map[]) == map[][name := val] by {
      assert [name][1..] == [];
    }
  }

  /** The key of a query template with one variable, which needs a value. */
  lemma KeyOfTemplate(key: string, name: string)
    requires '=' !in key
    ensures var tpl := OneVariable(key + ['='], name);
            IndexAny(tpl, "=") == |key| && tpl[..|key|] == key && |key| + 1 < |tpl|
  {
    var tpl := OneVariable(key + ['='], name);
    assert tpl[..|key|] == key && tpl[|key|] == '=';
    forall k | 0 <= k < |key| ensures tpl[k] !in "=" {
      assert tpl[k] == key[k];
    }
    IndexAnyUnique(tpl, "=", |key|);
  }

  lemma BothAdded<M>(rec: RouteRec<M>, pr: RouteRegexp, qr: RouteRegexp)
    requires rec.err.None? && rec.conf.group == RegexpGroup(None, None, [])
    requires pr.template != "" && pr.template[0] == '/' && Compiled(pr.template, PathType) == Ok(pr)
    requires '=' in qr.template && Compiled(qr.template, QueryType) == Ok(qr)
    ensures var one := AddRegexp(rec, pr.template, PathType);
            var both := AddRegexp(one, qr.template, QueryType);
            both.err.None? && both.conf.group == RegexpGroup(None, Some(pr), [qr])
  {
    var one := AddRegexp(rec, pr.template, PathType);
    assert one.err.None? && one.conf.group == RegexpGroup(None, Some(pr), []);
  }

  lemma QueryWins(pr: RouteRegexp, qr: RouteRegexp, req: Request, vars: Vars, x: string)
    requires Binds(qr, req, x).Some?
    ensures Get(MatchVars(RegexpGroup(None, Some(pr), [qr]), req, vars), x) == Binds(qr, req, x)
  {
    var g := RegexpGroup(None, Some(pr), [qr]);
    assert Exprs(g) == [pr, qr] && Exprs(g)[1 + 1..] == [];
    assert Decides(Exprs(g), req, x, 1);
    LastBindingWins(g, req, vars, x);
  }

  /**
   A path variable and, added after it, a query with a variable of the same name: the builder
   accepts both, the path gives the name its value, and the query's value replaces it.
   */
  lemma QueryReplacesPath<M>(rec: RouteRec<M>, raw: string, key: string, name: string, v: string, w: string,
                             req: Request, vars: Vars)
    requires rec.err.None? && rec.conf.group == RegexpGroup(None, None, [])
    requires raw != [] && raw[0] == '/' && BraceFree(raw) && forall k :: 0 <= k < |raw| ==> raw[k] as int < 0x80
    requires PlainKey(key) && PlainName(name) && InClass(NotSlash, v) && InClass(AnyText, w)
    requires req.path == raw + v && FirstValue(QueryPairs(req.rawQuery), key) == Some(w)
    ensures '=' in OneVariable(key + ['='], name)
    ensures var one := AddRegexp(rec, OneVariable(raw, name), PathType);
            var both := AddRegexp(one, OneVariable(key + ['='], name), QueryType);
            && both.err.None? && both.conf.group.path.Some?
            && Binds(both.conf.group.path.value, req, name) == Some(v)
            && Get(MatchVars(both.conf.group, req, vars), name) == Some(w)
  {
    var path, query := OneVariable(raw, name), OneVariable(key + ['='], name);
    OneVariableCompiles(raw, name, PathType);
    OneVariableCompiles(key + ['='], name, QueryType);
    var pr := Assemble(path, PathType, [Seg(raw, name)], "");
    var qr := Assemble(query, QueryType, [Seg(key + ['='], name)], "");
    AsciiIsValid(raw);
    AsciiIsValid(key + ['=']);
    KeyOfTemplate(key, name);
    OneValueBinds(pr, raw, name, v, req);
    OneValueBinds(qr, key + ['='], name, w, req);
    BothAdded(rec, pr, qr);
    QueryWins(pr, qr, req, vars, name);
  }
}
