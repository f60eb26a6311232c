/**
 Which text of a request a template is matched against, and when its end is left open (Match,
 getURLQuery and newRouteRegexp of regexp.go), for templates of literals and `{name}` variables.
 */
module TemplateSubjects {
  import opened Wrappers
  import opened Text
  import opened Utf8
  import opened Query
  import opened Regexp
  import opened Matching
  import opened RouteGraph
  import opened RouteForest
  import opened RouteCalls
  import opened RouteVariables

  // ---------------------------------------------------------------- hosts

  /** The host that counts: that of an absolute URL, else the one the request names. */
  lemma HostOfRequest(rr: RouteRegexp, req: Request, host: string)
    requires rr.typ == HostType && !rr.wildcardHostPort && host == if req.isAbs then req.urlHost else req.host
    ensures Subject(rr, req) == host
  {
  }

  /** A template without a colon ignores the port: it sees the host up to the first colon. */
  lemma PortIgnored(rr: RouteRegexp, req: Request, name: string, port: string)
    requires rr.typ == HostType && rr.wildcardHostPort && ':' !in name && (port == "" || port[0] == ':')
    requires name + port == if req.isAbs then req.urlHost else req.host
    ensures Subject(rr, req) == name
  {
    var host := name + port;
    forall k | 0 <= k < |name| ensures host[k] !in ":" {
      assert host[k] == name[k];
    }
    IndexAnyUnique(host, ":", |name|);
    assert host[..|name|] == name;
  }

  predicate ColonFree(segs: seq<Seg>, last: string)
  {
    ':' !in last && forall k :: 0 <= k < |segs| ==> ':' !in segs[k].raw
  }

  /** A host template compiles to its literals and names; the port counts exactly if a literal holds a colon. */
  lemma HostCompiles(segs: seq<Seg>, last: string) returns (rr: RouteRegexp)
    requires PlainTemplate(segs, last) && ValidLiterals(segs, last)
    ensures Compiled(Render(segs, last), HostType) == Ok(rr)
    ensures rr.typ == HostType && rr.segs == segs && rr.last == last && !rr.loose
    ensures rr.wildcardHostPort <==> ColonFree(segs, last)
  {
    CompileOfRender(segs, last, HostType);
    rr := Compiled(Render(segs, last), HostType).value;
  }

  /**
   A host template with a dot between any two variables, and no colon: it accepts the host built
   from any non-empty values without dots and colons, with any port or none, and binds each
   distinct name to its value.
   */
  lemma HostVariables(segs: seq<Seg>, last: string, vals: seq<string>, port: string, req: Request)
    returns (rr: RouteRegexp)
    requires PlainTemplate(segs, last) && ValidLiterals(segs, last) && NoReplacement(segs, last)
    requires Separated(segs, '.') && Distinct(Names(segs)) && ColonFree(segs, last)
    requires |vals| == |segs| && forall k :: 0 <= k < |vals| ==> vals[k] != "" && '.' !in vals[k] && ':' !in vals[k]
    requires port == "" || port[0] == ':'
    requires (if req.isAbs then req.urlHost else req.host) == (Fill(segs, vals) + last) + port
    ensures Compiled(Render(segs, last), HostType) == Ok(rr) && Accepts(rr, req)
    ensures forall k :: 0 <= k < |segs| ==> Binds(rr, req, segs[k].name) == Some(vals[k])
  {
    rr := HostCompiles(segs, last);
    FilledColonFree(segs, last, vals);
    PortIgnored(rr, req, Fill(segs, vals) + last, port);
    FilledBinds(rr, vals, req);
  }

  lemma {:induction false} FilledColonFree(segs: seq<Seg>, last: string, vals: seq<string>)
    requires |vals| == |segs| && ColonFree(segs, last) && forall k :: 0 <= k < |vals| ==> ':' !in vals[k]
    ensures ':' !in Fill(segs, vals) + last
  {
    if segs != [] {
      assert forall k :: 0 <= k < |segs[1..]| ==> segs[1..][k] == segs[k + 1] && vals[1..][k] == vals[k + 1];
      FilledColonFree(segs[1..], last, vals[1..]);
    }
  }

  /** A closed template whose subject is itself, filled, binds each distinct name to its value. */
  lemma FilledBinds(rr: RouteRegexp, vals: seq<string>, req: Request)
    requires Closed(rr) && Separated(rr.segs, Separator(DefaultClass(rr.typ))) && Distinct(Names(rr.segs))
    requires ValidLiterals(rr.segs, rr.last) && NoReplacement(rr.segs, rr.last)
    requires |vals| == |rr.segs| && AllIn(DefaultClass(rr.typ), vals) && Subject(rr, req) == Reverse(rr, vals)
    ensures Accepts(rr, req)
    ensures forall k :: 0 <= k < |rr.segs| ==> Binds(rr, req, rr.segs[k].name) == Some(vals[k])
  {
    ExtractOfFilled(rr, vals);
    SetVarsMeaning(Names(rr.segs), vals, map[]);
  }

  // ---------------------------------------------------------------- queries

  /** The key and the value of a query template. */
  lemma KeyOfQuery(key: string, value: string)
    requires '=' !in key
    ensures var tpl := key + ['='] + value;
            && '=' in tpl && IndexAny(tpl, "=") == |key| && tpl[..|key|] == key
            && (|key| + 1 == |tpl| <==> value == "")
  {
    var tpl := key + ['='] + value;
    CutBehind(key, '=', value);
    assert tpl[|key|] == '=';
    forall k | 0 <= k < |key| ensures tpl[k] !in "=" {
      assert tpl[k] == key[k];
    }
    IndexAnyUnique(tpl, "=", |key|);
  }

  /** A query template without a value leaves the value open; one with a value does not. */
  lemma QueryCompiles(key: string, value: string) returns (rr: RouteRegexp)
    requires PlainKey(key) && BraceFree(value) && Valid(key + ['='] + value)
    ensures '=' in key + ['='] + value
    ensures Compiled(key + ['='] + value, QueryType) == Ok(rr)
    ensures rr.typ == QueryType && rr.segs == [] && rr.last == rr.template == key + ['='] + value
    ensures rr.loose <==> value == ""
  {
    var tpl := key + ['='] + value;
    KeyOfQuery(key, value);
    CompileOfRender([], tpl, QueryType);
    rr := Compiled(tpl, QueryType).value;
  }

  /** It is matched against the key with the first value the request gives it, or against nothing. */
  lemma QuerySubject(rr: RouteRegexp, key: string, value: string, req: Request)
    requires rr.typ == QueryType && rr.template == key + ['='] + value && '=' !in key
    ensures var v := FirstValue(QueryPairs(req.rawQuery), key);
            Subject(rr, req) == if v.None? then "" else key + ['='] + v.value
  {
    KeyOfQuery(key, value);
  }

  /** The request has the key, first with this value or, if that is empty, with any value of one line. */
  predicate Gives(req: Request, key: string, value: string)
  {
    var found := FirstValue(QueryPairs(req.rawQuery), key);
    found.Some? && if value == "" then '\n' !in found.value else found.value == value
  }

  predicate PlainQuery(key: string, value: string)
  {
    PlainKey(key) && BraceFree(value) && Valid(key + ['='] + value) && !HasReplacement(key + ['='] + value)
  }

  /** A template of literals accepts just such requests. */
  lemma QueryAccepts(key: string, value: string, req: Request) returns (rr: RouteRegexp)
    requires PlainQuery(key, value)
    ensures '=' in key + ['='] + value && rr.segs == [] && Compiled(key + ['='] + value, QueryType) == Ok(rr)
    ensures Accepts(rr, req) <==> Gives(req, key, value)
  {
    rr := QueryCompiles(key, value);
    QuerySubject(rr, key, value, req);
    var found := FirstValue(QueryPairs(req.rawQuery), key);
    if found.Some? {
      QueryTail(rr, key, value, found.value);
    } else {
      ReadsExactly(rr.last, "");
    }
  }

  lemma QueryTail(rr: RouteRegexp, key: string, value: string, v: string)
    requires rr.typ == QueryType && rr.segs == [] && rr.last == key + ['='] + value && (rr.loose <==> value == "")
    requires Valid(rr.last) && !HasReplacement(rr.last)
    ensures Submatches(rr, key + ['='] + v).Some? <==> if value == "" then '\n' !in v else v == value
  {
    var s := key + ['='] + v;
    ReadsExactly(rr.last, s);
    KeyAndValue(key, value, v);
    assert Submatches(rr, s).Some? <==> TailOk(rr, s);
    assert rr.last <= s && |s| == |rr.last| ==> rr.last == s;
  }

  lemma KeyAndValue(key: string, value: string, v: string)
    ensures var tpl, s := key + ['='] + value, key + ['='] + v;
            && (tpl == s <==> value == v)
            && (value == "" ==> tpl <= s && s[|tpl|..] == v)
  {
    var tpl, s := key + ['='] + value, key + ['='] + v;
    assert tpl[|key| + 1..] == value && s[|key| + 1..] == v;
  }

  predicate PlainQueries(pairs: seq<string>)
    requires |pairs| % 2 == 0
    decreases |pairs|
  {
    pairs == [] || (PlainQuery(pairs[0], pairs[1]) && PlainQueries(pairs[2..]))
  }

  predicate GivesAll(req: Request, pairs: seq<string>)
    requires |pairs| % 2 == 0
    decreases |pairs|
  {
    pairs == [] || (Gives(req, pairs[0], pairs[1]) && GivesAll(req, pairs[2..]))
  }

  predicate Tests<M>(ms: seq<Matcher<M>>, req: Request)
  {
    forall k :: 0 <= k < |ms| && ms[k].RegexpMatcher? ==> Accepts(ms[k].rr, req)
  }

  /** `Queries` with plain keys and values is never refused, and asks for every key with its value. */
  lemma {:induction false} QueriesAskFor<M>(rec: RouteRec<M>, pairs: seq<string>, req: Request)
    requires rec.err.None? && |pairs| % 2 == 0 && PlainQueries(pairs)
    ensures var added := AddQueries(rec, pairs);
            && added.err.None?
            && (Tests(added.conf.matchers, req) <==> Tests(rec.conf.matchers, req) && GivesAll(req, pairs))
    decreases |pairs|
  {
    if pairs != [] {
      var rest := pairs[2..];
      assert |rest| % 2 == 0 && PlainQueries(rest);
      var next := OneQuery(rec, pairs, req);
      QueriesAskFor(next, rest, req);
    }
  }

  lemma OneQuery<M>(rec: RouteRec<M>, pairs: seq<string>, req: Request) returns (next: RouteRec<M>)
    requires rec.err.None? && |pairs| >= 2 && |pairs| % 2 == 0 && PlainQuery(pairs[0], pairs[1])
    ensures AddQueries(rec, pairs) == AddQueries(next, pairs[2..]) && next.err.None?
    ensures Tests(next.conf.matchers, req) <==> Tests(rec.conf.matchers, req) && Gives(req, pairs[0], pairs[1])
  {
    var key, value := pairs[0], pairs[1];
    var rr := QueryAccepts(key, value, req);
    assert key + "=" + value == key + ['='] + value;
    QueryAdded(rec, key + "=" + value);
    next := AddRegexp(rec, key + "=" + value, QueryType);
    TestsOneMore(rec.conf.matchers, rr, req);
  }

  lemma TestsOneMore<M>(ms: seq<Matcher<M>>, rr: RouteRegexp, req: Request)
    ensures Tests(ms + [RegexpMatcher(rr)], req) <==> Tests(ms, req) && Accepts(rr, req)
  {
    var all := ms + [RegexpMatcher(rr)];
    assert all[|ms|] == RegexpMatcher(rr) && forall k :: 0 <= k < |ms| ==> all[k] == ms[k];
  }
}
