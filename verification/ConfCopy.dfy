/**
 Configurations as the code holds them, and why copyRouteConf of mux_route.go copies their
 slices. A slice is a length over a backing array that other slices may share; append writes into
 spare capacity. However often configurations are copied and extended, no two share storage.
 */
module ConfCopy {
  import opened Wrappers
  import opened Regexp
  import opened Matching
  import opened RouteGraph

  /** A slice that starts its backing array; the array's length is the capacity. */
  datatype Slice<T> = Slice(buf: array<T>, len: nat)

  predicate InBounds<T>(s: Slice<T>)
  {
    s.len <= s.buf.Length
  }

  function Contents<T>(s: Slice<T>): seq<T>
    requires InBounds(s)
    reads s.buf
  {
    s.buf[..s.len]
  }

  /** Go's append: in place while there is capacity, otherwise into a larger array. */
  method Append<T(0)>(s: Slice<T>, x: T) returns (r: Slice<T>)
    requires InBounds(s)
    modifies s.buf
    ensures InBounds(r) && Contents(r) == old(Contents(s)) + [x]
    ensures s.len < s.buf.Length ==> r.buf == s.buf
    ensures s.len == s.buf.Length ==> fresh(r.buf)
    ensures forall k :: 0 <= k < s.buf.Length && k != s.len ==> s.buf[k] == old(s.buf[k])
  {
    if s.len < s.buf.Length {
      s.buf[s.len] := x;
      r := Slice(s.buf, s.len + 1);
    } else {
      var grown := new T[2 * s.len + 1];
      forall k | 0 <= k < s.len {
        grown[k] := s.buf[k];
      }
      grown[s.len] := x;
      r := Slice(grown, s.len + 1);
      assert Contents(r)[..s.len] == Contents(s);
    }
  }

  /** A routeConf: the expressions for host and path are never changed, the slices grow. */
  datatype Conf<M> = Conf(
    matchers: Slice<Matcher<M>>, host: Option<RouteRegexp>, path: Option<RouteRegexp>, queries: Slice<RouteRegexp>)

  predicate ConfInBounds<M>(c: Conf<M>)
  {
    InBounds(c.matchers) && InBounds(c.queries)
  }

  function GroupOf<M>(c: Conf<M>): RegexpGroup
    requires ConfInBounds(c)
    reads c.queries.buf
  {
    RegexpGroup(c.host, c.path, Contents(c.queries))
  }

  function ValueOf<M>(c: Conf<M>): RouteConf<M>
    requires ConfInBounds(c)
    reads c.matchers.buf, c.queries.buf
  {
    RouteConf(Contents(c.matchers), GroupOf(c))
  }

  method EmptySlices<M>() returns (r: Conf<M>)
    ensures ConfInBounds(r) && fresh(r.matchers.buf) && fresh(r.queries.buf)
    ensures ValueOf(r) == RouteConf([], RegexpGroup(None, None, []))
  {
    var matchers, queries := new Matcher<M>[0], new RouteRegexp[0];
    r := Conf(Slice(matchers, 0), None, None, Slice(queries, 0));
  }

  /** Both slices get storage of their own, filled to capacity. */
  method CopyRouteConf<M>(c: Conf<M>) returns (r: Conf<M>)
    requires ConfInBounds(c)
    ensures ConfInBounds(r) && fresh(r.matchers.buf) && fresh(r.queries.buf)
    ensures ValueOf(r) == ValueOf(c)
    ensures r.matchers.len == r.matchers.buf.Length && r.queries.len == r.queries.buf.Length
  {
    var storage := new RouteRegexp[c.queries.len];
    var queries := Slice(storage, 0);
    for i := 0 to c.queries.len
      invariant queries.len == i && queries.buf.Length == c.queries.len && fresh(queries.buf)
      invariant Contents(queries) == Contents(c.queries)[..i]
    {
      assert Contents(c.queries)[..i + 1] == Contents(c.queries)[..i] + [c.queries.buf[i]];
      queries := Append(queries, c.queries.buf[i]);
    }
    var matchers := new Matcher<M>[c.matchers.len];
    forall k | 0 <= k < c.matchers.len {
      matchers[k] := c.matchers.buf[k];
    }
    r := Conf(Slice(matchers, c.matchers.len), c.host, c.path, queries);
    assert Contents(r.matchers) == Contents(c.matchers);
  }

  /** addMatcher, and the addition of a query to the group. */
  method AddMatcher<M>(c: Conf<M>, m: Matcher<M>) returns (r: Conf<M>)
    requires ConfInBounds(c)
    modifies c.matchers.buf
    ensures ConfInBounds(r) && ValueOf(r) == WithMatcher(old(ValueOf(c)), m)
    ensures r.queries == c.queries && (r.matchers.buf == c.matchers.buf || fresh(r.matchers.buf))
  {
    var matchers := Append(c.matchers, m);
    r := c.(matchers := matchers);
  }

  method AddQuery<M>(c: Conf<M>, q: RouteRegexp) returns (r: Conf<M>)
    requires ConfInBounds(c)
    modifies c.queries.buf
    ensures ConfInBounds(r) && ValueOf(r) == WithQuery(old(ValueOf(c)), q)
    ensures r.matchers == c.matchers && (r.queries.buf == c.queries.buf || fresh(r.queries.buf))
  {
    var queries := Append(c.queries, q);
    r := c.(queries := queries);
  }

  function WithMatcher<M>(v: RouteConf<M>, m: Matcher<M>): RouteConf<M>
  {
    v.(matchers := v.matchers + [m])
  }

  function WithQuery<M>(v: RouteConf<M>, q: RouteRegexp): RouteConf<M>
  {
    v.(group := v.group.(queries := v.group.queries + [q]))
  }

  // ---------------------------------------------------------------- any number of copies and additions

  /** The two configurations share no storage. */
  predicate OwnStorage<M>(c: Conf<M>, d: Conf<M>)
  {
    c.matchers.buf != d.matchers.buf && c.queries.buf != d.queries.buf
  }

  ghost function Buffers<M>(cs: seq<Conf<M>>): set<object>
  {
    (set k | 0 <= k < |cs| :: cs[k].matchers.buf) + (set k | 0 <= k < |cs| :: cs[k].queries.buf)
  }

  ghost predicate Holds<M>(c: Conf<M>, v: RouteConf<M>)
    reads c.matchers.buf, c.queries.buf
  {
    ConfInBounds(c) && ValueOf(c) == v
  }

  /** No two of the configurations share storage, and their slices hold these values. */
  ghost predicate AllHold<M>(cs: seq<Conf<M>>, vs: seq<RouteConf<M>>)
    reads Buffers(cs)
  {
    && |cs| == |vs|
    && (forall k :: 0 <= k < |cs| ==> Holds(cs[k], vs[k]))
    && (forall j, k :: 0 <= j < k < |cs| ==> OwnStorage(cs[j], cs[k]))
  }

  datatype Step<M> = Copied(i: nat) | Matched(i: nat, m: Matcher<M>) | Queried(i: nat, q: RouteRegexp)

  /** What a copy or an addition means on the values alone. */
  function After<M>(vs: seq<RouteConf<M>>, a: Step<M>): seq<RouteConf<M>>
    requires a.i < |vs|
  {
    var v := vs[a.i];
    match a
    case Copied(_) => vs + [v]
    case Matched(i, m) => vs[i := WithMatcher(v, m)]
    case Queried(i, q) => vs[i := WithQuery(v, q)]
  }

  predicate InRange<M>(n: nat, steps: seq<Step<M>>)
    decreases |steps|
  {
    steps == [] || (steps[0].i < n && InRange(if steps[0].Copied? then n + 1 else n, steps[1..]))
  }

  function AfterAll<M>(vs: seq<RouteConf<M>>, steps: seq<Step<M>>): seq<RouteConf<M>>
    requires InRange(|vs|, steps)
    decreases |steps|
  {
    if steps == [] then vs else AfterAll(After(vs, steps[0]), steps[1..])
  }

  /** A configuration that nothing is added to stays, however often it and others are copied. */
  lemma {:induction false} StepsAreIsolated<M>(vs: seq<RouteConf<M>>, steps: seq<Step<M>>, i: nat)
    requires InRange(|vs|, steps) && i < |vs|
    requires forall k :: 0 <= k < |steps| ==> steps[k].Copied? || steps[k].i != i
    ensures i < |AfterAll(vs, steps)| && AfterAll(vs, steps)[i] == vs[i]
    decreases |steps|
  {
    if steps != [] {
      assert forall k :: 0 <= k < |steps[1..]| ==> steps[1..][k] == steps[k + 1];
      StepsAreIsolated(After(vs, steps[0]), steps[1..], i);
    }
  }

  method Perform<M>(cs: seq<Conf<M>>, a: Step<M>, ghost vs: seq<RouteConf<M>>) returns (r: seq<Conf<M>>)
    requires AllHold(cs, vs) && a.i < |cs|
    modifies cs[a.i].matchers.buf, cs[a.i].queries.buf
    ensures AllHold(r, After(vs, a))
    ensures forall k :: 0 <= k < |r| ==>
              fresh(r[k].matchers.buf) || (k < |cs| && r[k].matchers.buf == cs[k].matchers.buf)
    ensures forall k :: 0 <= k < |r| ==> fresh(r[k].queries.buf) || (k < |cs| && r[k].queries.buf == cs[k].queries.buf)
  {
    match a {
      case Copied(i) =>
        var c := CopyRouteConf(cs[i]);
        r := cs + [c];
      case Matched(i, m) =>
        r := PerformMatched(cs, i, m, vs);
      case Queried(i, q) =>
        r := PerformQueried(cs, i, q, vs);
    }
  }

  method PerformMatched<M>(cs: seq<Conf<M>>, i: nat, m: Matcher<M>, ghost vs: seq<RouteConf<M>>)
    returns (r: seq<Conf<M>>)
    requires AllHold(cs, vs) && i < |cs|
    modifies cs[i].matchers.buf
    ensures AllHold(r, vs[i := WithMatcher(vs[i], m)]) && r == cs[i := r[i]] && r[i].queries == cs[i].queries
    ensures fresh(r[i].matchers.buf) || r[i].matchers.buf == cs[i].matchers.buf
  {
    var c := AddMatcher(cs[i], m);
    assert forall k :: 0 <= k < |cs| && k != i ==> Holds(cs[k], vs[k]);
    r := cs[i := c];
  }

  method PerformQueried<M>(cs: seq<Conf<M>>, i: nat, q: RouteRegexp, ghost vs: seq<RouteConf<M>>)
    returns (r: seq<Conf<M>>)
    requires AllHold(cs, vs) && i < |cs|
    modifies cs[i].queries.buf
    ensures AllHold(r, vs[i := WithQuery(vs[i], q)]) && r == cs[i := r[i]] && r[i].matchers == cs[i].matchers
    ensures fresh(r[i].queries.buf) || r[i].queries.buf == cs[i].queries.buf
  {
    var c := AddQuery(cs[i], q);
    assert forall k :: 0 <= k < |cs| && k != i ==> Holds(cs[k], vs[k]);
    r := cs[i := c];
  }

  /** Through any sequence of copies and additions the slices hold what the values say. */
  method PerformAll<M>(cs: seq<Conf<M>>, steps: seq<Step<M>>, ghost vs: seq<RouteConf<M>>) returns (r: seq<Conf<M>>)
    requires AllHold(cs, vs) && InRange(|cs|, steps)
    modifies Buffers(cs)
    ensures AllHold(r, AfterAll(vs, steps))
    decreases |steps|
  {
    if steps == [] {
      return cs;
    }
    var next := Perform(cs, steps[0], vs);
    r := PerformAll(next, steps[1..], After(vs, steps[0]));
  }

  /**
   Without a copy two owners extend the same slice: the first finds the second's element in the
   place of its own if there was spare capacity, and keeps its own if there was none.
   */
  method AddWithoutCopy<T(0)>(s: Slice<T>, x: T, y: T) returns (first: Slice<T>, second: Slice<T>)
    requires InBounds(s)
    modifies s.buf
    ensures InBounds(first) && InBounds(second)
    ensures Contents(second) == old(Contents(s)) + [y]
    ensures Contents(first) == old(Contents(s)) + [if s.len < s.buf.Length then y else x]
  {
    first := Append(s, x);
    second := Append(s, y);
  }
}
