/**
 The recursive matcher of route.go and mux_route.go over a tree of routes and subrouters,
 and the flat list of leaf routes it is equivalent to.
 */
module RouteMatching {
  import opened Wrappers
  import opened Regexp
  import opened Matching

  datatype Controller = Controller(name: string)

  /** A route, with the identity `id` of the route object, and what it must match in order. */
  datatype Node<R> = Node(id: R, failed: bool, controller: Option<Controller>, group: RegexpGroup, tests: seq<Test<R>>)

  datatype Test<R> = Regexp(rr: RouteRegexp) | Sub(routes: seq<Node<R>>)

  /** The RouteMatch being filled in. */
  datatype MatchState<R> = MatchState(route: Option<R>, controller: Option<Controller>, vars: Option<Vars>)

  function Empty<R>(): MatchState<R>
  {
    MatchState(None, None, None)
  }

  datatype Outcome<R> = Outcome(matched: bool, state: MatchState<R>)

  /** Once a route has matched, it fills in what is still missing, and its variables. */
  function Record<R>(n: Node<R>, req: Request, m: MatchState<R>): MatchState<R>
  {
    MatchState(
      if m.route.None? then Some(n.id) else m.route,
      if m.controller.None? then n.controller else m.controller,
      Some(MatchVars(n.group, req, if m.vars.None? then map[] else m.vars.value)))
  }

  function MatchNode<R>(n: Node<R>, req: Request, m: MatchState<R>): Outcome<R>
    decreases n, 1
  {
    if n.failed then Outcome(false, m)
    else
      var o := MatchTests(n.tests, req, m);
      if o.matched then Outcome(true, Record(n, req, o.state)) else o
  }

  function MatchTests<R>(tests: seq<Test<R>>, req: Request, m: MatchState<R>): Outcome<R>
    decreases tests, 0
  {
    if tests == [] then Outcome(true, m)
    else
      var o := MatchTest(tests[0], req, m);
      if o.matched then MatchTests(tests[1..], req, o.state) else o
  }

  function MatchTest<R>(t: Test<R>, req: Request, m: MatchState<R>): Outcome<R>
    decreases t, 1
  {
    match t
    case Regexp(rr) => Outcome(Accepts(rr, req), m)
    case Sub(routes) => MatchRoutes(routes, req, m)
  }

  function MatchRoutes<R>(routes: seq<Node<R>>, req: Request, m: MatchState<R>): Outcome<R>
    decreases routes, 0
  {
    if routes == [] then Outcome(false, m)
    else
      var o := MatchNode(routes[0], req, m);
      if o.matched then o else MatchRoutes(routes[1..], req, o.state)
  }

  // ---------------------------------------------------------------- the flat list of leaves

  /** The routes from an outermost one down to a leaf. */
  type Chain<R> = seq<Node<R>>

  predicate HasSub<R>(n: Node<R>)
  {
    n.tests != [] && n.tests[|n.tests| - 1].Sub?
  }

  /** A subrouter, if there is one, is the last matcher; likewise below it. */
  predicate WellPlaced<R>(n: Node<R>)
    decreases n, 1
  {
    && (forall k :: 0 <= k < |n.tests| - 1 ==> n.tests[k].Regexp?)
    && (HasSub(n) ==> AllWellPlaced(n.tests[|n.tests| - 1].routes))
  }

  predicate AllWellPlaced<R>(routes: seq<Node<R>>)
    decreases routes, 0
  {
    routes == [] || (WellPlaced(routes[0]) && AllWellPlaced(routes[1..]))
  }

  /** The leaves in depth-first registration order, each with its ancestors. */
  function Leaves<R>(routes: seq<Node<R>>): seq<Chain<R>>
    decreases routes, 0
  {
    if routes == [] then [] else NodeLeaves(routes[0]) + Leaves(routes[1..])
  }

  function NodeLeaves<R>(n: Node<R>): seq<Chain<R>>
    decreases n, 1
  {
    if HasSub(n) then Under(n, Leaves(n.tests[|n.tests| - 1].routes)) else [[n]]
  }

  function Under<R>(n: Node<R>, chains: seq<Chain<R>>): seq<Chain<R>>
  {
    if chains == [] then [] else [[n] + chains[0]] + Under(n, chains[1..])
  }

  /** A route's own matchers, its subrouter aside, all accept the request. */
  predicate OwnMatch<R>(n: Node<R>, req: Request)
  {
    !n.failed && forall k :: 0 <= k < |n.tests| && n.tests[k].Regexp? ==> Accepts(n.tests[k].rr, req)
  }

  predicate Satisfied<R>(c: Chain<R>, req: Request)
  {
    forall k :: 0 <= k < |c| ==> OwnMatch(c[k], req)
  }

  /** The leaf records first, then its ancestors, innermost first. */
  function Settle<R>(c: Chain<R>, req: Request, m: MatchState<R>): MatchState<R>
  {
    if c == [] then m else Record(c[0], req, Settle(c[1..], req, m))
  }

  /** The first satisfied leaf wins; if there is none, nothing changes. */
  function FirstMatch<R>(chains: seq<Chain<R>>, req: Request, m: MatchState<R>): Outcome<R>
  {
    if chains == [] then Outcome(false, m)
    else if Satisfied(chains[0], req) then Outcome(true, Settle(chains[0], req, m))
    else FirstMatch(chains[1..], req, m)
  }

  lemma {:induction false} FirstMatchOfConcat<R>(a: seq<Chain<R>>, b: seq<Chain<R>>, req: Request, m: MatchState<R>)
    ensures FirstMatch(a + b, req, m) ==
            if FirstMatch(a, req, m).matched then FirstMatch(a, req, m) else FirstMatch(b, req, m)
  {
    if a == [] {
      assert a + b == b;
    } else {
      FirstMatchOfConcat(a[1..], b, req, m);
      assert (a + b)[1..] == a[1..] + b;
    }
  }

  lemma {:induction false} FirstMatchFails<R>(chains: seq<Chain<R>>, req: Request, m: MatchState<R>)
    ensures !FirstMatch(chains, req, m).matched ==> FirstMatch(chains, req, m).state == m
    ensures FirstMatch(chains, req, m).matched <==> exists k :: 0 <= k < |chains| && Satisfied(chains[k], req)
  {
    if chains != [] {
      FirstMatchFails(chains[1..], req, m);
      assert forall k :: 1 <= k < |chains| ==> chains[k] == chains[1..][k - 1];
      if FirstMatch(chains[1..], req, m).matched {
        var k :| 0 <= k < |chains[1..]| && Satisfied(chains[1..][k], req);
        assert Satisfied(chains[k + 1], req);
      }
    }
  }

  lemma SatisfiedUnder<R>(n: Node<R>, c: Chain<R>, req: Request)
    ensures Satisfied([n] + c, req) <==> OwnMatch(n, req) && Satisfied(c, req)
  {
    var d := [n] + c;
    assert d[0] == n && forall k :: 0 <= k < |c| ==> d[k + 1] == c[k];
    if OwnMatch(n, req) && Satisfied(c, req) {
      forall k | 0 <= k < |d| ensures OwnMatch(d[k], req) {
        assert k > 0 ==> d[k] == c[k - 1];
      }
    }
    if Satisfied(d, req) {
      forall k | 0 <= k < |c| ensures OwnMatch(c[k], req) {
        assert OwnMatch(d[k + 1], req);
      }
    }
  }

  lemma {:induction false} FirstMatchUnder<R>(n: Node<R>, chains: seq<Chain<R>>, req: Request, m: MatchState<R>)
    ensures FirstMatch(Under(n, chains), req, m) ==
            if OwnMatch(n, req) && FirstMatch(chains, req, m).matched
            then Outcome(true, Record(n, req, FirstMatch(chains, req, m).state))
            else Outcome(false, m)
  {
    if chains != [] {
      var c := [n] + chains[0];
      SatisfiedUnder(n, chains[0], req);
      FirstMatchUnder(n, chains[1..], req, m);
      FirstMatchFails(chains, req, m);
      assert c[1..] == chains[0];
      assert Under(n, chains)[1..] == Under(n, chains[1..]);
    }
  }

  // ---------------------------------------------------------------- nested routing equals flat routing

  predicate AllRegexps<R>(tests: seq<Test<R>>)
  {
    forall k :: 0 <= k < |tests| ==> tests[k].Regexp?
  }

  lemma {:induction false} MatchRegexps<R>(tests: seq<Test<R>>, req: Request, m: MatchState<R>)
    requires AllRegexps(tests)
    ensures MatchTests(tests, req, m) == Outcome(forall k :: 0 <= k < |tests| ==> Accepts(tests[k].rr, req), m)
  {
    if tests != [] {
      assert forall k :: 1 <= k < |tests| ==> tests[k] == tests[1..][k - 1];
      MatchRegexps(tests[1..], req, m);
    }
  }

  lemma {:induction false} MatchTestsSplit<R>(a: seq<Test<R>>, t: Test<R>, req: Request, m: MatchState<R>)
    ensures MatchTests(a + [t], req, m) ==
            var o := MatchTests(a, req, m);
            if o.matched then MatchTest(t, req, o.state) else o
  {
    if a == [] {
      assert a + [t] == [t];
      assert [t][1..] == [];
    } else {
      assert (a + [t])[1..] == a[1..] + [t];
      MatchTestsSplit(a[1..], t, req, MatchTest(a[0], req, m).state);
    }
  }

  lemma {:induction false} NodeIsFlat<R>(n: Node<R>, req: Request, m: MatchState<R>)
    requires WellPlaced(n)
    ensures MatchNode(n, req, m) == FirstMatch(NodeLeaves(n), req, m)
    decreases n, 1
  {
    if HasSub(n) {
      var last := |n.tests| - 1;
      var own, t := n.tests[..last], n.tests[last];
      assert n.tests == own + [t];
      MatchTestsSplit(own, t, req, m);
      MatchRegexps(own, req, m);
      OwnMatchOf(n, own, req);
      RoutesAreFlat(t.routes, req, m);
      FirstMatchUnder(n, Leaves(t.routes), req, m);
      FirstMatchFails(Leaves(t.routes), req, m);
    } else {
      assert AllRegexps(n.tests) by {
        if n.tests != [] {
          assert n.tests[|n.tests| - 1].Regexp?;
        }
      }
      MatchRegexps(n.tests, req, m);
      OwnMatchOf(n, n.tests, req);
      assert Satisfied([n], req) <==> OwnMatch(n, req) by {
        SatisfiedUnder(n, [], req);
        assert [n] + [] == [n];
      }
      assert Settle([n], req, m) == Record(n, req, m);
    }
  }

  lemma OwnMatchOf<R>(n: Node<R>, own: seq<Test<R>>, req: Request)
    requires own <= n.tests && AllRegexps(own)
    requires forall k :: |own| <= k < |n.tests| ==> n.tests[k].Sub?
    ensures OwnMatch(n, req) <==> !n.failed && forall k :: 0 <= k < |own| ==> Accepts(own[k].rr, req)
  {
    assert forall k :: 0 <= k < |own| ==> own[k] == n.tests[k];
  }

  /** For every request and every state of the shared match, failures included. */
  lemma {:induction false} RoutesAreFlat<R>(routes: seq<Node<R>>, req: Request, m: MatchState<R>)
    requires AllWellPlaced(routes)
    ensures MatchRoutes(routes, req, m) == FirstMatch(Leaves(routes), req, m)
    decreases routes, 0
  {
    if routes != [] {
      NodeIsFlat(routes[0], req, m);
      FirstMatchFails(NodeLeaves(routes[0]), req, m);
      RoutesAreFlat(routes[1..], req, m);
      FirstMatchOfConcat(NodeLeaves(routes[0]), Leaves(routes[1..]), req, m);
    }
  }

  lemma {:induction false} SettleMeaning<R>(c: Chain<R>, req: Request)
    requires c != []
    ensures Settle(c, req, Empty()).route == Some(c[|c| - 1].id)
    ensures c[|c| - 1].controller.Some? ==> Settle(c, req, Empty()).controller == c[|c| - 1].controller
    ensures Settle(c, req, Empty()).vars.Some?
  {
    if |c| > 1 {
      SettleMeaning(c[1..], req);
    }
  }

  /**
   Nested routing equals flat routing: a router matches exactly when some leaf has all its own
   and its ancestors' matchers satisfied, and it then yields the first such leaf and its
   controller. Otherwise the shared match is as it was.
   */
  lemma NestedRoutingIsFlat<R>(routes: seq<Node<R>>, req: Request)
    requires AllWellPlaced(routes)
    ensures var o := MatchRoutes(routes, req, Empty());
            && (o.matched <==> exists k :: 0 <= k < |Leaves(routes)| && Satisfied(Leaves(routes)[k], req))
            && (!o.matched ==> o.state == Empty())
    ensures forall k :: 0 <= k < |Leaves(routes)| && Satisfied(Leaves(routes)[k], req)
                        && (forall j :: 0 <= j < k ==> !Satisfied(Leaves(routes)[j], req))
              ==> var o, c := MatchRoutes(routes, req, Empty()), Leaves(routes)[k];
                  && c != []
                  && o.state == Settle(c, req, Empty())
                  && o.state.route == Some(c[|c| - 1].id)
                  && (c[|c| - 1].controller.Some? ==> o.state.controller == c[|c| - 1].controller)
  {
    var chains := Leaves(routes);
    RoutesAreFlat(routes, req, Empty());
    FirstMatchFails(chains, req, Empty<R>());
    LeavesNotEmpty(routes);
    forall k | 0 <= k < |chains| && Satisfied(chains[k], req) && forall j :: 0 <= j < k ==> !Satisfied(chains[j], req)
      ensures FirstMatch(chains, req, Empty()) == Outcome(true, Settle(chains[k], req, Empty()))
    {
      FirstMatchAt(chains, req, Empty<R>(), k);
    }
    forall k | 0 <= k < |chains|
      ensures Settle(chains[k], req, Empty()).route == Some(chains[k][|chains[k]| - 1].id)
      ensures chains[k][|chains[k]| - 1].controller.Some? ==>
                Settle(chains[k], req, Empty()).controller == chains[k][|chains[k]| - 1].controller
    {
      SettleMeaning(chains[k], req);
    }
  }

  lemma {:induction false} FirstMatchAt<R>(chains: seq<Chain<R>>, req: Request, m: MatchState<R>, k: nat)
    requires k < |chains| && Satisfied(chains[k], req) && forall j :: 0 <= j < k ==> !Satisfied(chains[j], req)
    ensures FirstMatch(chains, req, m) == Outcome(true, Settle(chains[k], req, m))
  {
    if k > 0 {
      assert forall j :: 0 <= j < k - 1 ==> chains[1..][j] == chains[j + 1];
      FirstMatchAt(chains[1..], req, m, k - 1);
    }
  }

  lemma {:induction false} LeavesNotEmpty<R>(routes: seq<Node<R>>)
    ensures forall k :: 0 <= k < |Leaves(routes)| ==> Leaves(routes)[k] != []
    decreases routes, 0
  {
    if routes != [] {
      LeavesNotEmpty(routes[1..]);
      if HasSub(routes[0]) {
        UnderNotEmpty(routes[0], Leaves(routes[0].tests[|routes[0].tests| - 1].routes));
      }
      var a, b := NodeLeaves(routes[0]), Leaves(routes[1..]);
      forall k | 0 <= k < |a + b| ensures (a + b)[k] != [] {
        if k < |a| { assert (a + b)[k] == a[k]; } else { assert (a + b)[k] == b[k - |a|]; }
      }
    }
  }

  lemma {:induction false} UnderNotEmpty<R>(n: Node<R>, chains: seq<Chain<R>>)
    ensures forall k :: 0 <= k < |Under(n, chains)| ==> Under(n, chains)[k] != []
  {
    if chains != [] {
      UnderNotEmpty(n, chains[1..]);
    }
  }

  // ---------------------------------------------------------------- a subrouter that is not last

  /** On the way to the matcher that refuses, no subrouter matches; likewise within the subrouters met. */
  predicate Quiet<R>(n: Node<R>, req: Request, m: MatchState<R>)
    decreases n, 1
  {
    n.failed || QuietTests(n.tests, req, m)
  }

  predicate QuietTests<R>(tests: seq<Test<R>>, req: Request, m: MatchState<R>)
    decreases tests, 0
  {
    tests == [] ||
    match tests[0]
    case Regexp(rr) => !Accepts(rr, req) || QuietTests(tests[1..], req, m)
    case Sub(routes) => !MatchRoutes(routes, req, m).matched && AllQuiet(routes, req, m)
  }

  predicate AllQuiet<R>(routes: seq<Node<R>>, req: Request, m: MatchState<R>)
    decreases routes, 0
  {
    routes == [] || (Quiet(routes[0], req, m) && AllQuiet(routes[1..], req, m))
  }

  /** Once a route is recorded it stays, and whatever matches records one. */
  lemma {:induction false} NodeRecords<R>(n: Node<R>, req: Request, m: MatchState<R>)
    ensures var o := MatchNode(n, req, m); m.route.Some? || o.matched ==> o.state.route.Some?
    decreases n, 1
  {
    TestsRecord(n.tests, req, m);
  }

  lemma {:induction false} TestsRecord<R>(tests: seq<Test<R>>, req: Request, m: MatchState<R>)
    ensures m.route.Some? ==> MatchTests(tests, req, m).state.route.Some?
    decreases tests, 0
  {
    if tests != [] {
      if tests[0].Sub? {
        RoutesRecord(tests[0].routes, req, m);
      }
      TestsRecord(tests[1..], req, MatchTest(tests[0], req, m).state);
    }
  }

  lemma {:induction false} RoutesRecord<R>(routes: seq<Node<R>>, req: Request, m: MatchState<R>)
    ensures var o := MatchRoutes(routes, req, m); m.route.Some? || o.matched ==> o.state.route.Some?
    decreases routes, 0
  {
    if routes != [] {
      NodeRecords(routes[0], req, m);
      RoutesRecord(routes[1..], req, MatchNode(routes[0], req, m).state);
    }
  }

  lemma {:induction false} TestsQuietIff<R>(tests: seq<Test<R>>, req: Request, m: MatchState<R>)
    requires m.route.None? && !MatchTests(tests, req, m).matched
    ensures MatchTests(tests, req, m).state == m <==> QuietTests(tests, req, m)
    decreases tests, 0
  {
    var o := MatchTest(tests[0], req, m);
    if tests[0].Regexp? {
      if o.matched {
        TestsQuietIff(tests[1..], req, m);
      }
    } else if o.matched {
      RoutesRecord(tests[0].routes, req, m);
      TestsRecord(tests[1..], req, o.state);
    } else {
      RoutesQuietIff(tests[0].routes, req, m);
    }
  }

  lemma {:induction false} RoutesQuietIff<R>(routes: seq<Node<R>>, req: Request, m: MatchState<R>)
    requires m.route.None? && !MatchRoutes(routes, req, m).matched
    ensures MatchRoutes(routes, req, m).state == m <==> AllQuiet(routes, req, m)
    decreases routes, 0
  {
    if routes != [] {
      var o := MatchNode(routes[0], req, m);
      FailedRouteUnchangedIff(routes[0], req, m);
      if o.state.route.None? {
        StateOrRoute(routes[0], req, m);
        RoutesQuietIff(routes[1..], req, m);
      } else {
        RoutesRecord(routes[1..], req, o.state);
      }
    }
  }

  /** A match without a route has not been touched. */
  lemma {:induction false} StateOrRoute<R>(n: Node<R>, req: Request, m: MatchState<R>)
    requires MatchNode(n, req, m).state.route.None?
    ensures MatchNode(n, req, m).state == m
    decreases n, 1
  {
    NodeRecords(n, req, m);
    if !n.failed {
      TestsStateOrRoute(n.tests, req, m);
    }
  }

  lemma {:induction false} TestsStateOrRoute<R>(tests: seq<Test<R>>, req: Request, m: MatchState<R>)
    requires MatchTests(tests, req, m).state.route.None?
    ensures MatchTests(tests, req, m).state == m
    decreases tests, 0
  {
    if tests != [] {
      var o := MatchTest(tests[0], req, m);
      if o.matched {
        TestsRecord(tests[1..], req, o.state);
        TestsStateOrRoute(tests[1..], req, o.state);
      }
      if tests[0].Sub? {
        RoutesStateOrRoute(tests[0].routes, req, m);
      }
    }
  }

  lemma {:induction false} RoutesStateOrRoute<R>(routes: seq<Node<R>>, req: Request, m: MatchState<R>)
    requires MatchRoutes(routes, req, m).state.route.None?
    ensures MatchRoutes(routes, req, m).state == m
    decreases routes, 0
  {
    if routes != [] {
      var o := MatchNode(routes[0], req, m);
      if !o.matched {
        RoutesRecord(routes[1..], req, o.state);
        RoutesStateOrRoute(routes[1..], req, o.state);
      }
      StateOrRoute(routes[0], req, m);
    }
  }

  /**
   Exactly when a route that fails leaves an unfilled match unchanged, for every tree of routes:
   no subrouter, its own or one within, matches before the matcher that refuses the request.
   */
  lemma {:induction false} FailedRouteUnchangedIff<R>(n: Node<R>, req: Request, m: MatchState<R>)
    requires m.route.None? && !MatchNode(n, req, m).matched
    ensures MatchNode(n, req, m).state == m <==> Quiet(n, req, m)
    decreases n, 1
  {
    if !n.failed {
      TestsQuietIff(n.tests, req, m);
    }
  }

  /**
   With a subrouter before another matcher the equivalence fails: the first route refuses the
   request after its subrouter has filled in the match, and the second route, the only one to
   accept, is reported as the subrouter's leaf.
   */
  lemma SubrouterNotLast<R>(r1: Node<R>, leaf: Node<R>, r2: Node<R>, a: RouteRegexp, b: RouteRegexp, req: Request)
    requires r1.tests == [Sub([leaf]), Regexp(a)] && leaf.tests == [] && r2.tests == [Regexp(b)]
    requires !r1.failed && !leaf.failed && !r2.failed && !Accepts(a, req) && Accepts(b, req)
    ensures !MatchNode(r1, req, Empty()).matched
    ensures MatchNode(r2, req, Empty()) == Outcome(true, Record(r2, req, Empty()))
    ensures MatchRoutes([r1, r2], req, Empty()).matched
    ensures MatchRoutes([r1, r2], req, Empty()).state.route == Some(leaf.id)
  {
    var m: MatchState<R> := Empty();
    var filled := Record(leaf, req, m);
    assert MatchTests(leaf.tests, req, m) == Outcome(true, m);
    assert MatchNode(leaf, req, m) == Outcome(true, filled);
    assert MatchRoutes([leaf], req, m) == Outcome(true, filled);
    assert MatchTests([Sub([leaf])], req, m) == Outcome(true, filled) by {
      assert [Sub([leaf])][1..] == [];
    }
    MatchTestsSplit([Sub([leaf])], Regexp(a), req, m);
    assert r1.tests == [Sub([leaf])] + [Regexp(a)];
    assert MatchNode(r1, req, m) == Outcome(false, filled);
    MatchRegexps(r2.tests, req, m);
    MatchRegexps(r2.tests, req, filled);
    assert [r1, r2][1..] == [r2];
    assert MatchRoutes([r2], req, filled) == Outcome(true, Record(r2, req, filled));
  }
}
