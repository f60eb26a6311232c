/**
 Route templates compiled to regular expressions, matched, and mined for variables
 (regexp.go). The compiled expression is the sequence of quoted literals and groups of the
 default pattern that newRouteRegexp emits; groups are greedy, the leftmost first.
 */
module Regexp {
  import opened Wrappers
  import opened Text
  import opened Braces
  import opened Utf8

  datatype RegexpType = PathType | HostType | PrefixType | QueryType

  datatype CompileError = UnbalancedBraces | MissingNameOrPattern | UserPattern | InvalidUtf8

  /** A literal and the variable that follows it. */
  datatype Seg = Seg(raw: string, name: string)

  /**
   `^` raw0 `(p)` raw1 `(p)` ... last, where p is the default pattern of the type. `loose`
   adds the pattern of an empty query value; every type but the prefix ends in `$`.
   */
  datatype RouteRegexp = RouteRegexp(
    template: string,
    typ: RegexpType,
    segs: seq<Seg>,
    last: string,
    loose: bool,
    wildcardHostPort: bool)

  function Names(segs: seq<Seg>): (r: seq<string>)
    ensures |r| == |segs| && forall k :: 0 <= k < |segs| ==> r[k] == segs[k].name
  {
    seq(|segs|, k requires 0 <= k < |segs| => segs[k].name)
  }

  // ---------------------------------------------------------------- compiling

  /** Ordered groups of at least a pair of braces, from position `from` on. */
  ghost predicate InOrder(tpl: string, idxs: seq<Span>, from: nat)
  {
    if idxs == [] then from <= |tpl|
    else from <= idxs[0].start && idxs[0].start + 2 <= idxs[0].end && InOrder(tpl, idxs[1..], idxs[0].end)
  }

  lemma {:induction false} InOrderEnds(tpl: string, idxs: seq<Span>, from: nat)
    requires InOrder(tpl, idxs, from)
    ensures from <= |tpl|
    ensures idxs != [] ==> idxs[0].end <= |tpl|
  {
    if idxs != [] {
      InOrderEnds(tpl, idxs[1..], idxs[0].end);
    }
  }

  /** The variable between one pair of braces. */
  function VarName(inner: string): Result<string, CompileError>
  {
    var i := IndexAny(inner, ":");
    if i == 0 || i == |inner| - 1 then Err(MissingNameOrPattern)
    else if i < |inner| then Err(UserPattern)
    else Ok(inner)
  }

  /** The literal from `from` up to a group, and the group's variable. */
  function SegAt(tpl: string, g: Span, from: nat): Result<Seg, CompileError>
    requires from <= g.start && g.start + 2 <= g.end <= |tpl|
  {
    match VarName(tpl[g.start + 1..g.end - 1])
    case Err(e) => Err(e)
    case Ok(name) => Ok(Seg(tpl[from..g.start], name))
  }

  function Cons(seg: Result<Seg, CompileError>, rest: Result<seq<Seg>, CompileError>): Result<seq<Seg>, CompileError>
  {
    match (seg, rest)
    case (Ok(x), Ok(xs)) => Ok([x] + xs)
    case (Ok(_), Err(e)) => Err(e)
    case (Err(e), _) => Err(e)
  }

  function Segments(tpl: string, idxs: seq<Span>, from: nat): Result<seq<Seg>, CompileError>
    requires InOrder(tpl, idxs, from)
  {
    if idxs == [] then Ok([])
    else
      InOrderEnds(tpl, idxs, from);
      Cons(SegAt(tpl, idxs[0], from), Segments(tpl, idxs[1..], idxs[0].end))
  }

  function LastEnd(idxs: seq<Span>): nat
  {
    if idxs == [] then 0 else idxs[|idxs| - 1].end
  }

  predicate HasColon(segs: seq<Seg>, last: string)
  {
    ':' in last || exists k :: 0 <= k < |segs| && ':' in segs[k].raw
  }

  function Assemble(tpl: string, typ: RegexpType, segs: seq<Seg>, last: string): RouteRegexp
  {
    RouteRegexp(tpl, typ, segs, last,
                typ == QueryType && IndexAny(tpl, "=") + 1 == |tpl|,
                typ == HostType && !HasColon(segs, last))
  }

  /** The literals are valid text, as the compiler of expressions demands. */
  predicate ValidLiterals(segs: seq<Seg>, last: string)
  {
    Valid(last) && forall k :: 0 <= k < |segs| ==> Valid(segs[k].raw)
  }

  function Checked(tpl: string, typ: RegexpType, segs: seq<Seg>, last: string): Result<RouteRegexp, CompileError>
  {
    if ValidLiterals(segs, last) then Ok(Assemble(tpl, typ, segs, last)) else Err(InvalidUtf8)
  }

  /** The literals and variables of a template, and the literal after them. */
  function Parts(tpl: string): Result<(seq<Seg>, string), CompileError>
  {
    match Groups(tpl)
    case None => Err(UnbalancedBraces)
    case Some(idxs) =>
      GroupsInOrder(tpl);
      match Segments(tpl, idxs, 0)
      case Err(e) => Err(e)
      case Ok(segs) => Ok((segs, tpl[LastEnd(idxs)..]))
  }

  /** What newRouteRegexp returns; a query template always holds an equals sign. */
  function Compiled(tpl: string, typ: RegexpType): Result<RouteRegexp, CompileError>
    requires typ == QueryType ==> '=' in tpl
  {
    match Parts(tpl)
    case Err(e) => Err(e)
    case Ok((segs, last)) => Checked(tpl, typ, segs, last)
  }

  lemma GroupsInOrder(tpl: string)
    ensures Groups(tpl).Some? ==> InOrder(tpl, Groups(tpl).value, 0) && LastEnd(Groups(tpl).value) <= |tpl|
  {
    if Groups(tpl).Some? {
      GroupsMeaning(tpl);
      OuterInOrder(tpl, Groups(tpl).value, 0, 0);
      var idxs := Groups(tpl).value;
      assert idxs[0..] == idxs;
    }
  }

  lemma {:induction false} OuterInOrder(tpl: string, idxs: seq<Span>, k: nat, from: nat)
    requires OuterGroups(tpl, |tpl|, idxs) && k <= |idxs| && from <= |tpl|
    requires k < |idxs| ==> from <= idxs[k].start
    ensures InOrder(tpl, idxs[k..], from)
    decreases |idxs| - k
  {
    if k < |idxs| {
      var g := idxs[k];
      assert IsOuter(tpl, g);
      assert tpl[g.start] != tpl[g.end - 1];
      OuterInOrder(tpl, idxs, k + 1, g.end);
      assert idxs[k..][1..] == idxs[k + 1..];
    }
  }

  method NewRouteRegexp(tpl: string, typ: RegexpType) returns (r: Result<RouteRegexp, CompileError>)
    requires typ == QueryType ==> '=' in tpl
    ensures r == Compiled(tpl, typ)
  {
    var braces := BraceIndices(tpl);
    if braces == None {
      return Err(UnbalancedBraces);
    }
    var idxs := braces.value;
    GroupsInOrder(tpl);
    var end := 0;
    var segs: seq<Seg> := [];
    ghost var whole := Segments(tpl, idxs, 0);
    assert idxs[0..] == idxs;
    AfterNothing(whole);
    for i := 0 to |idxs|
      invariant end == LastEnd(idxs[..i]) <= |tpl|
      invariant InOrder(tpl, idxs[i..], end)
      invariant whole == After(segs, Segments(tpl, idxs[i..], end))
    {
      InOrderEnds(tpl, idxs[i..], end);
      assert idxs[i..][1..] == idxs[i + 1..];
      var seg := SegAt(tpl, idxs[i], end);
      end := idxs[i].end;
      if seg.Err? {
        return Err(seg.error);
      }
      AfterCons(segs, seg.value, Segments(tpl, idxs[i + 1..], end));
      segs := segs + [seg.value];
      assert idxs[..i + 1][i] == idxs[i];
      InOrderEnds(tpl, idxs[i + 1..], end);
    }
    assert idxs[..|idxs|] == idxs;
    assert segs + [] == segs;
    return Checked(tpl, typ, segs, tpl[end..]);
  }

  function After(segs: seq<Seg>, r: Result<seq<Seg>, CompileError>): Result<seq<Seg>, CompileError>
  {
    match r
    case Err(e) => Err(e)
    case Ok(more) => Ok(segs + more)
  }

  lemma AfterNothing(r: Result<seq<Seg>, CompileError>)
    ensures After([], r) == r
  {
    if r.Ok? {
      assert [] + r.value == r.value;
    }
  }

  lemma AfterCons(segs: seq<Seg>, seg: Seg, r: Result<seq<Seg>, CompileError>)
    ensures After(segs, Cons(Ok(seg), r)) == After(segs + [seg], r)
  {
    if r.Ok? {
      assert segs + ([seg] + r.value) == (segs + [seg]) + r.value;
    }
  }

  // ---------------------------------------------------------------- templates as text

  /** The template text of literals and `{name}` variables. */
  function Render(segs: seq<Seg>, last: string): string
  {
    if segs == [] then last
    else segs[0].raw + ['{'] + segs[0].name + ['}'] + Render(segs[1..], last)
  }

  predicate BraceFree(s: string)
  {
    '{' !in s && '}' !in s
  }

  predicate PlainName(s: string)
  {
    s != [] && BraceFree(s) && ':' !in s
  }

  ghost predicate PlainTemplate(segs: seq<Seg>, last: string)
  {
    BraceFree(last) && forall k :: 0 <= k < |segs| ==> BraceFree(segs[k].raw) && PlainName(segs[k].name)
  }

  lemma {:induction false} RunOfBraceFree(s: string, n: nat)
    requires BraceFree(s) && n <= |s|
    ensures Run(s, n) == Scan(0, 0, [])
  {
    if n > 0 {
      RunOfBraceFree(s, n - 1);
    }
  }

  lemma {:induction false} RunOfGroup(name: string, n: nat)
    requires BraceFree(name) && 1 <= n <= |name| + 1
    ensures Run(['{'] + name + ['}'], n) == Scan(1, 0, [])
  {
    var s := ['{'] + name + ['}'];
    assert Run(s, 0) == Scan(0, 0, []);
    if n > 1 {
      RunOfGroup(name, n - 1);
      assert s[n - 1] == name[n - 2];
    }
  }

  lemma GroupsOfRender(seg: Seg, rest: string)
    requires BraceFree(seg.raw) && BraceFree(seg.name)
    ensures var n := |seg.raw| + |seg.name| + 2;
            Groups(seg.raw + ['{'] + seg.name + ['}'] + rest) ==
            match Groups(rest)
            case None => None
            case Some(b) => Some([Span(|seg.raw|, n)] + Shift(b, n))
  {
    var g := ['{'] + seg.name + ['}'];
    RunOfBraceFree(seg.raw, |seg.raw|);
    RunOfGroup(seg.name, |seg.name| + 1);
    assert Run(g, |g|) == Step(Scan(1, 0, []), '}', |g| - 1);
    assert [] + [Span(0, |g|)] == [Span(0, |g|)];
    GroupsOfConcat(seg.raw, g);
    assert Shift([Span(0, |g|)], |seg.raw|) == [Span(|seg.raw|, |seg.raw| + |g|)];
    var head := seg.raw + g;
    assert [] + [Span(|seg.raw|, |head|)] == [Span(|seg.raw|, |head|)];
    assert Groups(head) == Some([Span(|seg.raw|, |head|)]);
    GroupsOfConcat(head, rest);
    assert seg.raw + ['{'] + seg.name + ['}'] + rest == head + rest;
  }

  lemma ShiftTail(idxs: seq<Span>, n: nat)
    requires idxs != []
    ensures Shift(idxs, n)[0] == Span(idxs[0].start + n, idxs[0].end + n)
    ensures Shift(idxs, n)[1..] == Shift(idxs[1..], n)
  {
  }

  lemma {:induction false} ShiftInOrder(head: string, tpl: string, idxs: seq<Span>, from: nat)
    requires InOrder(tpl, idxs, from)
    ensures InOrder(head + tpl, Shift(idxs, |head|), |head| + from)
  {
    if idxs != [] {
      ShiftInOrder(head, tpl, idxs[1..], idxs[0].end);
      ShiftTail(idxs, |head|);
    }
  }

  lemma {:induction false} ShiftSegments(head: string, tpl: string, idxs: seq<Span>, from: nat)
    requires InOrder(tpl, idxs, from) && InOrder(head + tpl, Shift(idxs, |head|), |head| + from)
    ensures Segments(head + tpl, Shift(idxs, |head|), |head| + from) == Segments(tpl, idxs, from)
  {
    if idxs != [] {
      InOrderEnds(tpl, idxs, from);
      ShiftTail(idxs, |head|);
      ShiftSegments(head, tpl, idxs[1..], idxs[0].end);
      SegAtShift(head, tpl, idxs[0], from);
    }
  }

  lemma SegAtShift(head: string, tpl: string, g: Span, from: nat)
    requires from <= g.start && g.start + 2 <= g.end <= |tpl|
    ensures SegAt(head + tpl, Span(g.start + |head|, g.end + |head|), |head| + from) == SegAt(tpl, g, from)
  {
    var n := |head|;
    assert (head + tpl)[g.start + n + 1..g.end + n - 1] == tpl[g.start + 1..g.end - 1];
    assert (head + tpl)[n + from..g.start + n] == tpl[from..g.start];
  }

  lemma SegAtHead(seg: Seg, rest: string)
    requires PlainName(seg.name)
    ensures var n := |seg.raw| + |seg.name| + 2;
            var tpl := seg.raw + ['{'] + seg.name + ['}'] + rest;
            SegAt(tpl, Span(|seg.raw|, n), 0) == Ok(seg)
  {
    var n := |seg.raw| + |seg.name| + 2;
    var tpl := seg.raw + ['{'] + seg.name + ['}'] + rest;
    assert tpl[|seg.raw| + 1..n - 1] == seg.name;
    assert tpl[0..|seg.raw|] == seg.raw;
    IndexAnyUnique(seg.name, ":", |seg.name|);
  }

  lemma FirstSegment(tpl: string, g: Span, moved: seq<Span>, seg: Seg, segs: seq<Seg>)
    requires InOrder(tpl, moved, g.end) && g.start + 2 <= g.end
    requires Segments(tpl, moved, g.end) == Ok(segs)
    requires g.end <= |tpl| && SegAt(tpl, g, 0) == Ok(seg)
    ensures InOrder(tpl, [g] + moved, 0) && Segments(tpl, [g] + moved, 0) == Ok([seg] + segs)
  {
    var all := [g] + moved;
    assert all[1..] == moved;
    assert Segments(tpl, all, 0) == Cons(Ok(seg), Ok(segs));
  }

  lemma RenderedSegments(seg: Seg, rest: string, idxs: seq<Span>, segs: seq<Seg>)
    requires PlainName(seg.name)
    requires InOrder(rest, idxs, 0) && Segments(rest, idxs, 0) == Ok(segs)
    ensures var n := |seg.raw| + |seg.name| + 2;
            var tpl := seg.raw + ['{'] + seg.name + ['}'] + rest;
            var all := [Span(|seg.raw|, n)] + Shift(idxs, n);
            InOrder(tpl, all, 0) && Segments(tpl, all, 0) == Ok([seg] + segs)
  {
    var head := seg.raw + ['{'] + seg.name + ['}'];
    ShiftInOrder(head, rest, idxs, 0);
    ShiftSegments(head, rest, idxs, 0);
    SegAtHead(seg, rest);
    FirstSegment(head + rest, Span(|seg.raw|, |head|), Shift(idxs, |head|), seg, segs);
  }

  lemma RenderedLast(start: nat, n: nat, idxs: seq<Span>)
    ensures LastEnd([Span(start, n)] + Shift(idxs, n)) == n + LastEnd(idxs)
  {
    if idxs != [] {
      assert Shift(idxs, n)[|idxs| - 1].end == n + LastEnd(idxs);
    }
  }

  /** The groups of a template hold these segments, and `last` follows them. */
  ghost predicate Represents(tpl: string, segs: seq<Seg>, last: string)
  {
    && Groups(tpl).Some?
    && InOrder(tpl, Groups(tpl).value, 0)
    && Segments(tpl, Groups(tpl).value, 0) == Ok(segs)
    && LastEnd(Groups(tpl).value) + |last| == |tpl|
    && tpl[LastEnd(Groups(tpl).value)..] == last
  }

  lemma DropHead(head: string, rest: string, n: nat)
    requires n <= |rest|
    ensures (head + rest)[|head| + n..] == rest[n..]
  {
  }

  lemma RepresentsMore(seg: Seg, rest: string, segs: seq<Seg>, last: string)
    requires BraceFree(seg.raw) && PlainName(seg.name) && Represents(rest, segs, last)
    ensures Represents(seg.raw + ['{'] + seg.name + ['}'] + rest, [seg] + segs, last)
  {
    var head := seg.raw + ['{'] + seg.name + ['}'];
    var idxs := Groups(rest).value;
    GroupsOfRender(seg, rest);
    RenderedSegments(seg, rest, idxs, segs);
    RenderedLast(|seg.raw|, |head|, idxs);
    DropHead(head, rest, LastEnd(idxs));
  }

  lemma {:induction false} CompiledOfRender(segs: seq<Seg>, last: string)
    requires PlainTemplate(segs, last)
    ensures Represents(Render(segs, last), segs, last)
  {
    if segs == [] {
      RunOfBraceFree(last, |last|);
    } else {
      CompiledOfRender(segs[1..], last);
      RepresentsMore(segs[0], Render(segs[1..], last), segs[1..], last);
      assert segs == [segs[0]] + segs[1..];
    }
  }

  /** Compiling a rendered template gives back exactly its literals and names, if they are valid text. */
  lemma CompileOfRender(segs: seq<Seg>, last: string, typ: RegexpType)
    requires PlainTemplate(segs, last) && (typ == QueryType ==> '=' in Render(segs, last))
    ensures Compiled(Render(segs, last), typ) == Checked(Render(segs, last), typ, segs, last)
  {
    CompiledOfRender(segs, last);
  }

  ghost predicate Braced(tpl: string, g: Span)
  {
    g.start < g.end <= |tpl| && tpl[g.start] == '{' && tpl[g.end - 1] == '}'
  }

  lemma TextOfGroup(tpl: string, g: Span, from: nat)
    requires from <= g.start && g.start + 2 <= g.end <= |tpl| && Braced(tpl, g) && SegAt(tpl, g, from).Ok?
    ensures var seg := SegAt(tpl, g, from).value;
            tpl[from..] == seg.raw + ['{'] + seg.name + ['}'] + tpl[g.end..]
  {
    var inner := tpl[g.start + 1..g.end - 1];
    assert tpl[from..] == tpl[from..g.start] + ['{'] + inner + ['}'] + tpl[g.end..];
  }

  /** Every template that compiles is the rendering of what it compiles to. */
  lemma {:induction false} RenderOfSegments(tpl: string, idxs: seq<Span>, from: nat)
    requires InOrder(tpl, idxs, from)
    requires forall k :: 0 <= k < |idxs| ==> Braced(tpl, idxs[k])
    requires Segments(tpl, idxs, from).Ok?
    ensures from <= |tpl|
    ensures var e := if idxs == [] then from else LastEnd(idxs);
            e <= |tpl| && Render(Segments(tpl, idxs, from).value, tpl[e..]) == tpl[from..]
  {
    InOrderEnds(tpl, idxs, from);
    if idxs != [] {
      var g := idxs[0];
      RenderOfSegments(tpl, idxs[1..], g.end);
      assert LastEnd(idxs) == if idxs[1..] == [] then g.end else LastEnd(idxs[1..]);
      TextOfGroup(tpl, g, from);
      var seg, more := SegAt(tpl, g, from).value, Segments(tpl, idxs[1..], g.end).value;
      assert Segments(tpl, idxs, from) == Cons(Ok(seg), Ok(more));
      assert ([seg] + more)[1..] == more;
    }
  }

  lemma CompiledRenders(tpl: string, typ: RegexpType)
    requires typ == QueryType ==> '=' in tpl
    requires Compiled(tpl, typ).Ok?
    ensures var rr := Compiled(tpl, typ).value; Render(rr.segs, rr.last) == tpl
  {
    GroupsInOrder(tpl);
    GroupsMeaning(tpl);
    var idxs := Groups(tpl).value;
    assert forall k :: 0 <= k < |idxs| ==> IsOuter(tpl, idxs[k]) && Braced(tpl, idxs[k]);
    RenderOfSegments(tpl, idxs, 0);
    assert tpl[0..] == tpl;
  }
}
