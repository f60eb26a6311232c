/**
 Templates of nested routes: addRegexpMatcher of route.go compiles the parent's template,
 without its trailing slashes, followed by the path.
 */
module NestedTemplates {
  import opened Wrappers
  import opened Braces
  import opened Regexp
  import opened Text
  import opened Utf8

  /** Every group ends no later than the last one. */
  lemma {:induction false} InOrderBelow(tpl: string, xs: seq<Span>, from: nat)
    requires InOrder(tpl, xs, from) && xs != []
    ensures from <= xs[0].end <= LastEnd(xs)
  {
    if |xs| > 1 {
      InOrderBelow(tpl, xs[1..], xs[0].end);
      assert LastEnd(xs[1..]) == LastEnd(xs);
    }
  }

  lemma LastEndOfTail(xs: seq<Span>)
    requires |xs| > 1
    ensures LastEnd(xs[1..]) == LastEnd(xs)
  {
  }

  lemma {:induction false} SameText(tpl: string, tpl2: string, xs: seq<Span>, from: nat, bound: nat)
    requires InOrder(tpl, xs, from) && from <= bound <= |tpl| && bound <= |tpl2| && tpl[..bound] == tpl2[..bound]
    requires xs != [] ==> LastEnd(xs) <= bound
    ensures InOrder(tpl2, xs, from)
    ensures Segments(tpl2, xs, from) == Segments(tpl, xs, from)
  {
    if xs != [] {
      InOrderBelow(tpl, xs, from);
      if |xs| > 1 {
        LastEndOfTail(xs);
      }
      SameText(tpl, tpl2, xs[1..], xs[0].end, bound);
      SameSegment(tpl, tpl2, xs[0], from, bound);
    }
  }

  lemma SameSegment(tpl: string, tpl2: string, g: Span, from: nat, bound: nat)
    requires from <= g.start && g.start + 2 <= g.end <= bound <= |tpl| && bound <= |tpl2| &&
              tpl[..bound] == tpl2[..bound]
    ensures SegAt(tpl, g, from) == SegAt(tpl2, g, from)
  {
    SliceOfTake(tpl, bound, from, g.start);
    SliceOfTake(tpl2, bound, from, g.start);
    SliceOfTake(tpl, bound, g.start + 1, g.end - 1);
    SliceOfTake(tpl2, bound, g.start + 1, g.end - 1);
  }

  function EndAfter(xs: seq<Span>, from: nat): nat
  {
    if xs == [] then from else LastEnd(xs)
  }

  function Append(a: Result<seq<Seg>, CompileError>, b: Result<seq<Seg>, CompileError>): Result<seq<Seg>, CompileError>
  {
    match a
    case Err(e) => Err(e)
    case Ok(segs) => After(segs, b)
  }

  lemma ConsAfter(seg: Result<Seg, CompileError>, more: Result<seq<Seg>, CompileError>,
                  rest: Result<seq<Seg>, CompileError>)
    ensures Cons(seg, Append(more, rest)) == Append(Cons(seg, more), rest)
  {
    if seg.Ok? && more.Ok? && rest.Ok? {
      assert [seg.value] + (more.value + rest.value) == ([seg.value] + more.value) + rest.value;
    }
  }

  lemma {:induction false} SegmentsAppend(tpl: string, xs: seq<Span>, ys: seq<Span>, from: nat)
    requires InOrder(tpl, xs, from) && InOrder(tpl, ys, EndAfter(xs, from))
    ensures InOrder(tpl, xs + ys, from)
    ensures Segments(tpl, xs + ys, from) == Append(Segments(tpl, xs, from), Segments(tpl, ys, EndAfter(xs, from)))
  {
    if xs == [] {
      assert xs + ys == ys;
      AfterNothing(Segments(tpl, ys, from));
    } else {
      assert EndAfter(xs[1..], xs[0].end) == LastEnd(xs);
      SegmentsAppend(tpl, xs[1..], ys, xs[0].end);
      assert (xs + ys)[1..] == xs[1..] + ys;
      InOrderEnds(tpl, xs, from);
      assert (xs + ys)[0] == xs[0];
      ConsAfter(SegAt(tpl, xs[0], from), Segments(tpl, xs[1..], xs[0].end), Segments(tpl, ys, LastEnd(xs)));
    }
  }

  /** The first literal of the path grows by what stands before it. */
  function Prefixed(text: string, segs: seq<Seg>): seq<Seg>
  {
    if segs == [] then [] else [Seg(text + segs[0].raw, segs[0].name)] + segs[1..]
  }

  lemma EarlierStart(tpl: string, ys: seq<Span>, from: nat, e: nat)
    requires InOrder(tpl, ys, from) && e <= from <= |tpl|
    ensures InOrder(tpl, ys, e)
    ensures Segments(tpl, ys, e) == match Segments(tpl, ys, from)
                                    case Err(x) => Err(x)
                                    case Ok(b) => Ok(Prefixed(tpl[e..from], b))
  {
    if ys != [] {
      InOrderEnds(tpl, ys, from);
      var g := ys[0];
      assert tpl[e..g.start] == tpl[e..from] + tpl[from..g.start];
      var b := Segments(tpl, ys, from);
      if b.Ok? {
        assert b.value[1..] == Segments(tpl, ys[1..], g.end).value;
      }
    }
  }

  /** The segments of a nested template from those of its two parts. */
  function Nested(sa: seq<Seg>, la: string, sb: seq<Seg>): seq<Seg>
  {
    sa + Prefixed(TrimSlashes(la), sb)
  }

  function NestedLast(la: string, sb: seq<Seg>, lb: string): string
  {
    if sb == [] then TrimSlashes(la) + lb else lb
  }

  lemma {:induction false} TrimTail(s: string, e: nat)
    requires e <= |s| && (e == 0 || s[e - 1] != '/')
    ensures TrimSlashes(s) == s[..e] + TrimSlashes(s[e..])
    decreases |s|
  {
    if s != [] && s[|s| - 1] == '/' {
      var p := s[..|s| - 1];
      TrimTail(p, e);
      assert p[..e] == s[..e] && s[e..][..|s| - e - 1] == p[e..];
      assert s[e..][|s| - e - 1] == '/';
    } else {
      assert e < |s| ==> s[e..][|s| - e - 1] == s[|s| - 1];
      assert s == s[..e] + s[e..];
    }
  }

  lemma {:induction false} LengthOfSegments(tpl: string, idxs: seq<Span>, from: nat)
    requires InOrder(tpl, idxs, from) && Segments(tpl, idxs, from).Ok?
    ensures |Segments(tpl, idxs, from).value| == |idxs|
  {
    if idxs != [] {
      InOrderEnds(tpl, idxs, from);
      LengthOfSegments(tpl, idxs[1..], idxs[0].end);
    }
  }

  lemma ShiftedTail(t: string, path: string, ib: seq<Span>, e: nat)
    requires InOrder(path, ib, 0) && e <= |t|
    ensures InOrder(t + path, Shift(ib, |t|), e)
    ensures Segments(t + path, Shift(ib, |t|), e) == match Segments(path, ib, 0)
                                                    case Err(x) => Err(x)
                                                    case Ok(b) => Ok(Prefixed(t[e..], b))
  {
    ShiftInOrder(t, path, ib, 0);
    ShiftSegments(t, path, ib, 0);
    EarlierStart(t + path, Shift(ib, |t|), |t|, e);
    assert (t + path)[e..|t|] == t[e..];
  }

  /** Segments of `t + path`, when `t` is the prefix up to somewhere after its last group. */
  lemma SegmentsOfNested(prefix: string, t: string, path: string, ia: seq<Span>, ib: seq<Span>)
    requires InOrder(prefix, ia, 0) && InOrder(path, ib, 0) && t <= prefix && LastEnd(ia) <= |t|
    requires Segments(prefix, ia, 0).Ok?
    ensures InOrder(t + path, ia + Shift(ib, |t|), 0)
    ensures Segments(t + path, ia + Shift(ib, |t|), 0) ==
            match Segments(path, ib, 0)
            case Err(x) => Err(x)
            case Ok(b) => Ok(Segments(prefix, ia, 0).value + Prefixed(t[LastEnd(ia)..], b))
  {
    var tpl, e := t + path, LastEnd(ia);
    assert tpl[..|t|] == prefix[..|t|] == t;
    ShiftedTail(t, path, ib, e);
    SameText(prefix, tpl, ia, 0, |t|);
    SegmentsAppend(tpl, ia, Shift(ib, |t|), 0);
  }

  lemma LastOfNested(t: string, path: string, ia: seq<Span>, ib: seq<Span>)
    requires LastEnd(ia) <= |t| && LastEnd(ib) <= |path|
    ensures var e := LastEnd(ia + Shift(ib, |t|));
            e <= |t + path| &&
            (t + path)[e..] == if ib == [] then t[LastEnd(ia)..] + path else path[LastEnd(ib)..]
  {
    var all := ia + Shift(ib, |t|);
    if ib == [] {
      assert all == ia;
    } else {
      assert all[|all| - 1] == Shift(ib, |t|)[|ib| - 1];
    }
  }

  lemma {:induction false} ValidTrimmed(s: string)
    requires Valid(s)
    ensures Valid(TrimSlashes(s))
    decreases |s|
  {
    if s != [] && s[|s| - 1] == '/' {
      ValidWithoutLast(s);
      ValidTrimmed(s[..|s| - 1]);
    }
  }

  /** Where the parent's literals are valid, those of the nested template are valid exactly if the path's are. */
  lemma NestedLiterals(sa: seq<Seg>, la: string, sb: seq<Seg>, lb: string)
    requires ValidLiterals(sa, la)
    ensures ValidLiterals(Nested(sa, la, sb), NestedLast(la, sb, lb)) <==> ValidLiterals(sb, lb)
  {
    var t, n, all := TrimSlashes(la), |sa|, Nested(sa, la, sb);
    ValidTrimmed(la);
    if sb == [] {
      ValidConcat(t, lb);
      assert all == sa;
    } else {
      ValidConcat(t, sb[0].raw);
      assert all[n].raw == t + sb[0].raw;
      assert forall k :: 1 <= k < |sb| ==> all[n + k] == sb[k];
      assert forall k :: 0 <= k < n ==> all[k] == sa[k];
      assert forall k :: n < k < |all| ==> all[k] == sb[k - n];
    }
  }

  /** The literals run together where the two templates meet. */
  lemma PartsOfNested(prefix: string, path: string)
    requires Parts(prefix).Ok?
    ensures Parts(path).Err? ==> Parts(TrimSlashes(prefix) + path) == Parts(path)
    ensures Parts(path).Ok? ==>
      var (sa, la) := Parts(prefix).value;
      var (sb, lb) := Parts(path).value;
      Parts(TrimSlashes(prefix) + path) == Ok((Nested(sa, la, sb), NestedLast(la, sb, lb)))
  {
    var t := TrimSlashes(prefix);
    var ia := Groups(prefix).value;
    GroupsInOrder(prefix);
    GroupsInOrder(path);
    GroupsInOrder(t + path);
    GroupsOfNested(prefix, path);
    PrefixEnds(prefix);
    assert t[LastEnd(ia)..] == TrimSlashes(prefix[LastEnd(ia)..]);
    if Groups(path).Some? {
      var ib := Groups(path).value;
      SegmentsOfNested(prefix, t, path, ia, ib);
      LastOfNested(t, path, ia, ib);
      if Segments(path, ib, 0).Ok? {
        LengthOfSegments(path, ib, 0);
        assert ib == [] ==> path[LastEnd(ib)..] == path;
      }
    }
  }

  /**
   Nesting a path under a prefix: the variables are the prefix's, then the path's; the
   literals run together where the two meet; and an ill-formed path is refused as such.
   */
  lemma CompiledOfNested(prefix: string, path: string, typ: RegexpType)
    requires typ != QueryType && Compiled(prefix, typ).Ok?
    ensures Compiled(path, typ).Err? ==> Compiled(TrimSlashes(prefix) + path, typ) == Compiled(path, typ)
    ensures Compiled(path, typ).Ok? ==>
      var a, b := Compiled(prefix, typ).value, Compiled(path, typ).value;
      var whole := Compiled(TrimSlashes(prefix) + path, typ);
      whole.Ok? && whole.value.segs == Nested(a.segs, a.last, b.segs) &&
      whole.value.last == NestedLast(a.last, b.segs, b.last) &&
      Names(whole.value.segs) == Names(a.segs) + Names(b.segs)
  {
    PartsOfNested(prefix, path);
    if Parts(path).Ok? {
      var (sa, la) := Parts(prefix).value;
      var (sb, lb) := Parts(path).value;
      NestedLiterals(sa, la, sb, lb);
      NestedNames(sa, la, sb);
    }
  }

  lemma NestedNames(sa: seq<Seg>, la: string, sb: seq<Seg>)
    ensures Names(Nested(sa, la, sb)) == Names(sa) + Names(sb)
  {
  }

  /** The last group of a prefix survives the trimming. */
  lemma PrefixEnds(prefix: string)
    requires Groups(prefix).Some?
    ensures var e := LastEnd(Groups(prefix).value);
            e <= |TrimSlashes(prefix)| && e <= |prefix| && TrimSlashes(prefix) == prefix[..e] + TrimSlashes(prefix[e..])
  {
    var idxs := Groups(prefix).value;
    GroupsInOrder(prefix);
    GroupsMeaning(prefix);
    if idxs != [] {
      assert IsOuter(prefix, idxs[|idxs| - 1]);
    }
    TrimTail(prefix, LastEnd(idxs));
  }
}
