/** The first-level brace groups of a route template (braceIndices of regexp.go). */
module Braces {
  import opened Wrappers

  /** A brace group occupies the positions from `start` up to, not including, `end`. */
  datatype Span = Span(start: nat, end: nat)

  /** How far a scan has come: the nesting level, where the open group began, the closed groups. */
  datatype Scan = Unbalanced | Scan(level: nat, open: nat, spans: seq<Span>)

  function Step(st: Scan, c: char, i: nat): Scan
  {
    match st
    case Unbalanced => Unbalanced
    case Scan(level, open, spans) =>
      if c == '{' then Scan(level + 1, if level == 0 then i else open, spans)
      else if c == '}' then
        if level == 0 then Unbalanced
        else Scan(level - 1, open, if level == 1 then spans + [Span(open, i + 1)] else spans)
      else st
  }

  /** The scan of the first `n` characters. */
  function Run(s: string, n: nat): Scan
    requires n <= |s|
  {
    if n == 0 then Scan(0, 0, []) else Step(Run(s, n - 1), s[n - 1], n - 1)
  }

  /** The groups of `s`, or `None` when its braces are unbalanced. */
  function Groups(s: string): Option<seq<Span>>
  {
    match Run(s, |s|)
    case Unbalanced => None
    case Scan(level, _, spans) => if level == 0 then Some(spans) else None
  }

  method BraceIndices(s: string) returns (r: Option<seq<Span>>)
    ensures r == Groups(s)
  {
    var level, idx := 0, 0;
    var idxs: seq<Span> := [];
    for i := 0 to |s|
      invariant level >= 0
      invariant Run(s, i) == Scan(level, idx, idxs)
    {
      if s[i] == '{' {
        level := level + 1;
        if level == 1 {
          idx := i;
        }
      } else if s[i] == '}' {
        level := level - 1;
        if level == 0 {
          idxs := idxs + [Span(idx, i + 1)];
        } else if level < 0 {
          UnbalancedStays(s, i + 1);
          return None;
        }
      }
    }
    return if level != 0 then None else Some(idxs);
  }

  lemma {:induction false} UnbalancedStays(s: string, i: nat)
    requires i <= |s| && Run(s, i) == Unbalanced
    ensures Run(s, |s|) == Unbalanced
    decreases |s| - i
  {
    if i < |s| {
      UnbalancedStays(s, i + 1);
    }
  }

  // ---------------------------------------------------------------- what the groups are

  /** Opening minus closing braces among the first `n` characters. */
  function Depth(s: string, n: nat): int
    requires n <= |s|
  {
    if n == 0 then 0
    else Depth(s, n - 1) + (if s[n - 1] == '{' then 1 else if s[n - 1] == '}' then -1 else 0)
  }

  ghost predicate Balanced(s: string)
  {
    Depth(s, |s|) == 0 && forall i :: 0 <= i <= |s| ==> Depth(s, i) >= 0
  }

  /** A group opens at depth 0, stays above it, and returns to it at its last brace. */
  ghost predicate IsOuter(s: string, g: Span)
  {
    && g.start < g.end <= |s|
    && s[g.start] == '{' && s[g.end - 1] == '}'
    && Depth(s, g.start) == 0 && Depth(s, g.end) == 0
    && forall j :: g.start < j < g.end ==> Depth(s, j) > 0
  }

  predicate Covered(spans: seq<Span>, i: nat)
  {
    exists k :: 0 <= k < |spans| && spans[k].start <= i < spans[k].end
  }

  ghost predicate Ordered(spans: seq<Span>)
  {
    forall k, l :: 0 <= k < l < |spans| ==> spans[k].end <= spans[l].start
  }

  /** Ordered, disjoint outermost groups within the first `n` characters, and no brace outside them. */
  ghost predicate OuterGroups(s: string, n: nat, spans: seq<Span>)
    requires n <= |s|
  {
    && (forall k :: 0 <= k < |spans| ==> IsOuter(s, spans[k]) && spans[k].end <= n)
    && Ordered(spans)
    && (forall i {:trigger Covered(spans, i)} :: 0 <= i < n && !Covered(spans, i) ==> s[i] != '{' && s[i] != '}')
  }

  /** What a scan has established about the text read so far. */
  ghost predicate Accounts(s: string, n: nat, st: Scan)
    requires n <= |s|
  {
    match st
    case Unbalanced => exists i :: 0 <= i <= n && Depth(s, i) < 0
    case Scan(level, open, spans) =>
      && level == Depth(s, n)
      && (forall i :: 0 <= i <= n ==> Depth(s, i) >= 0)
      && if level == 0 then OuterGroups(s, n, spans)
         else
           && open < n && s[open] == '{' && Depth(s, open) == 0
           && (forall j :: open < j <= n ==> Depth(s, j) > 0)
           && OuterGroups(s, open, spans)
  }

  lemma {:induction false} RunAccounts(s: string, n: nat)
    requires n <= |s|
    ensures Accounts(s, n, Run(s, n))
  {
    if n > 0 {
      RunAccounts(s, n - 1);
      var st := Run(s, n - 1);
      if st.Scan? && st.level == 1 && s[n - 1] == '}' {
        GroupCloses(s, n, st.open, st.spans);
      }
      if st.Scan? && st.level == 0 && s[n - 1] == '}' {
        assert Depth(s, n) < 0;
      }
    }
  }

  lemma CoveredMore(spans: seq<Span>, g: Span, i: nat)
    requires !Covered(spans + [g], i)
    ensures !Covered(spans, i) && !(g.start <= i < g.end)
  {
    var all := spans + [g];
    assert all[|spans|] == g;
    forall k | 0 <= k < |spans| ensures !(spans[k].start <= i < spans[k].end) {
      assert all[k] == spans[k];
    }
  }

  /** The group opened at `open` ends just before `n`. */
  lemma GroupCloses(s: string, n: nat, open: nat, spans: seq<Span>)
    requires open < n <= |s| && IsOuter(s, Span(open, n))
    requires OuterGroups(s, open, spans)
    ensures OuterGroups(s, n, spans + [Span(open, n)])
  {
    var all := spans + [Span(open, n)];
    forall k | 0 <= k < |all| ensures IsOuter(s, all[k]) && all[k].end <= n {
      assert k < |spans| ==> all[k] == spans[k] && IsOuter(s, spans[k]);
    }
    forall i {:trigger Covered(all, i)} | 0 <= i < n && !Covered(all, i) ensures s[i] != '{' && s[i] != '}' {
      CoveredMore(spans, Span(open, n), i);
    }
  }

  /** Succeeds exactly on balanced text, with exactly its outermost groups. */
  lemma GroupsMeaning(s: string)
    ensures Groups(s).Some? <==> Balanced(s)
    ensures Groups(s).Some? ==> OuterGroups(s, |s|, Groups(s).value)
  {
    RunAccounts(s, |s|);
  }

  /** There is only one list of outermost groups. */
  lemma OuterGroupsUnique(s: string, a: seq<Span>, b: seq<Span>)
    requires OuterGroups(s, |s|, a) && OuterGroups(s, |s|, b)
    ensures a == b
  {
    SameGroups(s, a, b, 0);
  }

  lemma {:induction false} SameGroups(s: string, a: seq<Span>, b: seq<Span>, k: nat)
    requires OuterGroups(s, |s|, a) && OuterGroups(s, |s|, b)
    requires k <= |a| && k <= |b| && forall j :: 0 <= j < k ==> a[j] == b[j]
    ensures a == b
    decreases |a| - k
  {
    if k < |a| {
      NextCovered(s, a, b, k);
      NextCovered(s, b, a, k);
      SameEnd(s, a[k], b[k]);
      SameGroups(s, a, b, k + 1);
    } else if k < |b| {
      NextCovered(s, b, a, k);
    }
  }

  lemma NextCovered(s: string, a: seq<Span>, b: seq<Span>, k: nat)
    requires OuterGroups(s, |s|, a) && OuterGroups(s, |s|, b)
    requires k < |a| && k <= |b| && forall j :: 0 <= j < k ==> a[j] == b[j]
    ensures k < |b| && b[k].start <= a[k].start
  {
    OpenerCovered(s, a, b, k);
    StartsNoLater(a, b, k);
  }

  lemma OpenerCovered(s: string, a: seq<Span>, b: seq<Span>, k: nat)
    requires OuterGroups(s, |s|, a) && OuterGroups(s, |s|, b) && k < |a|
    ensures Covered(b, a[k].start)
    ensures forall j :: 0 <= j < |b| ==> b[j].start < b[j].end
  {
    assert IsOuter(s, a[k]);
    forall j | 0 <= j < |b| ensures b[j].start < b[j].end {
      assert IsOuter(s, b[j]);
    }
  }

  /** If b covers where a[k] begins, b has a k-th group, which begins no later. */
  lemma StartsNoLater(a: seq<Span>, b: seq<Span>, k: nat)
    requires Ordered(a) && Ordered(b) && k < |a| && k <= |b|
    requires forall j :: 0 <= j < k ==> a[j] == b[j]
    requires forall j :: 0 <= j < |b| ==> b[j].start < b[j].end
    requires Covered(b, a[k].start)
    ensures k < |b| && b[k].start <= a[k].start
  {
    var l :| 0 <= l < |b| && b[l].start <= a[k].start < b[l].end;
    assert l >= k;
    assert l > k ==> b[k].end <= b[l].start;
  }

  lemma SameEnd(s: string, g: Span, h: Span)
    requires IsOuter(s, g) && IsOuter(s, h) && g.start == h.start
    ensures g == h
  {
  }

  // ---------------------------------------------------------------- concatenation

  function Shift(spans: seq<Span>, n: nat): (r: seq<Span>)
    ensures |r| == |spans|
    ensures forall k :: 0 <= k < |spans| ==> r[k] == Span(spans[k].start + n, spans[k].end + n)
  {
    seq(|spans|, k requires 0 <= k < |spans| => Span(spans[k].start + n, spans[k].end + n))
  }

  lemma {:induction false} RunOfPrefix(s: string, t: string, n: nat)
    requires n <= |s|
    ensures Run(s + t, n) == Run(s, n)
  {
    if n > 0 {
      RunOfPrefix(s, t, n - 1);
    }
  }

  lemma {:induction false} RunOfConcat(s: string, t: string, n: nat)
    requires Groups(s).Some? && n <= |t|
    ensures match Run(t, n)
            case Unbalanced => Run(s + t, |s| + n) == Unbalanced
            case Scan(level, open, spans) =>
              && Run(s + t, |s| + n).Scan? && Run(s + t, |s| + n).level == level
              && (level > 0 ==> Run(s + t, |s| + n).open == |s| + open)
              && Run(s + t, |s| + n).spans == Groups(s).value + Shift(spans, |s|)
  {
    if n == 0 {
      RunOfPrefix(s, t, |s|);
    } else {
      RunOfConcat(s, t, n - 1);
      assert (s + t)[|s| + n - 1] == t[n - 1];
      match Run(t, n - 1)
      case Unbalanced =>
      case Scan(level, open, spans) =>
        if level == 1 && t[n - 1] == '}' {
          assert Shift(spans + [Span(open, n)], |s|) == Shift(spans, |s|) + [Span(|s| + open, |s| + n)];
        }
    }
  }

  /** The groups of a concatenation are the first text's groups, then the second's, shifted. */
  lemma GroupsOfConcat(s: string, t: string)
    requires Groups(s).Some?
    ensures Groups(s + t) == match Groups(t)
                             case None => None
                             case Some(b) => Some(Groups(s).value + Shift(b, |s|))
  {
    RunOfConcat(s, t, |t|);
  }

  /** `strings.TrimRight(s, "/")` */
  function TrimSlashes(s: string): (r: string)
    ensures r <= s
    ensures r != [] ==> r[|r| - 1] != '/'
    ensures forall k :: |r| <= k < |s| ==> s[k] == '/'
  {
    if s == [] || s[|s| - 1] != '/' then s else TrimSlashes(s[..|s| - 1])
  }

  lemma {:induction false} GroupsOfTrim(s: string)
    ensures Groups(TrimSlashes(s)) == Groups(s)
  {
    if s != [] && s[|s| - 1] == '/' {
      var p := s[..|s| - 1];
      GroupsOfTrim(p);
      assert s == p + ['/'];
      RunOfPrefix(p, ['/'], |p|);
    }
  }

  /** What nested paths rely on: the prefix loses its trailing slashes and keeps its groups. */
  lemma GroupsOfNested(prefix: string, path: string)
    requires Groups(prefix).Some?
    ensures Groups(TrimSlashes(prefix) + path) ==
            match Groups(path)
            case None => None
            case Some(b) => Some(Groups(prefix).value + Shift(b, |TrimSlashes(prefix)|))
  {
    GroupsOfTrim(prefix);
    GroupsOfConcat(TrimSlashes(prefix), path);
  }
}
