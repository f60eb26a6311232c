/** Matching a request against a compiled template, and the variables it yields (regexp.go). */
module Matching {
  import opened Wrappers
  import opened Text
  import opened Query
  import opened Regexp
  import opened Utf8

  // ---------------------------------------------------------------- greedy matching

  datatype Class = NotSlash | NotDot | AnyText

  function DefaultClass(typ: RegexpType): Class
  {
    match typ
    case QueryType => AnyText
    case HostType => NotDot
    case _ => NotSlash
  }

  predicate InClass(cls: Class, v: string)
  {
    match cls
    case NotSlash => v != [] && '/' !in v
    case NotDot => v != [] && '.' !in v
    case AnyText => '\n' !in v
  }

  /** Whether the expression can end with the text `s` still to be read. */
  predicate TailOk(rr: RouteRegexp, s: string)
  {
    var n := Reads(rr.last, s);
    n.Some? && (rr.typ == PrefixType || (if rr.loose then '\n' !in s[n.value..] else n.value == |s|))
  }

  /** The groups of the leftmost-first, greedy match of the segments, from the start of `s`. */
  function Extract(rr: RouteRegexp, segs: seq<Seg>, s: string): Option<seq<string>>
    decreases |segs|, 1, 0
  {
    if segs == [] then if TailOk(rr, s) then Some([]) else None
    else
      match Reads(segs[0].raw, s)
      case None => None
      case Some(k) => Longest(rr, segs, s[k..], |s| - k)
  }

  /** The first group takes as many runes as it can, at most `n` bytes. */
  function Longest(rr: RouteRegexp, segs: seq<Seg>, s: string, n: nat): Option<seq<string>>
    requires segs != [] && n <= |s|
    decreases |segs|, 0, n
  {
    var r := if Boundary(s, n) && InClass(DefaultClass(rr.typ), s[..n]) then Extract(rr, segs[1..], s[n..]) else None;
    if r.Some? then Some([s[..n]] + r.value)
    else if n == 0 then None
    else Longest(rr, segs, s, n - 1)
  }

  function Submatches(rr: RouteRegexp, s: string): Option<seq<string>>
  {
    Extract(rr, rr.segs, s)
  }

  // ---------------------------------------------------------------- what a match is

  predicate AllIn(cls: Class, vals: seq<string>)
  {
    forall k :: 0 <= k < |vals| ==> InClass(cls, vals[k])
  }

  /** A value of the class, ending where a rune ends, at the start of `s`. */
  predicate Takes(rr: RouteRegexp, s: string, v: string)
  {
    v <= s && Boundary(s, |v|) && InClass(DefaultClass(rr.typ), v)
  }

  /** `s` reads as the literals interleaved with values of the class, then something the end allows. */
  predicate Fits(rr: RouteRegexp, segs: seq<Seg>, s: string, vals: seq<string>)
    decreases |segs|
  {
    |vals| == |segs| &&
    if segs == [] then TailOk(rr, s)
    else
      var k := Reads(segs[0].raw, s);
      k.Some? && FitsFrom(rr, segs, s[k.value..], vals)
  }

  /** The same after the first literal. */
  predicate FitsFrom(rr: RouteRegexp, segs: seq<Seg>, s: string, vals: seq<string>)
    requires |vals| == |segs| > 0
    decreases |segs|, 0
  {
    Takes(rr, s, vals[0]) && Fits(rr, segs[1..], s[|vals[0]|..], vals[1..])
  }

  lemma {:induction false} LongestSound(rr: RouteRegexp, segs: seq<Seg>, s: string, n: nat)
    requires segs != [] && n <= |s| && Longest(rr, segs, s, n).Some?
    ensures var vals := Longest(rr, segs, s, n).value; |vals| == |segs| && FitsFrom(rr, segs, s, vals)
    decreases |segs|, 0, n
  {
    var r := if Boundary(s, n) && InClass(DefaultClass(rr.typ), s[..n]) then Extract(rr, segs[1..], s[n..]) else None;
    if r.Some? {
      ExtractSound(rr, segs[1..], s[n..]);
      assert ([s[..n]] + r.value)[1..] == r.value;
    } else {
      LongestSound(rr, segs, s, n - 1);
    }
  }

  /** Every answer is a match. */
  lemma {:induction false} ExtractSound(rr: RouteRegexp, segs: seq<Seg>, s: string)
    ensures Extract(rr, segs, s).Some? ==> Fits(rr, segs, s, Extract(rr, segs, s).value)
    decreases |segs|, 1, 0
  {
    if segs != [] && Extract(rr, segs, s).Some? {
      var k := Reads(segs[0].raw, s).value;
      LongestSound(rr, segs, s[k..], |s| - k);
    }
  }

  /** Leftmost groups are compared first, and the longer value is preferred. */
  predicate Prefers(a: seq<string>, b: seq<string>)
    requires |a| == |b|
  {
    a == [] || |a[0]| > |b[0]| || (a[0] == b[0] && Prefers(a[1..], b[1..]))
  }

  lemma PrefersSame(v: string, a: seq<string>, b: seq<string>)
    requires |b| == |a| + 1 && b[0] == v && Prefers(a, b[1..])
    ensures Prefers([v] + a, b)
  {
    assert ([v] + a)[1..] == a;
  }

  lemma {:induction false} LongestComplete(rr: RouteRegexp, segs: seq<Seg>, s: string, n: nat, vals: seq<string>)
    requires |vals| == |segs| > 0 && n <= |s| && FitsFrom(rr, segs, s, vals) && |vals[0]| <= n
    ensures Longest(rr, segs, s, n).Some?
    ensures |Longest(rr, segs, s, n).value| == |vals| && Prefers(Longest(rr, segs, s, n).value, vals)
    decreases |segs|, 0, n
  {
    var r := if Boundary(s, n) && InClass(DefaultClass(rr.typ), s[..n]) then Extract(rr, segs[1..], s[n..]) else None;
    if |vals[0]| == n {
      ExtractComplete(rr, segs[1..], s[n..], vals[1..]);
      PrefersSame(s[..n], r.value, vals);
    } else if r.Some? {
      ExtractSound(rr, segs[1..], s[n..]);
      var longer := [s[..n]] + r.value;
      assert Longest(rr, segs, s, n) == Some(longer) && |longer[0]| > |vals[0]|;
    } else {
      LongestComplete(rr, segs, s, n - 1, vals);
    }
  }

  /** Every match is found, or one that is preferred to it. */
  lemma {:induction false} ExtractComplete(rr: RouteRegexp, segs: seq<Seg>, s: string, vals: seq<string>)
    requires Fits(rr, segs, s, vals)
    ensures Extract(rr, segs, s).Some?
    ensures |Extract(rr, segs, s).value| == |vals| && Prefers(Extract(rr, segs, s).value, vals)
    decreases |segs|, 1, 0
  {
    if segs != [] {
      var k := Reads(segs[0].raw, s).value;
      LongestComplete(rr, segs, s[k..], |s| - k, vals);
    }
  }

  /** The whole expression reads the subject with these values. */
  predicate ReadAs(rr: RouteRegexp, s: string, vals: seq<string>)
  {
    Fits(rr, rr.segs, s, vals)
  }

  /** A subject is accepted exactly when it can be read; the groups are such a reading, and no other is preferred. */
  lemma SubmatchesMeaning(rr: RouteRegexp, s: string)
    ensures Submatches(rr, s).Some? <==> exists vals :: ReadAs(rr, s, vals)
    ensures Submatches(rr, s).Some? ==>
      && ReadAs(rr, s, Submatches(rr, s).value)
      && forall vals :: ReadAs(rr, s, vals) ==>
           |vals| == |Submatches(rr, s).value| && Prefers(Submatches(rr, s).value, vals)
  {
    ExtractSound(rr, rr.segs, s);
    if Submatches(rr, s).Some? {
      assert ReadAs(rr, s, Submatches(rr, s).value);
    }
    forall vals | ReadAs(rr, s, vals)
      ensures Submatches(rr, s).Some? && |Submatches(rr, s).value| == |vals| && Prefers(Submatches(rr, s).value, vals)
    {
      ExtractComplete(rr, rr.segs, s, vals);
    }
  }

  // ---------------------------------------------------------------- filled templates

  function Fill(segs: seq<Seg>, vals: seq<string>): string
    requires |segs| == |vals|
  {
    if segs == [] then "" else segs[0].raw + (vals[0] + Fill(segs[1..], vals[1..]))
  }

  /** A template filled with values: what the reverse template builds. */
  function Reverse(rr: RouteRegexp, vals: seq<string>): string
    requires |vals| == |rr.segs|
  {
    Fill(rr.segs, vals) + rr.last
  }

  /** What follows the first value. */
  function AfterFirst(segs: seq<Seg>, last: string, v: seq<string>): string
    requires |v| == |segs| > 0
  {
    Fill(segs[1..], v[1..]) + last
  }

  /** No value ends within a rune of the text it is put into. */
  predicate WholeRunes(segs: seq<Seg>, last: string, vals: seq<string>)
    requires |vals| == |segs|
  {
    segs == [] ||
    (Boundary(vals[0] + AfterFirst(segs, last, vals), |vals[0]|) && WholeRunes(segs[1..], last, vals[1..]))
  }

  /** What may follow the template: anything for a prefix, one line for an empty query value, else nothing. */
  predicate MayFollow(rr: RouteRegexp, tail: string)
  {
    rr.typ == PrefixType || (if rr.loose then '\n' !in tail else tail == "")
  }

  predicate FilledThen(rr: RouteRegexp, segs: seq<Seg>, s: string, vals: seq<string>, tail: string)
  {
    |vals| == |segs| && AllIn(DefaultClass(rr.typ), vals) && s == Fill(segs, vals) + (rr.last + tail) &&
    MayFollow(rr, tail) && WholeRunes(segs, rr.last + tail, vals)
  }

  predicate Filled(rr: RouteRegexp, s: string, vals: seq<string>)
  {
    |vals| == |rr.segs| && AllIn(DefaultClass(rr.typ), vals) && s == Reverse(rr, vals) &&
    WholeRunes(rr.segs, rr.last, vals)
  }

  /** Nothing may follow the template. */
  predicate Closed(rr: RouteRegexp)
  {
    rr.typ != PrefixType && !rr.loose
  }

  /** No literal holds U+FFFD. */
  predicate NoReplacement(segs: seq<Seg>, last: string)
  {
    !HasReplacement(last) && forall k :: 0 <= k < |segs| ==> !HasReplacement(segs[k].raw)
  }

  lemma FillSplit(segs: seq<Seg>, last: string, v: seq<string>)
    requires |v| == |segs| > 0
    ensures Fill(segs, v) + last == segs[0].raw + (v[0] + AfterFirst(segs, last, v))
    ensures segs[0].raw <= Fill(segs, v) + last
    ensures (Fill(segs, v) + last)[|segs[0].raw|..] == v[0] + AfterFirst(segs, last, v)
  {
    var raw, rest := segs[0].raw, Fill(segs[1..], v[1..]);
    Assoc(raw, v[0] + rest, last);
    Assoc(v[0], rest, last);
    assert (raw + (v[0] + (rest + last)))[|raw|..] == v[0] + (rest + last);
  }

  /** With plain literals, what fits the segments is them, filled with whole runes, and something that may follow. */
  lemma {:induction false} FitsFills(rr: RouteRegexp, segs: seq<Seg>, s: string, vals: seq<string>)
    returns (tail: string)
    requires ValidLiterals(segs, rr.last) && NoReplacement(segs, rr.last) && Fits(rr, segs, s, vals)
    ensures FilledThen(rr, segs, s, vals, tail)
    decreases |segs|
  {
    if segs == [] {
      ReadsExactly(rr.last, s);
      tail := s[|rr.last|..];
      assert "" + (rr.last + tail) == s;
    } else {
      var raw, v := segs[0].raw, vals[0];
      ReadsExactly(raw, s);
      var rest := s[|raw|..][|v|..];
      tail := FitsFills(rr, segs[1..], rest, vals[1..]);
      TakenApart(s, raw, v);
      FillSplit(segs, rr.last + tail, vals);
      AllInTail(DefaultClass(rr.typ), vals);
    }
  }

  lemma TakenApart(s: string, a: string, b: string)
    requires a <= s && b <= s[|a|..]
    ensures s == a + (b + s[|a|..][|b|..]) && s[|a|..] == b + s[|a|..][|b|..]
  {
  }

  lemma {:induction false} FilledFits(rr: RouteRegexp, segs: seq<Seg>, s: string, vals: seq<string>, tail: string)
    requires ValidLiterals(segs, rr.last) && NoReplacement(segs, rr.last) && FilledThen(rr, segs, s, vals, tail)
    ensures Fits(rr, segs, s, vals)
    decreases |segs|
  {
    if segs == [] {
      assert "" + (rr.last + tail) == rr.last + tail;
      ReadsExactly(rr.last, s);
      assert s[|rr.last|..] == tail;
    } else {
      var v, rest := vals[0], AfterFirst(segs, rr.last + tail, vals);
      FillSplit(segs, rr.last + tail, vals);
      ReadsExactly(segs[0].raw, s);
      AllInTail(DefaultClass(rr.typ), vals);
      assert (v + rest)[|v|..] == rest;
      FilledFits(rr, segs[1..], rest, vals[1..], tail);
    }
  }

  lemma AllInTail(cls: Class, vals: seq<string>)
    requires vals != []
    ensures AllIn(cls, vals) <==> InClass(cls, vals[0]) && AllIn(cls, vals[1..])
  {
    assert forall k :: 1 <= k < |vals| ==> vals[k] == vals[1..][k - 1];
  }

  /**
   A subject is accepted exactly when it begins with the template's literals interleaved with
   values of the class that cut no rune, and goes on with something that may follow. The values
   extracted are such values.
   */
  lemma AcceptedIffFilled(rr: RouteRegexp, s: string)
    requires ValidLiterals(rr.segs, rr.last) && NoReplacement(rr.segs, rr.last)
    ensures Submatches(rr, s).Some? <==> exists vals, tail :: FilledThen(rr, rr.segs, s, vals, tail)
    ensures Submatches(rr, s).Some? ==> exists tail :: FilledThen(rr, rr.segs, s, Submatches(rr, s).value, tail)
  {
    SubmatchesMeaning(rr, s);
    if vals, tail :| FilledThen(rr, rr.segs, s, vals, tail) {
      FilledFits(rr, rr.segs, s, vals, tail);
      assert ReadAs(rr, s, vals);
    }
    if Submatches(rr, s).Some? {
      var tail := FitsFills(rr, rr.segs, s, Submatches(rr, s).value);
    }
  }

  lemma FilledThenNothing(rr: RouteRegexp, s: string, vals: seq<string>, tail: string)
    requires Closed(rr)
    ensures FilledThen(rr, rr.segs, s, vals, tail) <==> tail == "" && Filled(rr, s, vals)
  {
    assert rr.last + "" == rr.last;
  }

  /** Where nothing may follow, the subject is the filled template. */
  lemma ClosedIffFilled(rr: RouteRegexp, s: string)
    requires Closed(rr) && ValidLiterals(rr.segs, rr.last) && NoReplacement(rr.segs, rr.last)
    ensures Submatches(rr, s).Some? <==> exists vals :: Filled(rr, s, vals)
    ensures Submatches(rr, s).Some? ==> Filled(rr, s, Submatches(rr, s).value)
  {
    AcceptedIffFilled(rr, s);
    if vals :| Filled(rr, s, vals) {
      FilledThenNothing(rr, s, vals, "");
    }
    if Submatches(rr, s).Some? {
      var tail :| FilledThen(rr, rr.segs, s, Submatches(rr, s).value, tail);
      FilledThenNothing(rr, s, Submatches(rr, s).value, tail);
    }
  }

  // ---------------------------------------------------------------- U+FFFD in literals

  /** The shortest value of a class. */
  function Least(cls: Class): string
  {
    if cls == AnyText then "" else "x"
  }

  /** The shortest subject that matches. */
  function ShortestSubject(rr: RouteRegexp, segs: seq<Seg>): string
  {
    if segs == [] then Shortest(rr.last)
    else Shortest(segs[0].raw) + (Least(DefaultClass(rr.typ)) + ShortestSubject(rr, segs[1..]))
  }

  function Leasts(rr: RouteRegexp, n: nat): seq<string>
  {
    seq(n, _ => Least(DefaultClass(rr.typ)))
  }

  lemma LeastTakes(rr: RouteRegexp, rest: string)
    ensures var v := Least(DefaultClass(rr.typ)); Takes(rr, v + rest, v) && (v + rest)[|v|..] == rest
  {
    var v := Least(DefaultClass(rr.typ));
    if v != "" {
      AsciiIsBoundary(v + rest, 1);
    }
  }

  lemma LeastsTail(rr: RouteRegexp, n: nat)
    requires n > 0
    ensures Leasts(rr, n)[0] == Least(DefaultClass(rr.typ)) && Leasts(rr, n)[1..] == Leasts(rr, n - 1)
  {
  }

  lemma {:induction false} ShortestFits(rr: RouteRegexp, segs: seq<Seg>)
    requires ValidLiterals(segs, rr.last)
    ensures Fits(rr, segs, ShortestSubject(rr, segs), Leasts(rr, |segs|))
    decreases |segs|
  {
    if segs == [] {
      ShortestReads(rr.last, "");
      assert Shortest(rr.last) + "" == Shortest(rr.last);
    } else {
      var v, rest := Least(DefaultClass(rr.typ)), ShortestSubject(rr, segs[1..]);
      ShortestReads(segs[0].raw, v + rest);
      ShortestFits(rr, segs[1..]);
      LeastTakes(rr, rest);
      LeastsTail(rr, |segs|);
      assert FitsFrom(rr, segs, v + rest, Leasts(rr, |segs|));
      assert (Shortest(segs[0].raw) + (v + rest))[|Shortest(segs[0].raw)|..] == v + rest;
    }
  }

  /** It is shorter than any filled template if some literal holds U+FFFD. */
  lemma {:induction false} ShortestIsShorter(rr: RouteRegexp, segs: seq<Seg>, vals: seq<string>)
    requires ValidLiterals(segs, rr.last) && |vals| == |segs| && AllIn(DefaultClass(rr.typ), vals)
    ensures |ShortestSubject(rr, segs)| <= |Fill(segs, vals) + rr.last|
    ensures !NoReplacement(segs, rr.last) ==> |ShortestSubject(rr, segs)| < |Fill(segs, vals) + rr.last|
    decreases |segs|
  {
    if segs == [] {
      ShortestLength(rr.last);
    } else {
      ShortestLength(segs[0].raw);
      AllInTail(DefaultClass(rr.typ), vals);
      ShortestIsShorter(rr, segs[1..], vals[1..]);
      FillSplit(segs, rr.last, vals);
      assert forall k :: 1 <= k < |segs| ==> segs[k] == segs[1..][k - 1];
    }
  }

  /**
   An expression also reads U+FFFD where the subject has a byte that is not UTF-8. So putting
   the extracted values back between the literals gives the subject, up to what may follow, for
   every accepted subject if and only if no literal holds U+FFFD.
   */
  lemma RebuiltIff(rr: RouteRegexp)
    requires ValidLiterals(rr.segs, rr.last)
    ensures (forall s :: Rebuilt(rr, s)) <==> NoReplacement(rr.segs, rr.last)
  {
    if NoReplacement(rr.segs, rr.last) {
      forall s ensures Rebuilt(rr, s) {
        RebuiltWhole(rr, s);
      }
    } else {
      var s := ShortestSubject(rr, rr.segs);
      ShortestFits(rr, rr.segs);
      ExtractComplete(rr, rr.segs, s, Leasts(rr, |rr.segs|));
      ExtractSound(rr, rr.segs, s);
      var vals := Submatches(rr, s).value;
      FitsAllIn(rr, rr.segs, s, vals);
      ShortestIsShorter(rr, rr.segs, vals);
      assert !Rebuilt(rr, s);
    }
  }

  predicate Rebuilt(rr: RouteRegexp, s: string)
  {
    var vals := Submatches(rr, s);
    vals.Some? ==>
      |vals.value| == |rr.segs| && Reverse(rr, vals.value) <= s && MayFollow(rr, s[|Reverse(rr, vals.value)|..])
  }

  lemma RebuiltWhole(rr: RouteRegexp, s: string)
    requires ValidLiterals(rr.segs, rr.last) && NoReplacement(rr.segs, rr.last)
    ensures Rebuilt(rr, s)
  {
    AcceptedIffFilled(rr, s);
    if Submatches(rr, s).Some? {
      var vals := Submatches(rr, s).value;
      var tail :| FilledThen(rr, rr.segs, s, vals, tail);
      Assoc(Fill(rr.segs, vals), rr.last, tail);
      assert s == Reverse(rr, vals) + tail && s[|Reverse(rr, vals)|..] == tail;
    }
  }

  lemma {:induction false} FitsAllIn(rr: RouteRegexp, segs: seq<Seg>, s: string, vals: seq<string>)
    requires Fits(rr, segs, s, vals)
    ensures |vals| == |segs| && AllIn(DefaultClass(rr.typ), vals)
    decreases |segs|
  {
    if segs != [] {
      var k := Reads(segs[0].raw, s).value;
      FitsAllIn(rr, segs[1..], s[k..][|vals[0]|..], vals[1..]);
      AllInTail(DefaultClass(rr.typ), vals);
    }
  }

  // ---------------------------------------------------------------- when runes are whole

  /** No two variables stand side by side. */
  predicate Apart(segs: seq<Seg>)
  {
    forall k :: 1 <= k < |segs| ==> segs[k].raw != []
  }

  /** Then no value can cut a rune, because valid literals start with one. */
  lemma {:induction false} ApartIsWhole(segs: seq<Seg>, last: string, vals: seq<string>)
    requires Apart(segs) && ValidLiterals(segs, last) && |vals| == |segs|
    ensures WholeRunes(segs, last, vals)
  {
    if segs != [] {
      var v, rest := vals[0], AfterFirst(segs, last, vals);
      if |segs| == 1 {
        assert rest == last;
      } else {
        FillSplit(segs[1..], last, vals[1..]);
        assert segs[1].raw <= rest;
      }
      assert rest != [] ==> !Cont(rest[0]);
      StartIsBoundary(v + rest, |v|);
      assert forall k :: 1 <= k < |segs[1..]| ==> segs[1..][k] == segs[k + 1];
      ApartIsWhole(segs[1..], last, vals[1..]);
    }
  }

  /** Nor can values that end in a byte below 0x80. */
  lemma {:induction false} AsciiIsWhole(segs: seq<Seg>, last: string, vals: seq<string>)
    requires |vals| == |segs|
    requires forall k :: 0 <= k < |vals| ==> vals[k] != [] && vals[k][|vals[k]| - 1] as int < 0x80
    ensures WholeRunes(segs, last, vals)
  {
    if segs != [] {
      AsciiIsBoundary(vals[0] + AfterFirst(segs, last, vals), |vals[0]|);
      AsciiIsWhole(segs[1..], last, vals[1..]);
    }
  }

  // ---------------------------------------------------------------- separators

  /** The character that no value of the class holds. */
  function Separator(cls: Class): char
  {
    match cls
    case NotSlash => '/'
    case NotDot => '.'
    case AnyText => '\n'
  }

  /** The character stands between any two variables. */
  predicate Separated(segs: seq<Seg>, c: char)
  {
    forall k :: 1 <= k < |segs| ==> c in segs[k].raw
  }

  ghost predicate Unambiguous(rr: RouteRegexp)
  {
    forall s, v, w :: Filled(rr, s, v) && Filled(rr, s, w) ==> v == w
  }

  /** The first separator after a value is the first one of the next literal. */
  lemma FirstSeparator(segs: seq<Seg>, last: string, v: seq<string>, c: char)
    requires |v| == |segs| >= 2 && c in segs[1].raw && c !in v[0]
    ensures IndexAny(v[0] + AfterFirst(segs, last, v), [c]) == |v[0]| + IndexAny(segs[1].raw, [c])
  {
    var raw := segs[1].raw;
    var x := AfterFirst(segs, last, v);
    Assoc(raw, v[1] + Fill(segs[1..][1..], v[1..][1..]), last);
    var i := IndexAny(raw, [c]);
    assert i < |raw| by {
      var j :| 0 <= j < |raw| && raw[j] == c;
      assert raw[j] in [c];
    }
    IndexAnyUnique(v[0] + x, [c], |v[0]| + i);
  }

  lemma SameLengthSplit(a: string, x: string, b: string, y: string)
    requires a + x == b + y && |a| == |b|
    ensures a == b && x == y
  {
    assert a == (a + x)[..|a|] && b == (b + y)[..|b|];
    assert x == (a + x)[|a|..] && y == (b + y)[|b|..];
  }

  lemma FirstValueDetermined(segs: seq<Seg>, last: string, v: seq<string>, w: seq<string>, c: char)
    requires |v| == |w| == |segs| > 0 && Fill(segs, v) + last == Fill(segs, w) + last
    requires |segs| > 1 ==> c in segs[1].raw && c !in v[0] && c !in w[0]
    ensures v[0] == w[0] && AfterFirst(segs, last, v) == AfterFirst(segs, last, w)
  {
    var x, y := AfterFirst(segs, last, v), AfterFirst(segs, last, w);
    FillSplit(segs, last, v);
    FillSplit(segs, last, w);
    assert v[0] + x == w[0] + y;
    if |segs| == 1 {
      assert x == last && y == last;
    } else {
      FirstSeparator(segs, last, v, c);
      FirstSeparator(segs, last, w, c);
    }
    assert |v[0] + x| == |w[0] + y|;
    SameLengthSplit(v[0], x, w[0], y);
  }

  lemma {:induction false} SeparatedDetermines(
      segs: seq<Seg>, last: string, v: seq<string>, w: seq<string>, cls: Class)
    requires Separated(segs, Separator(cls)) && |v| == |w| == |segs|
    requires AllIn(cls, v) && AllIn(cls, w)
    requires Fill(segs, v) + last == Fill(segs, w) + last
    ensures v == w
  {
    if segs != [] {
      AllInTail(cls, v);
      AllInTail(cls, w);
      FirstValueDetermined(segs, last, v, w, Separator(cls));
      assert Separated(segs[1..], Separator(cls)) by {
        assert forall k :: 1 <= k < |segs[1..]| ==> segs[1..][k] == segs[k + 1];
      }
      SeparatedDetermines(segs[1..], last, v[1..], w[1..], cls);
      assert v == [v[0]] + v[1..] && w == [w[0]] + w[1..];
    }
  }

  /** Two ways to fill: the literal without a separator before variable `k` can belong to either neighbour. */
  function Ambiguous(segs: seq<Seg>, k: nat, first: bool): (v: seq<string>)
    requires 1 <= k < |segs|
    ensures |v| == |segs|
  {
    var long := ['x'] + segs[k].raw + ['x'];
    seq(|segs|, i requires 0 <= i < |segs| =>
      if i == k - 1 then (if first then long else "x") else if i == k then (if first then "x" else long) else "x")
  }

  lemma Shared(before: string, raw: string, rest: string)
    ensures before + ((['x'] + raw + ['x']) + (raw + (['x'] + rest))) ==
            before + (['x'] + (raw + ((['x'] + raw + ['x']) + rest)))
  {
  }

  lemma {:induction false} AmbiguousSameText(segs: seq<Seg>, k: nat)
    requires 1 <= k < |segs|
    ensures Fill(segs, Ambiguous(segs, k, true)) == Fill(segs, Ambiguous(segs, k, false))
  {
    var a, b := Ambiguous(segs, k, true), Ambiguous(segs, k, false);
    if k == 1 {
      var raw := segs[1].raw;
      assert a[1..][1..] == b[1..][1..];
      var rest := Fill(segs[1..][1..], a[1..][1..]);
      assert Fill(segs[1..], a[1..]) == raw + (['x'] + rest);
      assert Fill(segs[1..], b[1..]) == raw + ((['x'] + raw + ['x']) + rest);
      Shared(segs[0].raw, raw, rest);
    } else {
      AmbiguousSameText(segs[1..], k - 1);
      assert a[1..] == Ambiguous(segs[1..], k - 1, true);
      assert b[1..] == Ambiguous(segs[1..], k - 1, false);
    }
  }

  lemma AmbiguousFilled(rr: RouteRegexp, k: nat)
    requires 1 <= k < |rr.segs| && Separator(DefaultClass(rr.typ)) !in rr.segs[k].raw
    ensures var a, b := Ambiguous(rr.segs, k, true), Ambiguous(rr.segs, k, false);
            a != b && Filled(rr, Reverse(rr, a), a) && Filled(rr, Reverse(rr, a), b)
  {
    var a, b := Ambiguous(rr.segs, k, true), Ambiguous(rr.segs, k, false);
    AmbiguousSameText(rr.segs, k);
    AsciiIsWhole(rr.segs, rr.last, a);
    AsciiIsWhole(rr.segs, rr.last, b);
    assert |a[k]| == 1 && |b[k]| > 1;
  }

  /**
   Exactly the templates with a separator between any two variables can be read in only one
   way: a slash in paths, a dot in hosts, a newline in query values.
   */
  lemma UnambiguousIffSeparated(rr: RouteRegexp)
    ensures Unambiguous(rr) <==> Separated(rr.segs, Separator(DefaultClass(rr.typ)))
  {
    var cls := DefaultClass(rr.typ);
    if Separated(rr.segs, Separator(cls)) {
      forall s, v, w | Filled(rr, s, v) && Filled(rr, s, w) ensures v == w {
        SeparatedDetermines(rr.segs, rr.last, v, w, cls);
      }
    } else {
      var k :| 1 <= k < |rr.segs| && Separator(cls) !in rr.segs[k].raw;
      AmbiguousFilled(rr, k);
    }
  }

  /** A path template of a slash and two variables side by side. */
  predicate SideBySide(rr: RouteRegexp)
  {
    rr.typ == PathType && !rr.loose && rr.last == "" && |rr.segs| == 2 && rr.segs[0].raw == "/" && rr.segs[1].raw == ""
  }

  lemma TwoValues(rr: RouteRegexp, text: string, vals: seq<string>)
    requires SideBySide(rr) && Filled(rr, "/" + text, vals)
    ensures text == vals[0] + vals[1] && vals[0] != "" && vals[1] != "" && Boundary(text, |vals[0]|)
  {
    FillSplit(rr.segs, "", vals);
    assert text == ("/" + text)[1..] == vals[0] + AfterFirst(rr.segs, "", vals);
    assert Fill(rr.segs[1..][1..], vals[1..][1..]) == "";
    assert vals[1] + "" == vals[1] && AfterFirst(rr.segs, "", vals) == vals[1];
  }

  /** Two variables side by side need two runes, however many bytes one rune has. */
  lemma OneRuneIsNotTwoValues(rr: RouteRegexp, rune: string)
    requires SideBySide(rr) && rune != [] && RuneLen(rune) == |rune|
    ensures Submatches(rr, "/" + rune) == None
  {
    ClosedIffFilled(rr, "/" + rune);
    if vals :| Filled(rr, "/" + rune, vals) {
      TwoValues(rr, rune, vals);
    }
  }

  /** Extracting from a filled template gives the values it was filled with. */
  lemma ExtractOfFilled(rr: RouteRegexp, vals: seq<string>)
    requires Closed(rr) && Separated(rr.segs, Separator(DefaultClass(rr.typ)))
    requires ValidLiterals(rr.segs, rr.last) && NoReplacement(rr.segs, rr.last)
    requires |vals| == |rr.segs| && AllIn(DefaultClass(rr.typ), vals)
    ensures Submatches(rr, Reverse(rr, vals)) == Some(vals)
  {
    var s := Reverse(rr, vals);
    ApartIsWhole(rr.segs, rr.last, vals);
    assert Filled(rr, s, vals);
    ClosedIffFilled(rr, s);
    UnambiguousIffSeparated(rr);
  }

  // ---------------------------------------------------------------- variables

  type Vars = map<string, string>

  function SetVars(names: seq<string>, vals: seq<string>, vars: Vars): Vars
    requires |names| == |vals|
  {
    if names == [] then vars else SetVars(names[1..], vals[1..], vars[names[0] := vals[0]])
  }

  predicate Distinct(names: seq<string>)
  {
    forall i, j :: 0 <= i < j < |names| ==> names[i] != names[j]
  }

  /** Distinct names all keep their values; other variables are left alone. */
  lemma {:induction false} SetVarsMeaning(names: seq<string>, vals: seq<string>, vars: Vars)
    requires |names| == |vals| && Distinct(names)
    ensures forall k :: 0 <= k < |names| ==>
              names[k] in SetVars(names, vals, vars) && SetVars(names, vals, vars)[names[k]] == vals[k]
    ensures forall x :: x !in names ==> (x in SetVars(names, vals, vars) <==> x in vars)
    ensures forall x :: x !in names && x in vars ==> SetVars(names, vals, vars)[x] == vars[x]
  {
    if names != [] {
      var vars' := vars[names[0] := vals[0]];
      assert forall k :: 1 <= k < |names| ==> names[k] == names[1..][k - 1] && vals[k] == vals[1..][k - 1];
      SetVarsMeaning(names[1..], vals[1..], vars');
      assert names[0] !in names[1..];
      assert forall x :: x !in names ==> x !in names[1..] && x != names[0];
    }
  }

  method ExtractVars(names: seq<string>, vals: seq<string>, vars: Vars) returns (output: Vars)
    requires |names| == |vals|
    ensures output == SetVars(names, vals, vars)
  {
    output := vars;
    assert names[0..] == names && vals[0..] == vals;
    for i := 0 to |names|
      invariant SetVars(names, vals, vars) == SetVars(names[i..], vals[i..], output)
    {
      assert names[i..][1..] == names[i + 1..] && vals[i..][1..] == vals[i + 1..];
      output := output[names[i] := vals[i]];
    }
  }

  // ---------------------------------------------------------------- requests

  /** The parts of a request that routing reads. */
  datatype Request = Request(path: string, rawQuery: string, isAbs: bool, urlHost: string, host: string)

  function GetHost(req: Request): string
  {
    if req.isAbs then req.urlHost else req.host
  }

  /** The one query parameter the template is about, as key=value; empty if it is absent. */
  function GetURLQuery(rr: RouteRegexp, req: Request): string
  {
    var key := rr.template[..IndexAny(rr.template, "=")];
    match FirstValue(QueryPairs(req.rawQuery), key)
    case None => ""
    case Some(v) => key + "=" + v
  }

  /** The text of the request that the expression is matched against. */
  function Subject(rr: RouteRegexp, req: Request): string
  {
    match rr.typ
    case HostType =>
      var host := GetHost(req);
      if rr.wildcardHostPort then host[..IndexAny(host, ":")] else host
    case QueryType => GetURLQuery(rr, req)
    case _ => req.path
  }

  predicate Accepts(rr: RouteRegexp, req: Request)
  {
    Submatches(rr, Subject(rr, req)).Some?
  }

  method Match(rr: RouteRegexp, req: Request) returns (r: bool)
    ensures r == Accepts(rr, req)
  {
    var subject := req.path;
    if rr.typ == HostType {
      subject := GetHost(req);
      if rr.wildcardHostPort {
        subject := subject[..IndexAny(subject, ":")];
      }
    } else if rr.typ == QueryType {
      var key := rr.template[..IndexAny(rr.template, "=")];
      var val, ok := FindFirstQueryKey(req.rawQuery, key);
      subject := if ok then key + "=" + val else "";
    }
    return Submatches(rr, subject).Some?;
  }

  /** The matchers of a route that carry variables. */
  datatype RegexpGroup = RegexpGroup(host: Option<RouteRegexp>, path: Option<RouteRegexp>, queries: seq<RouteRegexp>)

  function VarsOf(rr: RouteRegexp, req: Request, vars: Vars): Vars
  {
    ExtractSound(rr, rr.segs, Subject(rr, req));
    match Submatches(rr, Subject(rr, req))
    case None => vars
    case Some(vals) => SetVars(Names(rr.segs), vals, vars)
  }

  function QueryVars(queries: seq<RouteRegexp>, req: Request, vars: Vars): Vars
  {
    if queries == [] then vars else QueryVars(queries[1..], req, VarsOf(queries[0], req, vars))
  }

  /** Host variables, then path variables, then those of the queries in order. */
  function MatchVars(g: RegexpGroup, req: Request, vars: Vars): Vars
  {
    var v1 := if g.host.Some? then VarsOf(g.host.value, req, vars) else vars;
    var v2 := if g.path.Some? then VarsOf(g.path.value, req, v1) else v1;
    QueryVars(g.queries, req, v2)
  }

  method SetMatch(g: RegexpGroup, req: Request, vars: Vars) returns (output: Vars)
    ensures output == MatchVars(g, req, vars)
  {
    output := vars;
    if g.host.Some? {
      output := SetFrom(g.host.value, req, output);
    }
    if g.path.Some? {
      output := SetFrom(g.path.value, req, output);
    }
    assert g.queries[0..] == g.queries;
    for i := 0 to |g.queries|
      invariant MatchVars(g, req, vars) == QueryVars(g.queries[i..], req, output)
    {
      assert g.queries[i..][1..] == g.queries[i + 1..];
      output := SetFrom(g.queries[i], req, output);
    }
  }

  method SetFrom(rr: RouteRegexp, req: Request, vars: Vars) returns (output: Vars)
    ensures output == VarsOf(rr, req, vars)
  {
    var matches := Submatches(rr, Subject(rr, req));
    if matches.None? {
      return vars;
    }
    ExtractSound(rr, rr.segs, Subject(rr, req));
    output := ExtractVars(Names(rr.segs), matches.value, vars);
  }

  /**
   From template text to variables: a path template of `{name}` variables with distinct names
   and a slash between any two of them accepts the path built from any slash-free, non-empty
   values, and binds every name to its value.
   */
  lemma PathVariables(segs: seq<Seg>, last: string, vals: seq<string>, req: Request, vars: Vars)
    requires PlainTemplate(segs, last) && Separated(segs, '/') && Distinct(Names(segs))
    requires ValidLiterals(segs, last) && NoReplacement(segs, last)
    requires |vals| == |segs| && AllIn(NotSlash, vals)
    requires req.path == Fill(segs, vals) + last
    ensures Compiled(Render(segs, last), PathType).Ok?
    ensures var rr := Compiled(Render(segs, last), PathType).value;
            && Accepts(rr, req)
            && forall k :: 0 <= k < |segs| ==>
                 segs[k].name in VarsOf(rr, req, vars) && VarsOf(rr, req, vars)[segs[k].name] == vals[k]
  {
    CompileOfRender(segs, last, PathType);
    var rr := Compiled(Render(segs, last), PathType).value;
    assert rr.segs == segs && rr.last == last && rr.typ == PathType && !rr.loose;
    ExtractOfFilled(rr, vals);
    SetVarsMeaning(Names(segs), vals, vars);
  }
}
