/**
 Why a template does not compile (newRouteRegexp of regexp.go): braces that do not balance, or the
 first group without a name, with an empty pattern, or with a pattern of the user's own.
 */
module TemplateErrors {
  import opened Wrappers
  import opened Text
  import opened Braces
  import opened Regexp

  /** A name and a pattern after the first colon must not be empty; a name alone gets the pattern of its type. */
  lemma VarNameMeaning(name: string, pattern: string)
    requires ':' !in name
    ensures VarName(name) == if name == "" then Err(MissingNameOrPattern) else Ok(name)
    ensures VarName(name + [':'] + pattern) ==
            Err(if name == "" || pattern == "" then MissingNameOrPattern else UserPattern)
  {
    var inner := name + [':'] + pattern;
    assert inner[|name|] == ':';
    forall k | 0 <= k < |name| ensures inner[k] !in ":" {
      assert inner[k] == name[k];
    }
    IndexAnyUnique(inner, ":", |name|);
  }

  /** What the text between the braces of a group gives. */
  function NameAt(tpl: string, g: Span): Result<string, CompileError>
  {
    if g.start + 2 <= g.end <= |tpl| then VarName(tpl[g.start + 1..g.end - 1]) else Err(UnbalancedBraces)
  }

  /** The first group that is no name fails with this error. */
  predicate FirstBad(tpl: string, idxs: seq<Span>, k: nat, e: CompileError)
  {
    k < |idxs| && NameAt(tpl, idxs[k]) == Err(e) && forall j :: 0 <= j < k ==> NameAt(tpl, idxs[j]).Ok?
  }

  predicate AllNames(tpl: string, idxs: seq<Span>)
  {
    forall k :: 0 <= k < |idxs| ==> NameAt(tpl, idxs[k]).Ok?
  }

  lemma BehindName(tpl: string, idxs: seq<Span>, k: nat, e: CompileError)
    requires idxs != [] && NameAt(tpl, idxs[0]).Ok?
    ensures FirstBad(tpl, idxs[1..], k, e) ==> FirstBad(tpl, idxs, k + 1, e)
    ensures AllNames(tpl, idxs[1..]) ==> AllNames(tpl, idxs)
  {
    assert forall j :: 0 < j < |idxs| ==> idxs[j] == idxs[1..][j - 1];
  }

  lemma NameOfSeg(tpl: string, g: Span, from: nat)
    requires from <= g.start && g.start + 2 <= g.end <= |tpl|
    ensures match SegAt(tpl, g, from) case Err(e) => NameAt(tpl, g) == Err(e) case Ok(_) => NameAt(tpl, g).Ok?
    ensures NameAt(tpl, g) != Err(UnbalancedBraces)
  {
  }

  lemma {:induction false} SegmentsFailAt(tpl: string, idxs: seq<Span>, from: nat) returns (k: nat)
    requires InOrder(tpl, idxs, from)
    ensures match Segments(tpl, idxs, from)
            case Err(e) => FirstBad(tpl, idxs, k, e) && e != UnbalancedBraces
            case Ok(_) => AllNames(tpl, idxs)
  {
    k := 0;
    if idxs != [] {
      InOrderEnds(tpl, idxs, from);
      NameOfSeg(tpl, idxs[0], from);
      if SegAt(tpl, idxs[0], from).Ok? {
        var l := SegmentsFailAt(tpl, idxs[1..], idxs[0].end);
        var r := Segments(tpl, idxs[1..], idxs[0].end);
        BehindName(tpl, idxs, l, if r.Err? then r.error else UserPattern);
        k := l + 1;
      }
    }
  }

  lemma FirstBadUnique(tpl: string, idxs: seq<Span>, j: nat, k: nat, d: CompileError, e: CompileError)
    requires FirstBad(tpl, idxs, j, d)
    ensures FirstBad(tpl, idxs, k, e) ==> d == e
    ensures !AllNames(tpl, idxs)
  {
    assert j < k ==> NameAt(tpl, idxs[j]) == Err(d);
  }

  /** Compiling fails with unbalanced braces exactly if braces do not balance. */
  lemma UnbalancedIff(tpl: string, typ: RegexpType)
    requires typ == QueryType ==> '=' in tpl
    ensures Compiled(tpl, typ) == Err(UnbalancedBraces) <==> !Balanced(tpl)
  {
    GroupsMeaning(tpl);
    GroupsInOrder(tpl);
    if Groups(tpl).Some? {
      var k := SegmentsFailAt(tpl, Groups(tpl).value, 0);
    }
  }

  /** It fails for a name or a pattern exactly as the first outermost group fails that holds no plain name. */
  lemma CompileFailsIff(tpl: string, typ: RegexpType, e: CompileError)
    requires (typ == QueryType ==> '=' in tpl) && (e == MissingNameOrPattern || e == UserPattern)
    ensures Compiled(tpl, typ) == Err(e) <==>
            Groups(tpl).Some? && exists k: nat :: FirstBad(tpl, Groups(tpl).value, k, e)
  {
    GroupsInOrder(tpl);
    if Groups(tpl).Some? {
      var idxs := Groups(tpl).value;
      var k := SegmentsFailAt(tpl, idxs, 0);
      if j: nat :| FirstBad(tpl, idxs, j, e) {
        FirstBadUnique(tpl, idxs, j, k, e, match Segments(tpl, idxs, 0) case Err(d) => d case Ok(_) => e);
      }
    }
  }
}
