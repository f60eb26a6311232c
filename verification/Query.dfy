/** The scan of a raw URL query for one key (findFirstQueryKey of regexp.go). */
module Query {
  import opened Wrappers
  import opened Text

  datatype Pair<+S> = Pair(key: S, value: S)

  /** The decoded pair a piece of the query stands for; `None` if it is empty or badly escaped. */
  function ParsePair(piece: string): Option<Pair<string>>
  {
    if piece == [] then None
    else
      var i := IndexAny(piece, "=");
      var rawValue := if i < |piece| then piece[i + 1..] else [];
      match (QueryUnescape(piece[..i]), QueryUnescape(rawValue))
      case (Some(k), Some(v)) => Some(Pair(k, v))
      case _ => None
  }

  /** The first `=` ends the key, and what follows is the value, other signs included. */
  lemma PairAtFirstSign(k: string, v: string)
    requires '=' !in k
    ensures ParsePair(k + ['='] + v) ==
            if QueryUnescape(k).Some? && QueryUnescape(v).Some?
            then Some(Pair(QueryUnescape(k).value, QueryUnescape(v).value)) else None
  {
    CutBehind(k, '=', v);
    IndexAnyUnique(k + ['='] + v, "=", |k|);
  }

  /** Without one the whole piece is a key with an empty value; an empty piece is no pair. */
  lemma PairWithoutSign(piece: string)
    requires '=' !in piece
    ensures ParsePair(piece) ==
            if piece != [] && QueryUnescape(piece).Some? then Some(Pair(QueryUnescape(piece).value, "")) else None
  {
    IndexAnyUnique(piece, "=", |piece|);
    assert piece[..|piece|] == piece;
  }

  /** Plain text is taken as it is. */
  lemma PlainPair(k: string, v: string)
    requires '=' !in k && '%' !in k && '+' !in k && '%' !in v && '+' !in v
    ensures ParsePair(k + ['='] + v) == Some(Pair(k, v))
    ensures ParsePair(k) == if k == [] then None else Some(Pair(k, ""))
  {
    PairAtFirstSign(k, v);
    PairWithoutSign(k);
    UnescapePlain(k);
    UnescapePlain(v);
  }

  function PairOf(piece: string): seq<Pair<string>>
  {
    match ParsePair(piece)
    case None => []
    case Some(p) => [p]
  }

  /** The pairs of all pieces that have one, in order. */
  function ParsePairs(pieces: seq<string>): seq<Pair<string>>
  {
    if pieces == [] then [] else PairOf(pieces[0]) + ParsePairs(pieces[1..])
  }

  /** The simple form: split the whole query, keep the well-formed pairs. */
  function QueryPairs(rawQuery: string): seq<Pair<string>>
  {
    ParsePairs(Split(rawQuery, "&;"))
  }

  lemma FirstAndRest(a: seq<string>, b: seq<string>)
    requires a != []
    ensures (a + b)[0] == a[0] && (a + b)[1..] == a[1..] + b
  {
  }

  lemma {:induction false} ParsePairsOfConcat(a: seq<string>, b: seq<string>)
    ensures ParsePairs(a + b) == ParsePairs(a) + ParsePairs(b)
  {
    if a == [] {
      assert a + b == b;
    } else {
      ParsePairsOfConcat(a[1..], b);
      FirstAndRest(a, b);
      Assoc(PairOf(a[0]), ParsePairs(a[1..]), ParsePairs(b));
    }
  }

  /** An ampersand and a semicolon part a query alike, and nothing else parts it. */
  lemma PartsOfQuery(a: string, c: char, b: string, piece: string)
    requires c == '&' || c == ';'
    requires '&' !in piece && ';' !in piece
    ensures QueryPairs(a + [c] + b) == QueryPairs(a) + QueryPairs(b)
    ensures QueryPairs(piece) == PairOf(piece)
  {
    var cs := "&;";
    assert c in cs;
    SplitOfConcat(a, c, b, cs);
    ParsePairsOfConcat(Split(a, cs), Split(b, cs));
    assert forall k :: 0 <= k < |piece| ==> piece[k] in piece && piece[k] !in cs;
    SplitWhole(piece, cs);
    assert ParsePairs([piece]) == PairOf(piece) + ParsePairs([]);
  }

  function FirstValue(pairs: seq<Pair<string>>, key: string): Option<string>
  {
    if pairs == [] then None
    else if pairs[0].key == key then Some(pairs[0].value)
    else FirstValue(pairs[1..], key)
  }

  /** FirstValue is the value of the first pair with the key, and `None` only if there is none. */
  lemma {:induction false} FirstValueMeaning(pairs: seq<Pair<string>>, key: string)
    ensures FirstValue(pairs, key) == None <==> forall i :: 0 <= i < |pairs| ==> pairs[i].key != key
    ensures forall i :: 0 <= i < |pairs| && pairs[i].key == key && (forall j :: 0 <= j < i ==> pairs[j].key != key)
                        ==> FirstValue(pairs, key) == Some(pairs[i].value)
  {
    if pairs != [] {
      FirstValueMeaning(pairs[1..], key);
      assert forall i :: 1 <= i < |pairs| ==> pairs[i] == pairs[1..][i - 1];
      forall i | 1 <= i < |pairs| && pairs[i].key == key && forall j :: 0 <= j < i ==> pairs[j].key != key
        ensures FirstValue(pairs, key) == Some(pairs[i].value)
      {
        assert forall j :: 0 <= j < i - 1 ==> pairs[1..][j].key != key by {
          forall j | 0 <= j < i - 1 ensures pairs[1..][j].key != key {
            assert pairs[j + 1].key != key;
          }
        }
        assert pairs[1..][i - 1].key == key;
      }
    }
  }

  /** What is left of the query after its first piece. */
  function Rest(query: string): string
  {
    var i := IndexAny(query, "&;");
    if i == |query| then "" else query[i + 1..]
  }

  /** The value a single piece gives the key. */
  function Lookup(piece: string, key: string): Option<string>
  {
    match ParsePair(piece)
    case None => None
    case Some(p) => if p.key == key then Some(p.value) else None
  }

  /** One piece decides, or the rest of the query does. */
  lemma FirstValueStep(query: string, key: string)
    ensures var r := Lookup(query[..IndexAny(query, "&;")], key);
            FirstValue(QueryPairs(query), key) ==
            if r.Some? then r else FirstValue(QueryPairs(Rest(query)), key)
  {
    var i := IndexAny(query, "&;");
    var pieces := Split(query, "&;");
    assert pieces[0] == query[..i];
    assert ParsePairs(pieces[1..]) == QueryPairs(Rest(query)) by {
      assert ParsePairs(Split("", "&;")) == [];
      assert pieces[1..] == if i == |query| then [] else Split(Rest(query), "&;");
    }
    match ParsePair(pieces[0])
    case None =>
      assert [] + ParsePairs(pieces[1..]) == ParsePairs(pieces[1..]);
    case Some(p) =>
      assert ([p] + ParsePairs(pieces[1..]))[1..] == ParsePairs(pieces[1..]);
  }

  lemma RestIsShorter(query: string)
    requires query != ""
    ensures |Rest(query)| < |query|
  {
  }

  lemma NothingInNoQuery(key: string)
    ensures FirstValue(QueryPairs(""), key) == None
  {
    assert ParsePairs(Split("", "&;")) == [];
  }

  /**
   Scans the query piece by piece and decodes only what it must: a raw key shorter than the
   wanted key is skipped undecoded. The answer is that of the simple form.
   */
  method FindFirstQueryKey(rawQuery: string, key: string) returns (value: string, ok: bool)
    ensures FirstValue(QueryPairs(rawQuery), key) == if ok then Some(value) else None
    ensures !ok ==> value == ""
  {
    var query := rawQuery;
    ghost var goal := FirstValue(QueryPairs(rawQuery), key);
    while |query| > 0
      invariant goal == FirstValue(QueryPairs(query), key)
      decreases |query|
    {
      FirstValueStep(query, key);
      RestIsShorter(query);
      var i := IndexAny(query, "&;");
      var piece := query[..i];
      query := if i == |query| then "" else query[i + 1..];
      var found := ReadPiece(piece, key);
      if found.Some? {
        return found.value, true;
      }
    }
    NothingInNoQuery(key);
    return "", false;
  }

  /** The part of the scan that handles one piece. */
  method ReadPiece(piece: string, key: string) returns (r: Option<string>)
    ensures r == Lookup(piece, key)
  {
    if |piece| == 0 {
      return None;
    }
    var e := IndexAny(piece, "=");
    var rawKey := piece[..e];
    var rawValue := if e < |piece| then piece[e + 1..] else "";
    if |rawKey| < |key| {
      // cannot be the key: unescaping never lengthens
      return None;
    }
    var k := QueryUnescape(rawKey);
    if k == None || k.value != key {
      return None;
    }
    return QueryUnescape(rawValue);
  }

  // ---------------------------------------------------------------- round trip

  function EncodePair(p: Pair<Bytes>): string
  {
    QueryEscape(p.key) + ['='] + QueryEscape(p.value)
  }

  function EncodeQuery(pairs: seq<Pair<Bytes>>): string
  {
    if pairs == [] then ""
    else if |pairs| == 1 then EncodePair(pairs[0])
    else EncodePair(pairs[0]) + ['&'] + EncodeQuery(pairs[1..])
  }

  lemma EscapedIsClean(s: Bytes)
    ensures forall k :: 0 <= k < |QueryEscape(s)| ==> QueryEscape(s)[k] !in "&;="
  {
    forall k | 0 <= k < |QueryEscape(s)| ensures QueryEscape(s)[k] !in "&;=" {
      var c := QueryEscape(s)[k];
      assert c != '&' && c != ';' && c != '=';
    }
  }

  lemma EncodedPairIsClean(p: Pair<Bytes>)
    ensures forall k :: 0 <= k < |EncodePair(p)| ==> EncodePair(p)[k] !in "&;"
  {
    var s, k, v := EncodePair(p), QueryEscape(p.key), QueryEscape(p.value);
    EscapedIsClean(p.key);
    EscapedIsClean(p.value);
    forall i | 0 <= i < |s| ensures s[i] !in "&;" {
      if i < |k| {
        assert s[i] == k[i] && k[i] !in "&;=";
      } else if i > |k| {
        assert s[i] == v[i - |k| - 1] && v[i - |k| - 1] !in "&;=";
      }
    }
  }

  lemma ParseOfEncodePair(p: Pair<Bytes>)
    ensures ParsePair(EncodePair(p)) == Some(p)
    ensures forall k :: 0 <= k < |EncodePair(p)| ==> EncodePair(p)[k] !in "&;"
  {
    var s, k, v := EncodePair(p), QueryEscape(p.key), QueryEscape(p.value);
    EncodedPairIsClean(p);
    EscapedIsClean(p.key);
    CutBehind(k, '=', v);
    forall i | 0 <= i < |k| ensures s[i] !in "=" {
      assert s[i] == k[i] && k[i] !in "&;=";
    }
    IndexAnyUnique(s, "=", |k|);
    UnescapeOfEscape(p.key);
    UnescapeOfEscape(p.value);
  }

  /** An encoded query reads back as the pairs it was made from. */
  lemma {:induction false} PairsOfEncodeQuery(pairs: seq<Pair<Bytes>>)
    ensures QueryPairs(EncodeQuery(pairs)) == pairs
  {
    if pairs == [] {
      assert ParsePairs(Split("", "&;")) == [];
    } else {
      ParseOfEncodePair(pairs[0]);
      if |pairs| == 1 {
        SplitWhole(EncodePair(pairs[0]), "&;");
        assert ParsePairs([EncodePair(pairs[0])][1..]) == [];
      } else {
        PairsOfEncodeQuery(pairs[1..]);
        SplitHead(EncodePair(pairs[0]), '&', EncodeQuery(pairs[1..]), "&;");
        var pieces := Split(EncodeQuery(pairs), "&;");
        assert pieces[1..] == Split(EncodeQuery(pairs[1..]), "&;");
      }
    }
  }
}
