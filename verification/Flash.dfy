/**
 Flash data carried from one request to the next in a cookie (Store and ReadFlashData of
 ctrl/controller.go, sanitizeValue of context/output.go).

 Store writes the entries of a map in whatever order the map yields them.
 */
module Flash {
  import opened Wrappers
  import opened Text

  type FlashMap = m: map<string, string> | forall k :: k in m ==> IsBytes(k) && IsBytes(m[k])

  predicate IsBytes(s: string)
  {
    forall i :: 0 <= i < |s| ==> s[i] as int < 256
  }

  /** What stands between a key and its value. */
  function Delimiter(sep: Bytes): (d: Bytes)
    ensures |d| >= 2
  {
    ['#'] + sep + ['#']
  }

  function Frame(k: string, v: string, d: Bytes): (r: Bytes)
    requires IsBytes(k) && IsBytes(v)
  {
    ['\0'] + (k + d + v) + ['\0']
  }

  /** The text Store builds when the map yields its keys in this order. */
  function Written(order: seq<string>, m: FlashMap, d: Bytes): (r: Bytes)
    requires forall k :: k in order ==> k in m
  {
    if order == [] then "" else Frame(order[0], m[order[0]], d) + Written(order[1..], m, d)
  }

  /** The order lists every key of the map once. */
  ghost predicate Lists(order: seq<string>, m: FlashMap)
  {
    (forall k :: k in order <==> k in m) && forall i, j :: 0 <= i < j < |order| ==> order[i] != order[j]
  }

  /** It lists all keys but those left. */
  ghost predicate ListsBut(order: seq<string>, m: FlashMap, left: set<string>)
  {
    && (forall k :: k in m <==> k in left || k in order)
    && (forall k :: k in order ==> k !in left)
    && (forall i, j :: 0 <= i < j < |order| ==> order[i] != order[j])
  }

  lemma ListsMore(order: seq<string>, m: FlashMap, left: set<string>, key: string)
    requires ListsBut(order, m, left) && key in left
    ensures ListsBut(order + [key], m, left - {key})
  {
  }

  lemma ListsAll(order: seq<string>, m: FlashMap)
    requires ListsBut(order, m, {})
    ensures Lists(order, m)
  {
  }

  /** sanitizeValue */
  function SanitizeChar(c: char): char
  {
    if c == '\n' || c == '\r' || c == ';' then ' ' else c
  }

  function Sanitize(v: string): string
  {
    seq(|v|, i requires 0 <= i < |v| => SanitizeChar(v[i]))
  }

  /** The entry a piece of the text holds, when it splits into exactly two parts. */
  function EntryOf(piece: string, d: Bytes): Option<(string, string)>
    requires |d| > 0
  {
    var kv := SplitStr(piece, d);
    if piece != [] && |kv| == 2 then Some((kv[0], kv[1])) else None
  }

  function ReadPieces(m: map<string, string>, pieces: seq<string>, d: Bytes): map<string, string>
    requires |d| > 0
    decreases |pieces|
  {
    if pieces == [] then m
    else
      var e := EntryOf(pieces[0], d);
      ReadPieces(if e.Some? then m[e.value.0 := e.value.1] else m, pieces[1..], d)
  }

  /** What ReadFlashData makes of a cookie value; a value that does not unescape counts as empty. */
  function ReadCookie(m: map<string, string>, value: string, d: Bytes): map<string, string>
    requires |d| > 0
  {
    var v := QueryUnescape(value);
    ReadPieces(m, Split(if v.Some? then v.value else "", "\0"), d)
  }

  // ---------------------------------------------------------------- what the pieces are made of

  /** A piece with an entry is the key, the delimiter and the value, with no earlier and no later delimiter. */
  lemma {:induction false} EntryMeaning(k: string, v: string, d: Bytes)
    requires |d| > 0
    ensures EntryOf(k + d + v, d) == Some((k, v)) <==>
            !Contains(k + d[..|d| - 1], d) && !Contains(v, d)
  {
    var p := k + d + v;
    assert At(p, d, |k|) by { assert p[|k|..|k| + |d|] == d; }
    FoundEarly(k, v, d);
    var r := Find(p, d);
    assert r.Some? && r.value <= |k|;
    if r.value == |k| {
      assert p[..|k|] == k && p[|k| + |d|..] == v;
      assert SplitStr(p, d) == [k] + SplitStr(v, d);
      assert |SplitStr(v, d)| == 1 <==> Find(v, d) == None;
      assert Find(v, d) == None <==> !Contains(v, d);
    } else {
      assert SplitStr(p, d)[0] == p[..r.value];
    }
  }

  lemma FoundEarly(k: string, v: string, d: Bytes)
    requires |d| > 0
    ensures Contains(k + d[..|d| - 1], d) <==> exists i: nat | i < |k| :: At(k + d + v, d, i)
  {
    var p, q := k + d + v, k + d[..|d| - 1];
    assert q == p[..|q|];
    forall i: nat ensures At(q, d, i) <==> i < |k| && At(p, d, i) {
      if i < |k| {
        SliceOfTake(p, |q|, i, i + |d|);
      }
    }
    if i: nat :| i < |k| && At(p, d, i) {
      assert At(q, d, i);
    }
    if Contains(q, d) {
      var i: nat :| i <= |q| && At(q, d, i);
      assert i < |k| && At(p, d, i);
    }
  }

  lemma EntryText(piece: string, d: Bytes)
    requires |d| > 0 && EntryOf(piece, d).Some?
    ensures piece == EntryOf(piece, d).value.0 + d + EntryOf(piece, d).value.1
  {
    var i := Find(piece, d).value;
    assert piece == piece[..i] + piece[i..i + |d|] + piece[i + |d|..];
    assert |SplitStr(piece[i + |d|..], d)| == 1;
  }

  /** Whatever was read comes from one of the pieces. */
  lemma {:induction false} ReadOrigin(m: map<string, string>, pieces: seq<string>, d: Bytes, k: string)
    requires |d| > 0
    requires k in ReadPieces(m, pieces, d)
    ensures (k in m && m[k] == ReadPieces(m, pieces, d)[k]) ||
            exists p :: p in pieces && EntryOf(p, d) == Some((k, ReadPieces(m, pieces, d)[k]))
    decreases |pieces|
  {
    if pieces != [] {
      var e := EntryOf(pieces[0], d);
      var m' := if e.Some? then m[e.value.0 := e.value.1] else m;
      ReadOrigin(m', pieces[1..], d, k);
      var v := ReadPieces(m, pieces, d)[k];
      if p :| p in pieces[1..] && EntryOf(p, d) == Some((k, v)) {
        assert p in pieces;
      } else if e == Some((k, v)) {
        assert pieces[0] in pieces;
      }
    }
  }

  // ---------------------------------------------------------------- the round trip

  /** An entry that comes back: no NUL anywhere, and the delimiter only where Store put it. */
  predicate Clean(k: string, v: string, d: Bytes)
    requires |d| > 0
  {
    '\0' !in k && '\0' !in d && '\0' !in v && !Contains(k + d[..|d| - 1], d) && !Contains(v, d)
  }

  lemma SplitFrame(p: string, rest: string)
    requires '\0' !in p
    ensures Split((['\0'] + p + ['\0']) + rest, "\0") == ["", p] + Split(rest, "\0")
  {
    var s, t := (['\0'] + p + ['\0']) + rest, p + ['\0'] + rest;
    assert "\0"[0] == '\0';
    assert s == "" + ['\0'] + t;
    SplitHead("", '\0', t, "\0");
    SplitHead(p, '\0', rest, "\0");
    assert [""] + ([p] + Split(rest, "\0")) == ["", p] + Split(rest, "\0");
  }

  lemma ReadFrame(m0: map<string, string>, k: string, v: string, d: Bytes, rest: string)
    requires |d| > 0 && IsBytes(k) && IsBytes(v) && Clean(k, v, d)
    ensures ReadPieces(m0, Split(Frame(k, v, d) + rest, "\0"), d) == ReadPieces(m0[k := v], Split(rest, "\0"), d)
  {
    SplitFrame(k + d + v, rest);
    EntryMeaning(k, v, d);
    ReadTwo(m0, k + d + v, Split(rest, "\0"), d);
  }

  lemma ReadTwo(m: map<string, string>, p: string, pieces: seq<string>, d: Bytes)
    requires |d| > 0 && EntryOf(p, d).Some?
    ensures ReadPieces(m, ["", p] + pieces, d) ==
            ReadPieces(m[EntryOf(p, d).value.0 := EntryOf(p, d).value.1], pieces, d)
  {
    var all := ["", p] + pieces;
    assert all[1..] == [p] + pieces;
    assert all[1..][1..] == pieces;
  }

  function Restricted(m: map<string, string>, order: seq<string>): map<string, string>
    requires forall k :: k in order ==> k in m
  {
    map k | k in order :: m[k]
  }

  lemma RestrictedHead(m0: map<string, string>, m: map<string, string>, order: seq<string>)
    requires order != [] && forall k :: k in order ==> k in m
    ensures m0[order[0] := m[order[0]]] + Restricted(m, order[1..]) == m0 + Restricted(m, order)
  {
  }

  /** Reading what was written adds the entries to the map, when they are all clean. */
  lemma {:induction false} ReadWritten(m0: map<string, string>, order: seq<string>, m: FlashMap, d: Bytes)
    requires |d| > 0
    requires forall k :: k in order ==> k in m && Clean(k, m[k], d)
    ensures ReadPieces(m0, Split(Written(order, m, d), "\0"), d) == m0 + Restricted(m, order)
    decreases |order|
  {
    if order == [] {
      SplitWhole("", "\0");
      assert [""][1..] == [];
    } else {
      var k, rest := order[0], order[1..];
      var v := m[k];
      assert k in order;
      ReadFrame(m0, k, v, d, Written(rest, m, d));
      ReadWritten(m0[k := v], rest, m, d);
      RestrictedHead(m0, m, order);
    }
  }

  /** Sanitizing leaves no line break and no semicolon, and changes nothing else. */
  lemma SanitizeMeaning(v: string)
    ensures '\n' !in Sanitize(v) && '\r' !in Sanitize(v) && ';' !in Sanitize(v)
    ensures Sanitize(v) == v <==> '\n' !in v && '\r' !in v && ';' !in v
    ensures |Sanitize(v)| == |v|
    ensures forall k :: 0 <= k < |v| ==> Sanitize(v)[k] == v[k] || Sanitize(v)[k] == ' '
  {
    var r := Sanitize(v);
    assert forall k :: 0 <= k < |v| && v[k] != '\n' && v[k] != '\r' && v[k] != ';' ==> r[k] == v[k];
    if '\n' in v || '\r' in v || ';' in v {
      var k :| 0 <= k < |v| && (v[k] == '\n' || v[k] == '\r' || v[k] == ';');
      assert r[k] != v[k];
    }
  }

  /** Escaped text holds nothing the cookie writer would replace. */
  lemma SanitizeEscaped(s: Bytes)
    ensures Sanitize(QueryEscape(s)) == QueryEscape(s)
  {
  }

  ghost predicate AllClean(m: map<string, string>, d: Bytes)
    requires |d| > 0
  {
    forall k :: k in m ==> Clean(k, m[k], d)
  }

  lemma ReadBackIff(m: FlashMap, order: seq<string>, d: Bytes)
    requires |d| > 0 && Lists(order, m)
    ensures ReadPieces(map[], Split(Written(order, m, d), "\0"), d) == m <==> AllClean(m, d)
  {
    if AllClean(m, d) {
      ReadWritten(map[], order, m, d);
      assert map[] + Restricted(m, order) == m;
    }
    if ReadPieces(map[], Split(Written(order, m, d), "\0"), d) == m {
      ReadBackIsClean(m, Written(order, m, d), d);
    }
  }

  /**
   Reading the cookie Store set gives back exactly the stored map, whatever the order in which
   the map yielded its keys, if and only if every entry is clean.
   */
  lemma RoundTripIff(m: FlashMap, order: seq<string>, sep: Bytes)
    requires Lists(order, m)
    ensures var d := Delimiter(sep);
            ReadCookie(map[], Sanitize(QueryEscape(Written(order, m, d))), d) == m <==> AllClean(m, d)
  {
    CookieIsText(map[], Written(order, m, Delimiter(sep)), Delimiter(sep));
    ReadBackIff(m, order, Delimiter(sep));
  }

  lemma CookieIsText(m: map<string, string>, text: Bytes, d: Bytes)
    requires |d| > 0
    ensures ReadCookie(m, Sanitize(QueryEscape(text)), d) == ReadPieces(m, Split(text, "\0"), d)
  {
    SanitizeEscaped(text);
    UnescapeOfEscape(text);
  }

  /** How an entry is written: NUL, key, `#`, separator, `#`, value, NUL. */
  lemma EntryWritten(k: Bytes, v: Bytes, sep: Bytes)
    ensures Frame(k, v, Delimiter(sep)) == "\0" + k + "#" + sep + "#" + v + "\0"
  {
  }

  /** A cookie value that is not well escaped reads as no entry. */
  lemma BadlyEscapedReadsNothing(m: map<string, string>, value: string, d: Bytes)
    requires |d| > 0 && exists k: nat :: BadEscape(value, k)
    ensures ReadCookie(m, value, d) == m
  {
    UnescapeFailsIff(value);
    SplitWhole("", "\0");
    var pieces := Split("", "\0");
    assert pieces[0] == [] && pieces[1..] == [];
  }

  lemma ReadBackIsClean(m: map<string, string>, text: string, d: Bytes)
    requires |d| > 0 && ReadPieces(map[], Split(text, "\0"), d) == m
    ensures AllClean(m, d)
  {
    forall k | k in m ensures Clean(k, m[k], d) {
      ReadOrigin(map[], Split(text, "\0"), d, k);
      var p :| p in Split(text, "\0") && EntryOf(p, d) == Some((k, m[k]));
      ReadIsClean(text, p, d);
    }
  }

  lemma ReadIsClean(text: string, p: string, d: Bytes)
    requires |d| > 0 && p in Split(text, "\0") && EntryOf(p, d).Some?
    ensures Clean(EntryOf(p, d).value.0, EntryOf(p, d).value.1, d)
  {
    var (k, v) := EntryOf(p, d).value;
    EntryText(p, d);
    EntryMeaning(k, v, d);
    PartsOfSplit(text, "\0");
    NoNul(p, k, d, v);
  }

  lemma NoNul(p: string, k: string, d: string, v: string)
    requires p == k + d + v && forall i :: 0 <= i < |p| ==> p[i] !in "\0"
    ensures '\0' !in k && '\0' !in d && '\0' !in v
  {
    forall i | 0 <= i < |k| ensures k[i] != '\0' { assert p[i] == k[i] && '\0' in "\0"; }
    forall i | 0 <= i < |d| ensures d[i] != '\0' { assert p[|k| + i] == d[i] && '\0' in "\0"; }
    forall i | 0 <= i < |v| ensures v[i] != '\0' { assert p[|k| + |d| + i] == v[i] && '\0' in "\0"; }
  }

  lemma HashInKey(k: string, d: Bytes)
    requires |d| > 0 && d[0] == '#' && Contains(k + d[..|d| - 1], d)
    ensures '#' in k
  {
    var q := k + d[..|d| - 1];
    var i: nat :| i <= |q| && At(q, d, i);
    assert q[i..i + |d|][0] == q[i] == k[i];
  }

  /** Keys without NUL and `#`, and values without NUL and the delimiter, are clean. */
  lemma PlainIsClean(k: string, v: string, sep: Bytes)
    requires '\0' !in sep && '\0' !in k && '#' !in k && '\0' !in v && !Contains(v, Delimiter(sep))
    ensures Clean(k, v, Delimiter(sep))
  {
    var d := Delimiter(sep);
    if Contains(k + d[..|d| - 1], d) {
      HashInKey(k, d);
    }
  }

  /** So such entries are added to whatever the controller already holds. */
  lemma PlainRoundTrip(m0: map<string, string>, m: FlashMap, order: seq<string>, sep: Bytes)
    requires Lists(order, m) && '\0' !in sep
    requires forall k :: k in m ==> '\0' !in k && '#' !in k && '\0' !in m[k] && !Contains(m[k], Delimiter(sep))
    ensures ReadCookie(m0, Sanitize(QueryEscape(Written(order, m, Delimiter(sep)))), Delimiter(sep)) == m0 + m
  {
    var d := Delimiter(sep);
    forall k | k in m ensures Clean(k, m[k], d) {
      PlainIsClean(k, m[k], sep);
    }
    CookieIsText(m0, Written(order, m, d), d);
    ReadWritten(m0, order, m, d);
    assert m == Restricted(m, order);
  }

  // ---------------------------------------------------------------- the controller

  datatype SetCookie = SetCookie(value: string, maxAge: int)

  lemma {:induction false} UnescapedBytes(s: string)
    requires IsBytes(s) && QueryUnescape(s).Some?
    ensures IsBytes(QueryUnescape(s).value)
  {
    if s != [] {
      UnescapedBytes(if s[0] == '%' then s[3..] else s[1..]);
    }
  }

  lemma {:induction false} WrittenLast(order: seq<string>, k: string, m: FlashMap, d: Bytes)
    requires k in m && forall x :: x in order ==> x in m
    ensures Written(order + [k], m, d) == Written(order, m, d) + Frame(k, m[k], d)
  {
    if order == [] {
      assert [k][1..] == [];
    } else {
      assert (order + [k])[1..] == order[1..] + [k];
      WrittenLast(order[1..], k, m, d);
      Assoc(Frame(order[0], m[order[0]], d), Written(order[1..], m, d), Frame(k, m[k], d));
    }
  }

  lemma EntryBytes(p: string, d: Bytes)
    requires |d| > 0 && IsBytes(p) && EntryOf(p, d).Some?
    ensures IsBytes(EntryOf(p, d).value.0) && IsBytes(EntryOf(p, d).value.1)
  {
    EntryText(p, d);
    var (k, v) := EntryOf(p, d).value;
    forall i | 0 <= i < |k| ensures k[i] as int < 256 { assert p[i] == k[i]; }
    forall i | 0 <= i < |v| ensures v[i] as int < 256 { assert p[|k| + |d| + i] == v[i]; }
  }

  lemma ReadStep(m: map<string, string>, pieces: seq<string>, i: nat, d: Bytes)
    requires |d| > 0 && i < |pieces|
    ensures var e := EntryOf(pieces[i], d);
            ReadPieces(m, pieces[i..], d) ==
            ReadPieces(if e.Some? then m[e.value.0 := e.value.1] else m, pieces[i + 1..], d)
  {
    assert pieces[i..][1..] == pieces[i + 1..];
  }

  lemma PiecesBytes(s: string)
    requires IsBytes(s)
    ensures forall p :: p in Split(s, "\0") ==> IsBytes(p)
  {
    PartsOfSplit(s, "\0");
    forall p | p in Split(s, "\0") ensures IsBytes(p) {
      forall i | 0 <= i < |p| ensures p[i] as int < 256 {
        assert p[i] in s;
      }
    }
  }

  function Put(m: FlashMap, k: string, v: string): FlashMap
    requires IsBytes(k) && IsBytes(v)
  {
    m[k := v]
  }

  class Controller {
    const separator: Bytes
    var flash: FlashMap
    /** `Data["Flash"]` */
    var shown: FlashMap
    /** The cookies set on the response, under the flash name and the path `/`. */
    var cookies: seq<SetCookie>

    constructor (separator: Bytes)
      ensures this.separator == separator && flash == map[] && cookies == []
    {
      this.separator := separator;
      flash, shown, cookies := map[], map[], [];
    }

    method Store()
      modifies this
      ensures flash == old(flash) && shown == flash
      ensures |cookies| == |old(cookies)| + 1 && cookies[..|old(cookies)|] == old(cookies)
      ensures exists order :: Lists(order, flash) &&
                cookies[|old(cookies)|] ==
                  SetCookie(Sanitize(QueryEscape(Written(order, flash, Delimiter(separator)))), 0)
    {
      shown := flash;
      var flashValue: Bytes := "";
      var left := flash.Keys;
      ghost var order: seq<string> := [];
      while left != {}
        invariant flash == old(flash) && shown == flash && cookies == old(cookies)
        invariant ListsBut(order, flash, left)
        invariant flashValue == Written(order, flash, Delimiter(separator))
        decreases |left|
      {
        var key :| key in left;
        var value := flash[key];
        WrittenLast(order, key, flash, Delimiter(separator));
        ListsMore(order, flash, left, key);
        flashValue := flashValue + Frame(key, value, Delimiter(separator));
        order := order + [key];
        left := left - {key};
      }
      ListsAll(order, flash);
      cookies := cookies + [SetCookie(Sanitize(QueryEscape(flashValue)), 0)];
    }

    method ReadFlashData(cookie: Option<string>)
      requires cookie.Some? ==> IsBytes(cookie.value)
      modifies this
      ensures shown == flash
      ensures cookie.None? ==> flash == old(flash) && cookies == old(cookies)
      ensures cookie.Some? ==> flash == ReadCookie(old(flash), cookie.value, Delimiter(separator)) &&
                               cookies == old(cookies) + [SetCookie("", -1)]
    {
      if cookie.Some? {
        var unescaped := QueryUnescape(cookie.value);
        var v := if unescaped.Some? then unescaped.value else "";
        if unescaped.Some? {
          UnescapedBytes(cookie.value);
        }
        var vals := Split(v, "\0");
        PiecesBytes(v);
        var d := Delimiter(separator);
        ghost var goal := ReadPieces(flash, vals, d);
        assert vals[0..] == vals;
        for i := 0 to |vals|
          invariant cookies == old(cookies)
          invariant ReadPieces(flash, vals[i..], d) == goal
        {
          ReadStep(flash, vals, i, d);
          assert vals[i] in Split(v, "\0");
          if |vals[i]| > 0 {
            var kv := SplitStr(vals[i], d);
            if |kv| == 2 {
              EntryBytes(vals[i], d);
              flash := Put(flash, kv[0], kv[1]);
            }
          }
        }
        cookies := cookies + [SetCookie("", -1)];
      }
      shown := flash;
    }
  }
}
