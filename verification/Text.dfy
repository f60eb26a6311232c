/**
 Byte strings and the library string operations the repository relies on: splitting,
 joining, decimal numbers, hexadecimal digits and percent-encoding.

 A Go string or byte slice is a Dafny string whose characters stand for its bytes.
 */
module Text {
  import opened Wrappers

  type Byte = c: char | c as int < 256

  type Bytes = seq<Byte>

  lemma Assoc<T>(a: seq<T>, b: seq<T>, c: seq<T>)
    ensures a + (b + c) == (a + b) + c
  {
  }

  lemma CutAt<T>(s: seq<T>, i: nat)
    requires i < |s|
    ensures s == s[..i] + ([s[i]] + s[i + 1..])
  {
  }

  /** The parts before and behind a separator. */
  lemma CutBehind<T>(a: seq<T>, c: T, b: seq<T>)
    ensures (a + [c] + b)[..|a|] == a && (a + [c] + b)[|a|] == c && (a + [c] + b)[|a| + 1..] == b
  {
  }

  lemma SliceOfTake<T>(s: seq<T>, n: nat, i: nat, j: nat)
    requires i <= j <= n <= |s|
    ensures s[..n][i..j] == s[i..j]
  {
  }

  // ---------------------------------------------------------------- searching and splitting

  /** Position of the first character of `s` that is one of `cs`, or `|s|`. */
  function IndexAny(s: string, cs: string): (i: nat)
    ensures i <= |s|
    ensures i < |s| ==> s[i] in cs
    ensures forall k :: 0 <= k < i ==> s[k] !in cs
  {
    if s == [] || s[0] in cs then 0 else 1 + IndexAny(s[1..], cs)
  }

  /** IndexAny is the only position with its properties. */
  lemma IndexAnyUnique(s: string, cs: string, i: nat)
    requires i <= |s|
    requires i < |s| ==> s[i] in cs
    requires forall k :: 0 <= k < i ==> s[k] !in cs
    ensures IndexAny(s, cs) == i
  {
  }

  /** The pieces of `s` between the characters of `cs`; the pieces may be empty. */
  function Split(s: string, cs: string): (parts: seq<string>)
    ensures |parts| >= 1
    decreases |s|
  {
    var i := IndexAny(s, cs);
    if i == |s| then [s] else [s[..i]] + Split(s[i + 1..], cs)
  }

  function Join(parts: seq<string>, c: char): string
  {
    if |parts| == 0 then ""
    else if |parts| == 1 then parts[0]
    else parts[0] + [c] + Join(parts[1..], c)
  }

  lemma SplitHead(p: string, c: char, rest: string, cs: string)
    requires c in cs
    requires forall k :: 0 <= k < |p| ==> p[k] !in cs
    ensures Split(p + [c] + rest, cs) == [p] + Split(rest, cs)
  {
    var s := p + [c] + rest;
    IndexAnyUnique(s, cs, |p|);
    assert s[..|p|] == p;
    assert s[|p| + 1..] == rest;
  }

  lemma SplitWhole(p: string, cs: string)
    requires forall k :: 0 <= k < |p| ==> p[k] !in cs
    ensures Split(p, cs) == [p]
  {
    IndexAnyUnique(p, cs, |p|);
  }

  lemma {:induction false} SplitOfConcat(a: string, c: char, b: string, cs: string)
    requires c in cs
    ensures Split(a + [c] + b, cs) == Split(a, cs) + Split(b, cs)
    decreases |a|
  {
    var i := IndexAny(a, cs);
    if i == |a| {
      SplitHead(a, c, b, cs);
    } else {
      var first, rest := a[..i], a[i + 1..];
      SplitOfConcat(rest, c, b, cs);
      SplitHead(first, a[i], rest + [c] + b, cs);
      CutBefore(a, i, [c] + b);
      Assoc(a, [c], b);
      Assoc(rest, [c], b);
      Assoc([first], Split(rest, cs), Split(b, cs));
    }
  }

  lemma CutBefore(a: string, i: nat, b: string)
    requires i < |a|
    ensures a + b == a[..i] + [a[i]] + (a[i + 1..] + b)
  {
  }

  /** Splitting undoes joining when no part holds the separator. */
  lemma {:induction false} SplitOfJoin(parts: seq<string>, c: char)
    requires |parts| > 0
    requires forall p :: p in parts ==> c !in p
    ensures Split(Join(parts, c), [c]) == parts
  {
    assert parts[0] in parts && c !in parts[0];
    assert forall k :: 0 <= k < |parts[0]| ==> parts[0][k] !in [c];
    if |parts| == 1 {
      SplitWhole(parts[0], [c]);
    } else {
      SplitOfJoin(parts[1..], c);
      SplitHead(parts[0], c, Join(parts[1..], c), [c]);
    }
  }

  /** The pieces are made of the text, without the separators. */
  lemma {:induction false} PartsOfSplit(s: string, cs: string)
    ensures forall p, i :: p in Split(s, cs) && 0 <= i < |p| ==> p[i] in s && p[i] !in cs
    decreases |s|
  {
    var i := IndexAny(s, cs);
    if i < |s| {
      PartsOfSplit(s[i + 1..], cs);
    }
  }

  /** Whether `d` stands in `s` at position `i`. */
  predicate At(s: string, d: string, i: nat)
  {
    i + |d| <= |s| && s[i..i + |d|] == d
  }

  lemma AtTail(s: string, d: string, k: nat)
    requires s != [] && k > 0
    ensures At(s, d, k) <==> At(s[1..], d, k - 1)
  {
    if k + |d| <= |s| {
      assert s[1..][k - 1..k - 1 + |d|] == s[k..k + |d|];
    }
  }

  predicate Contains(s: string, d: string)
  {
    exists i: nat | i <= |s| :: At(s, d, i)
  }

  /** Position of the first occurrence of `d` in `s`. */
  function Find(s: string, d: string): (r: Option<nat>)
    ensures r.Some? ==> At(s, d, r.value)
    ensures forall k: nat :: (if r.Some? then k < r.value else k <= |s|) ==> !At(s, d, k)
  {
    if At(s, d, 0) then Some(0)
    else if s == [] then None
    else
      var r := Find(s[1..], d);
      assert forall k: nat :: k > 0 ==> (At(s, d, k) <==> At(s[1..], d, k - 1)) by {
        forall k: nat | k > 0 ensures At(s, d, k) <==> At(s[1..], d, k - 1) {
          AtTail(s, d, k);
        }
      }
      match r
      case None => None
      case Some(i) => Some(i + 1)
  }

  /** The pieces of `s` between non-overlapping occurrences of `d`, from the left. */
  function SplitStr(s: string, d: string): (parts: seq<string>)
    requires |d| > 0
    ensures |parts| >= 1
    decreases |s|
  {
    match Find(s, d)
    case None => [s]
    case Some(i) => [s[..i]] + SplitStr(s[i + |d|..], d)
  }

  // ---------------------------------------------------------------- decimal numbers

  predicate IsDigit(c: char)
  {
    '0' <= c <= '9'
  }

  function DigitVal(c: char): (v: nat)
    requires IsDigit(c)
    ensures v < 10
  {
    c as int - '0' as int
  }

  function DigitChar(d: nat): (c: Byte)
    requires d < 10
    ensures IsDigit(c) && DigitVal(c) == d
  {
    (d + '0' as int) as char
  }

  function Decimal(n: nat): (s: Bytes)
    ensures |s| > 0
    ensures forall k :: 0 <= k < |s| ==> IsDigit(s[k])
    ensures n > 0 ==> s[0] != '0'
  {
    if n < 10 then [DigitChar(n)] else Decimal(n / 10) + [DigitChar(n % 10)]
  }

  function DecimalValue(s: string): nat
    requires forall k :: 0 <= k < |s| ==> IsDigit(s[k])
  {
    if s == [] then 0 else 10 * DecimalValue(s[..|s| - 1]) + DigitVal(s[|s| - 1])
  }

  lemma {:induction false} DecimalRoundTrip(n: nat)
    ensures DecimalValue(Decimal(n)) == n
  {
    if n < 10 {
      assert Decimal(n)[..0] == [];
    } else {
      DecimalRoundTrip(n / 10);
      assert Decimal(n)[..|Decimal(n)| - 1] == Decimal(n / 10);
    }
  }

  /** `%03d` of a natural number. */
  function Pad3(n: nat): (s: Bytes)
    ensures |s| >= 3
    ensures forall k :: 0 <= k < |s| ==> IsDigit(s[k])
  {
    var d := Decimal(n);
    if |d| == 1 then ['0', '0'] + d else if |d| == 2 then ['0'] + d else d
  }

  lemma {:induction false} ValueOfLeadingZero(s: string)
    requires forall k :: 0 <= k < |s| ==> IsDigit(s[k])
    ensures DecimalValue(['0'] + s) == DecimalValue(s)
  {
    if s == [] {
      assert (['0'] + s)[..0] == [];
    } else {
      ValueOfLeadingZero(s[..|s| - 1]);
      assert (['0'] + s)[..|s|] == ['0'] + s[..|s| - 1];
    }
  }

  /** Padding to three digits loses nothing. */
  lemma Pad3Value(n: nat)
    ensures DecimalValue(Pad3(n)) == n
  {
    var d := Decimal(n);
    DecimalRoundTrip(n);
    ValueOfLeadingZero(d);
    ValueOfLeadingZero(['0'] + d);
    assert ['0', '0'] + d == ['0'] + (['0'] + d);
  }

  lemma Pad3Injective(m: nat, n: nat)
    requires Pad3(m) == Pad3(n)
    ensures m == n
  {
    Pad3Value(m);
    Pad3Value(n);
  }

  // ---------------------------------------------------------------- hexadecimal digits

  predicate IsHex(c: char)
  {
    IsDigit(c) || 'a' <= c <= 'f' || 'A' <= c <= 'F'
  }

  function HexVal(c: char): (v: nat)
    requires IsHex(c)
    ensures v < 16
  {
    if IsDigit(c) then DigitVal(c)
    else if 'a' <= c <= 'f' then c as int - 'a' as int + 10
    else c as int - 'A' as int + 10
  }

  function HexUpper(d: nat): (c: Byte)
    requires d < 16
    ensures IsHex(c) && HexVal(c) == d
    ensures c != '%' && c != '+'
    ensures IsDigit(c) || 'A' <= c <= 'F'
  {
    if d < 10 then DigitChar(d) else (d - 10 + 'A' as int) as char
  }

  function HexLower(d: nat): (c: Byte)
    requires d < 16
    ensures IsHex(c) && HexVal(c) == d
    ensures IsDigit(c) || 'a' <= c <= 'f'
  {
    if d < 10 then DigitChar(d) else (d - 10 + 'a' as int) as char
  }

  // ---------------------------------------------------------------- query percent-encoding

  predicate Unreserved(c: char)
  {
    'a' <= c <= 'z' || 'A' <= c <= 'Z' || IsDigit(c) || c == '-' || c == '_' || c == '.' || c == '~'
  }

  /** `url.QueryEscape`. */
  function QueryEscape(s: Bytes): (r: Bytes)
    ensures forall k :: 0 <= k < |r| ==> Unreserved(r[k]) || r[k] == '%' || r[k] == '+'
  {
    if s == [] then []
    else
      var c := s[0];
      (if c == ' ' then ['+']
       else if Unreserved(c) then [c]
       else ['%', HexUpper(c as int / 16), HexUpper(c as int % 16)]) + QueryEscape(s[1..])
  }

  /** `url.QueryUnescape`: `None` when a `%` is not followed by two hexadecimal digits. */
  function QueryUnescape(s: string): (r: Option<string>)
    ensures r.Some? ==> |r.value| <= |s|
  {
    if s == [] then Some([])
    else if s[0] == '%' then
      if |s| < 3 || !IsHex(s[1]) || !IsHex(s[2]) then None
      else
        match QueryUnescape(s[3..])
        case None => None
        case Some(t) => Some([(16 * HexVal(s[1]) + HexVal(s[2])) as char] + t)
    else
      match QueryUnescape(s[1..])
      case None => None
      case Some(t) => Some([if s[0] == '+' then ' ' else s[0]] + t)
  }

  /** A percent sign that two hexadecimal digits do not follow. */
  predicate BadEscape(s: string, k: nat)
  {
    k < |s| && s[k] == '%' && (k + 2 >= |s| || !IsHex(s[k + 1]) || !IsHex(s[k + 2]))
  }

  /** Unescaping fails exactly on such a sign. */
  lemma {:induction false} UnescapeFailsIff(s: string)
    ensures QueryUnescape(s) == None <==> exists k: nat :: BadEscape(s, k)
  {
    if s != [] {
      if !BadEscape(s, 0) {
        var n := if s[0] == '%' then 3 else 1;
        UnescapeFailsIff(s[n..]);
        BadEscapeBehind(s, n);
      }
    }
  }

  lemma BadEscapeBehind(s: string, n: nat)
    requires n <= |s| && forall k: nat :: k < n ==> !BadEscape(s, k)
    ensures (exists k: nat :: BadEscape(s, k)) <==> exists k: nat :: BadEscape(s[n..], k)
  {
    if k: nat :| BadEscape(s, k) {
      assert k >= n;
      assert BadEscape(s[n..], k - n);
    }
    if k: nat :| BadEscape(s[n..], k) {
      assert BadEscape(s, k + n);
    }
  }

  /** Characters that need no escape stand for themselves. */
  lemma {:induction false} UnescapePlain(s: string)
    requires '%' !in s && '+' !in s
    ensures QueryUnescape(s) == Some(s)
  {
    if s != [] {
      assert s[0] in s;
      UnescapePlain(s[1..]);
      assert s == [s[0]] + s[1..];
    }
  }

  lemma {:induction false} EscapePlain(s: Bytes)
    requires forall k :: 0 <= k < |s| ==> Unreserved(s[k])
    ensures QueryEscape(s) == s
  {
    if s != [] {
      EscapePlain(s[1..]);
      assert s == [s[0]] + s[1..];
    }
  }

  /** A space becomes a plus sign; any other byte is three characters, the last two its digits. */
  lemma EscapeOne(c: Byte)
    requires !Unreserved(c)
    ensures var e := QueryEscape([c]);
            if c == ' ' then e == ['+']
            else |e| == 3 && e[0] == '%' && IsHex(e[1]) && IsHex(e[2]) && 16 * HexVal(e[1]) + HexVal(e[2]) == c as int
  {
    var none: Bytes := [c][1..];
    assert none == [] && QueryEscape(none) == [];
  }

  /** Unescaping undoes escaping, for every byte string. */
  lemma {:induction false} UnescapeOfEscape(s: Bytes)
    ensures QueryUnescape(QueryEscape(s)) == Some(s)
  {
    if s != [] {
      UnescapeOfEscape(s[1..]);
      var c := s[0];
      var rest := QueryEscape(s[1..]);
      if c == ' ' || Unreserved(c) {
        assert QueryEscape(s)[1..] == rest;
      } else {
        assert QueryEscape(s)[3..] == rest;
      }
      assert s == [c] + s[1..];
    }
  }
}
