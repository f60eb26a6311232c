/**
 Runes in byte strings, as the library's decoder and its regular expressions see them: a byte
 that starts no valid encoding is a rune of its own.
 */
module Utf8 {
  import opened Wrappers
  import opened Text

  predicate Cont(c: char)
  {
    0x80 <= c as int < 0xC0
  }

  /** Whether a second byte may follow the first one of a longer rune. */
  predicate Second(first: char, second: char)
  {
    var low := if first as int == 0xE0 then 0xA0 else if first as int == 0xF0 then 0x90 else 0x80;
    var high := if first as int == 0xED then 0xA0 else if first as int == 0xF4 then 0x90 else 0xC0;
    low <= second as int < high
  }

  /** The length of the valid encoding at the start of `s`; 0 if there is none. */
  function ValidLen(s: string): (n: nat)
    requires s != []
    ensures n <= |s| && n <= 4
    ensures forall k :: 0 < k < n ==> Cont(s[k])
    ensures n > 0 ==> !Cont(s[0])
    ensures s[0] as int < 0x80 ==> n == 1
  {
    var b := s[0] as int;
    if b < 0x80 then 1
    else if |s| < 2 || !(0xC2 <= b <= 0xF4) || !Second(s[0], s[1]) then 0
    else if b < 0xE0 then 2
    else if |s| < 3 || !Cont(s[2]) then 0
    else if b < 0xF0 then 3
    else if |s| < 4 || !Cont(s[3]) then 0
    else 4
  }

  /** The code points that have an encoding: all up to 0x10FFFF but the surrogates. */
  predicate Scalar(cp: nat)
  {
    cp < 0xD800 || 0xE000 <= cp < 0x110000
  }

  /** The UTF-8 encoding of a code point. */
  function Encoding(cp: nat): string
    requires Scalar(cp)
  {
    if cp < 0x80 then [cp as char]
    else if cp < 0x800 then [(0xC0 + cp / 64) as char, (0x80 + cp % 64) as char]
    else if cp < 0x10000 then [(0xE0 + cp / 4096) as char, (0x80 + cp / 64 % 64) as char, (0x80 + cp % 64) as char]
    else [(0xF0 + cp / 262144) as char, (0x80 + cp / 4096 % 64) as char, (0x80 + cp / 64 % 64) as char,
          (0x80 + cp % 64) as char]
  }

  /** The code point that a valid encoding at the start of `s` stands for. */
  function CodePoint(s: string): nat
    requires s != [] && ValidLen(s) > 0
  {
    var b := s[0] as int;
    match ValidLen(s)
    case 1 => b
    case 2 => (b - 0xC0) * 64 + (s[1] as int - 0x80)
    case 3 => (b - 0xE0) * 4096 + (s[1] as int - 0x80) * 64 + (s[2] as int - 0x80)
    case _ => (b - 0xF0) * 262144 + (s[1] as int - 0x80) * 4096 + (s[2] as int - 0x80) * 64 + (s[3] as int - 0x80)
  }

  lemma DigitsOf64(a: nat, b: nat, c: nat, d: nat)
    requires b < 64 && c < 64 && d < 64
    ensures var n := ((a * 64 + b) * 64 + c) * 64 + d;
            n % 64 == d && n / 64 % 64 == c && n / 4096 % 64 == b && n / 262144 == a
  {
    var n := ((a * 64 + b) * 64 + c) * 64 + d;
    assert n / 64 == (a * 64 + b) * 64 + c;
    assert n / 64 / 64 == a * 64 + b;
    assert n / 64 / 64 / 64 == a;
    assert n / 4096 == n / 64 / 64 && n / 262144 == n / 64 / 64 / 64;
  }

  lemma EncodedTwo(s: string)
    requires s != [] && ValidLen(s) == 2
    ensures Scalar(CodePoint(s)) && Encoding(CodePoint(s)) == s[..2]
  {
    DigitsOf64(0, 0, s[0] as int - 0xC0, s[1] as int - 0x80);
  }

  lemma EncodedThree(s: string)
    requires s != [] && ValidLen(s) == 3
    ensures Scalar(CodePoint(s)) && Encoding(CodePoint(s)) == s[..3]
  {
    DigitsOf64(0, s[0] as int - 0xE0, s[1] as int - 0x80, s[2] as int - 0x80);
  }

  lemma EncodedFour(s: string)
    requires s != [] && ValidLen(s) == 4
    ensures Scalar(CodePoint(s)) && Encoding(CodePoint(s)) == s[..4]
  {
    DigitsOf64(s[0] as int - 0xF0, s[1] as int - 0x80, s[2] as int - 0x80, s[3] as int - 0x80);
  }

  lemma EncodedHere(s: string)
    requires s != [] && ValidLen(s) > 0
    ensures Scalar(CodePoint(s)) && Encoding(CodePoint(s)) == s[..ValidLen(s)]
  {
    match ValidLen(s) {
      case 1 =>
      case 2 => EncodedTwo(s);
      case 3 => EncodedThree(s);
      case _ => EncodedFour(s);
    }
  }

  /** `s` starts with a valid encoding if and only if it starts with that of a code point, of the same length. */
  lemma ValidIffEncoding(s: string, cp: nat)
    requires s != []
    ensures ValidLen(s) > 0 ==> Scalar(CodePoint(s)) && Encoding(CodePoint(s)) == s[..ValidLen(s)]
    ensures Scalar(cp) && Encoding(cp) <= s ==> ValidLen(s) == |Encoding(cp)|
  {
    if ValidLen(s) > 0 {
      EncodedHere(s);
    }
    if Scalar(cp) && Encoding(cp) <= s {
      StartsValid(s, cp);
    }
  }

  lemma StartsValid(s: string, cp: nat)
    requires s != [] && Scalar(cp) && Encoding(cp) <= s
    ensures ValidLen(s) == |Encoding(cp)|
  {
    if cp < 0x800 {
      assert s[0] == Encoding(cp)[0] && (|Encoding(cp)| == 2 ==> s[1] == Encoding(cp)[1]);
    } else if cp < 0x10000 {
      StartsThree(s, cp);
    } else {
      StartsFour(s, cp);
    }
  }

  lemma StartsThree(s: string, cp: nat)
    requires 0x800 <= cp < 0x10000 && Scalar(cp) && Encoding(cp) <= s
    ensures ValidLen(s) == 3
  {
    assert forall k :: 0 <= k < 3 ==> s[k] == Encoding(cp)[k];
  }

  lemma StartsFour(s: string, cp: nat)
    requires 0x10000 <= cp && Scalar(cp) && Encoding(cp) <= s
    ensures ValidLen(s) == 4
  {
    assert forall k :: 0 <= k < 4 ==> s[k] == Encoding(cp)[k];
  }

  function RuneLen(s: string): (n: nat)
    requires s != []
    ensures 1 <= n <= |s|
    ensures forall k :: 0 < k < n ==> Cont(s[k])
    ensures s[0] as int < 0x80 ==> n == 1
  {
    if ValidLen(s) == 0 then 1 else ValidLen(s)
  }

  predicate Valid(s: string)
  {
    s == [] || (ValidLen(s) > 0 && Valid(s[ValidLen(s)..]))
  }

  /** Whether a rune starts at position `n` of `s`, or `s` ends there. */
  predicate Boundary(s: string, n: nat)
    decreases n
  {
    n == 0 || (s != [] && RuneLen(s) <= n && Boundary(s[RuneLen(s)..], n - RuneLen(s)))
  }

  /** No rune goes on over a byte that is not a continuation byte. */
  lemma {:induction false} StartIsBoundary(s: string, n: nat)
    requires n <= |s| && (n == |s| || !Cont(s[n]))
    ensures Boundary(s, n)
    decreases n
  {
    if n > 0 {
      StartIsBoundary(s[RuneLen(s)..], n - RuneLen(s));
    }
  }

  /** A rune ends behind a byte below 0x80. */
  lemma {:induction false} AsciiIsBoundary(s: string, n: nat)
    requires 0 < n <= |s| && s[n - 1] as int < 0x80
    ensures Boundary(s, n)
    decreases n
  {
    var k := RuneLen(s);
    if k < n {
      AsciiIsBoundary(s[k..], n - k);
    }
  }

  lemma ValidLenOfConcat(a: string, b: string)
    requires a != [] && ValidLen(a) > 0
    ensures ValidLen(a + b) == ValidLen(a)
  {
  }

  /** Text that starts with valid text is valid exactly if the rest is. */
  lemma {:induction false} ValidConcat(a: string, b: string)
    requires Valid(a)
    ensures Valid(a + b) <==> Valid(b)
    decreases |a|
  {
    if a == [] {
      assert a + b == b;
    } else {
      var n := ValidLen(a);
      ValidLenOfConcat(a, b);
      assert (a + b)[n..] == a[n..] + b;
      ValidConcat(a[n..], b);
    }
  }

  lemma {:induction false} ValidWithoutLast(s: string)
    requires s != [] && Valid(s) && s[|s| - 1] as int < 0x80
    ensures Valid(s[..|s| - 1])
    decreases |s|
  {
    var n, p := ValidLen(s), s[..|s| - 1];
    if n < |s| {
      ValidLenOfConcat(s[..n], s[n..]);
      assert s == s[..n] + s[n..];
      ValidWithoutLast(s[n..]);
      assert p[n..] == s[n..][..|s| - n - 1];
      assert ValidLen(p) == n;
    }
  }

  // ---------------------------------------------------------------- literals in expressions

  /** The encoding of U+FFFD, the rune an invalid byte counts as. */
  const REPLACEMENT: string := [0xEF as char, 0xBF as char, 0xBD as char]

  /** How many bytes of `s` read as the runes of a literal. */
  function Reads(lit: string, s: string): (r: Option<nat>)
    ensures r.Some? ==> r.value <= |s|
    decreases |lit|
  {
    if lit == [] then Some(0)
    else if s == [] then None
    else
      var l, k := RuneLen(lit), RuneLen(s);
      if s[..k] == lit[..l] || (lit[..l] == REPLACEMENT && ValidLen(s) == 0) then
        match Reads(lit[l..], s[k..])
        case None => None
        case Some(n) => Some(k + n)
      else None
  }

  predicate HasReplacement(lit: string)
    decreases |lit|
  {
    lit != [] && (lit[..RuneLen(lit)] == REPLACEMENT || HasReplacement(lit[RuneLen(lit)..]))
  }

  lemma {:induction false} AsciiIsValid(s: string)
    requires forall k :: 0 <= k < |s| ==> s[k] as int < 0x80
    ensures Valid(s) && !HasReplacement(s)
  {
    if s != [] {
      AsciiIsValid(s[1..]);
      assert s[..1] == [s[0]] && |REPLACEMENT| == 3;
    }
  }

  lemma PrefixStep(lit: string, s: string, n: nat)
    requires n <= |lit| && n <= |s|
    ensures lit <= s <==> s[..n] == lit[..n] && lit[n..] <= s[n..]
  {
    if s[..n] == lit[..n] && lit[n..] <= s[n..] {
      assert lit == lit[..n] + lit[n..] && s == s[..n] + s[n..];
      assert s[..|lit|] == s[..n] + s[n..][..|lit| - n];
    }
    if lit <= s {
      assert lit == s[..|lit|];
    }
  }

  /** A valid literal without U+FFFD is read byte for byte. */
  lemma {:induction false} ReadsExactly(lit: string, s: string)
    requires Valid(lit) && !HasReplacement(lit)
    ensures Reads(lit, s) == if lit <= s then Some(|lit|) else None
    decreases |lit|
  {
    if lit != [] && s != [] {
      var l, k := RuneLen(lit), RuneLen(s);
      if lit <= s {
        assert s == lit + s[|lit|..];
        ValidLenOfConcat(lit, s[|lit|..]);
        assert s[..l] == lit[..l];
      }
      if s[..k] == lit[..l] {
        assert k == l;
        ReadsExactly(lit[l..], s[l..]);
        PrefixStep(lit, s, l);
      }
    }
  }

  /** No literal reads more bytes than it has; when it reads as many, they are its own. */
  lemma {:induction false} ReadsAtMost(lit: string, s: string)
    requires Reads(lit, s).Some?
    ensures var n := Reads(lit, s).value; n <= |lit| && (n == |lit| ==> lit <= s)
    decreases |lit|
  {
    if lit != [] {
      var l, k := RuneLen(lit), RuneLen(s);
      ReadsAtMost(lit[l..], s[k..]);
      if Reads(lit, s).value == |lit| {
        assert k == l;
        PrefixStep(lit, s, l);
      }
    }
  }

  /** The shortest text that reads as the first rune of a literal: for U+FFFD an invalid byte. */
  function ShortestRune(lit: string): string
    requires lit != []
  {
    if lit[..RuneLen(lit)] == REPLACEMENT then [0xFF as char] else lit[..RuneLen(lit)]
  }

  function Shortest(lit: string): string
    decreases |lit|
  {
    if lit == [] then [] else ShortestRune(lit) + Shortest(lit[RuneLen(lit)..])
  }

  /** It is a rune of its own, whatever follows. */
  lemma FirstRune(lit: string, rest: string)
    requires lit != [] && Valid(lit)
    ensures var head := ShortestRune(lit);
            && (head + rest)[|head|..] == rest && (head + rest)[..|head|] == head && RuneLen(head + rest) == |head|
            && (lit[..RuneLen(lit)] == REPLACEMENT ==> ValidLen(head + rest) == 0)
  {
    var head := ShortestRune(lit);
    if lit[..RuneLen(lit)] != REPLACEMENT {
      assert ValidLen(head) == RuneLen(lit);
      ValidLenOfConcat(head, rest);
    }
  }

  /** So it is read, and then the rest of the literal. */
  lemma ReadsFirst(lit: string, rest: string)
    requires lit != [] && Valid(lit)
    ensures var more := Reads(lit[RuneLen(lit)..], rest);
            Reads(lit, ShortestRune(lit) + rest) == if more.None? then None else Some(|ShortestRune(lit)| + more.value)
  {
    FirstRune(lit, rest);
  }

  lemma {:induction false} ShortestReads(lit: string, t: string)
    requires Valid(lit)
    ensures Reads(lit, Shortest(lit) + t) == Some(|Shortest(lit)|)
    decreases |lit|
  {
    if lit != [] {
      var more := lit[RuneLen(lit)..];
      ShortestReads(more, t);
      Assoc(ShortestRune(lit), Shortest(more), t);
      ReadsFirst(lit, Shortest(more) + t);
    }
  }

  lemma {:induction false} ShortestLength(lit: string)
    requires Valid(lit)
    ensures |Shortest(lit)| <= |lit| && (HasReplacement(lit) ==> |Shortest(lit)| < |lit|)
    decreases |lit|
  {
    if lit != [] {
      ShortestLength(lit[RuneLen(lit)..]);
    }
  }
}
