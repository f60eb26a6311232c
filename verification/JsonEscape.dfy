/**
 Escaping a JSON text to ASCII (stringsToJSON of context/output.go), and what the result means
 to a reader of section 7 of RFC 8259.

 A text is the sequence of code points that ranging over the Go string yields.
 */
module JsonEscape {
  import opened Wrappers
  import opened Text

  /** `strconv.FormatInt(n, 16)` */
  function Hex(n: nat): (s: string)
    ensures |s| > 0
    ensures forall i :: 0 <= i < |s| ==> IsHex(s[i])
  {
    if n < 16 then [HexLower(n)] else Hex(n / 16) + [HexLower(n % 16)]
  }

  function Padding(n: nat): string
  {
    if n < 0x100 then "00" else if n < 0x1000 then "0" else ""
  }

  function EscapeRune(c: char): string
  {
    if c as int < 128 then [c] else "\\u" + Padding(c as int) + Hex(c as int)
  }

  function Escape(s: string): string
  {
    if s == [] then [] else EscapeRune(s[0]) + Escape(s[1..])
  }

  lemma {:induction false} EscapeLast(s: string, c: char)
    ensures Escape(s + [c]) == Escape(s) + EscapeRune(c)
  {
    if s == [] {
      assert ([c])[1..] == [];
      assert Escape(s + [c]) == EscapeRune(c) + Escape([]);
    } else {
      assert (s + [c])[1..] == s[1..] + [c];
      EscapeLast(s[1..], c);
    }
  }

  lemma AppendEscape(before: string, r: char)
    requires r as int >= 128
    ensures before + "\\u" + Padding(r as int) + Hex(r as int) == before + EscapeRune(r)
    ensures Padding(r as int) == "" ==> before + "\\u" + Hex(r as int) == before + EscapeRune(r)
  {
    Assoc(before, "\\u", Padding(r as int));
    Assoc(before, "\\u" + Padding(r as int), Hex(r as int));
    assert "\\u" + "" == "\\u";
  }

  method StringsToJson(str: string) returns (jsons: string)
    ensures jsons == Escape(str)
  {
    jsons := "";
    for i := 0 to |str|
      invariant jsons == Escape(str[..i])
    {
      var r := str[i];
      assert str[..i + 1] == str[..i] + [r];
      EscapeLast(str[..i], r);
      if r as int < 128 {
        jsons := jsons + [r];
      } else {
        ghost var before := jsons;
        jsons := jsons + "\\u";
        if r as int < 0x100 {
          jsons := jsons + "00";
        } else if r as int < 0x1000 {
          jsons := jsons + "0";
        }
        AppendEscape(before, r);
        jsons := jsons + Hex(r as int);
      }
    }
    assert str[..|str|] == str;
  }

  // ---------------------------------------------------------------- reading a text

  /** A character outside of strings, or a string as its UTF-16 units. */
  datatype Token = Mark(c: char) | Str(units: seq<nat>)

  function Utf16(c: char): (u: seq<nat>)
  {
    var n := c as int;
    if n < 0x10000 then [n] else [0xD800 + (n - 0x10000) / 0x400, 0xDC00 + (n - 0x10000) % 0x400]
  }

  /** A code point above the basic plane is a high and a low surrogate, which give it back. */
  lemma SurrogatesOf(c: char)
    requires c as int >= 0x10000
    ensures var u := Utf16(c);
            && |u| == 2 && 0xD800 <= u[0] < 0xDC00 && 0xDC00 <= u[1] < 0xE000
            && 0x10000 + (u[0] - 0xD800) * 0x400 + (u[1] - 0xDC00) == c as int
  {
  }

  function Cons(t: Token, rest: Option<seq<Token>>): Option<seq<Token>>
  {
    match rest
    case None => None
    case Some(ts) => Some([t] + ts)
  }

  /** The two-character escapes. */
  function Short(c: char): Option<nat>
  {
    match c
    case '"' => Some(0x22)
    case '\\' => Some(0x5C)
    case '/' => Some(0x2F)
    case 'b' => Some(0x08)
    case 'f' => Some(0x0C)
    case 'n' => Some(0x0A)
    case 'r' => Some(0x0D)
    case 't' => Some(0x09)
    case _ => None
  }

  predicate FourHex(s: string)
  {
    |s| >= 4 && IsHex(s[0]) && IsHex(s[1]) && IsHex(s[2]) && IsHex(s[3])
  }

  function UnitOf(s: string): nat
    requires FourHex(s)
  {
    0x1000 * HexVal(s[0]) + 0x100 * HexVal(s[1]) + 0x10 * HexVal(s[2]) + HexVal(s[3])
  }

  /**
   The tokens of a text; `None` if it has a non-ASCII character or a backslash outside of strings,
   or a bad string.
   */
  function Tokens(s: string): Option<seq<Token>>
    decreases |s|
  {
    if s == [] then Some([])
    else if s[0] == '"' then InString(s[1..], [])
    else if s[0] as int >= 128 || s[0] == '\\' then None
    else Cons(Mark(s[0]), Tokens(s[1..]))
  }

  /** The tokens of a text that starts inside a string whose units so far are given. */
  function InString(s: string, units: seq<nat>): Option<seq<Token>>
    decreases |s|
  {
    if s == [] then None
    else if s[0] == '"' then Cons(Str(units), Tokens(s[1..]))
    else if s[0] == '\\' then
      if |s| >= 2 && Short(s[1]).Some? then InString(s[2..], units + [Short(s[1]).value])
      else if |s| >= 2 && s[1] == 'u' && FourHex(s[2..]) then InString(s[6..], units + [UnitOf(s[2..])])
      else None
    else if s[0] as int < 0x20 then None
    else InString(s[1..], units + Utf16(s[0]))
  }

  /** Every code point fits one UTF-16 unit. */
  predicate Basic(s: string)
  {
    forall i :: 0 <= i < |s| ==> s[i] as int < 0x10000
  }

  // ---------------------------------------------------------------- the escapes

  /** Below 0x10000 an escape is a backslash, a `u` and the four digits of the code point. */
  lemma EscapeIsFour(c: char)
    requires 128 <= c as int < 0x10000
    ensures var e := EscapeRune(c);
            |e| == 6 && e[..2] == "\\u" && FourHex(e[2..]) && UnitOf(e[2..]) == c as int
  {
    HexDigits(c as int);
    FourDigitsRead(c as int);
    var digits := Padding(c as int) + Hex(c as int);
    assert EscapeRune(c) == "\\u" + digits;
    assert EscapeRune(c)[2..] == digits;
  }

  function FourDigits(n: nat): string
    requires n < 0x10000
  {
    [HexLower(n / 4096), HexLower(n / 256 % 16), HexLower(n / 16 % 16), HexLower(n % 16)]
  }

  lemma HexDigits(n: nat)
    requires 128 <= n < 0x10000
    ensures Padding(n) + Hex(n) == FourDigits(n)
  {
    assert n / 16 / 16 == n / 256 && n / 256 / 16 == n / 4096;
    assert n < 0x1000 ==> Hex(n / 256) == [HexLower(n / 256)];
    assert n >= 0x100 ==> Hex(n / 16) == Hex(n / 256) + [HexLower(n / 16 % 16)];
    assert n >= 0x1000 ==> Hex(n / 256) == Hex(n / 4096) + [HexLower(n / 256 % 16)];
    assert Hex(n / 4096) == [HexLower(n / 4096)];
  }

  lemma FourDigitsRead(n: nat)
    requires n < 0x10000
    ensures FourHex(FourDigits(n)) && UnitOf(FourDigits(n)) == n
  {
    Sixteenths(n);
  }

  lemma Sixteenths(n: nat)
    requires n < 0x10000
    ensures n == 0x1000 * (n / 4096) + 0x100 * (n / 256 % 16) + 0x10 * (n / 16 % 16) + n % 16
  {
    var a, b, c := n / 16, n / 256, n / 4096;
    Sixteenth(n);
    Sixteenth(a);
    Sixteenth(b);
    assert a / 16 == b && b / 16 == c;
  }

  lemma Sixteenth(n: nat)
    ensures n == 0x10 * (n / 16) + n % 16
  {
  }

  /** From 0x10000 on an escape has more than four digits. */
  lemma EscapeIsLong(c: char)
    requires c as int >= 0x10000
    ensures var e := EscapeRune(c);
            |e| >= 7 && e[..2] == "\\u" && forall i :: 2 <= i < |e| ==> IsHex(e[i])
  {
    var n := c as int;
    assert n / 16 / 16 / 16 / 16 > 0;
    assert |Hex(n)| >= 5 by {
      assert |Hex(n / 16 / 16 / 16 / 16)| >= 1;
      assert |Hex(n / 16 / 16 / 16)| >= 2;
      assert |Hex(n / 16 / 16)| >= 3;
      assert |Hex(n / 16)| >= 4;
    }
    assert EscapeRune(c) == "\\u" + Hex(n);
  }

  /** The output is ASCII. */
  lemma {:induction false} EscapeIsAscii(s: string)
    ensures forall i :: 0 <= i < |Escape(s)| ==> Escape(s)[i] as int < 128
  {
    if s != [] {
      EscapeIsAscii(s[1..]);
    }
  }

  lemma TakeHead(s: string, n: nat)
    requires 0 < n <= |s|
    ensures s[..n] == [s[0]] + s[1..][..n - 1] && s[1..][n - 1..] == s[n..]
  {
  }

  lemma {:induction false} EscapeAscii(s: string, n: nat)
    requires n <= |s| && forall i :: 0 <= i < n ==> s[i] as int < 128
    ensures Escape(s) == s[..n] + Escape(s[n..])
  {
    if n > 0 {
      EscapeAscii(s[1..], n - 1);
      assert Escape(s) == [s[0]] + Escape(s[1..]);
      TakeHead(s, n);
      Assoc([s[0]], s[1..][..n - 1], Escape(s[n..]));
    } else {
      assert s[n..] == s;
    }
  }

  // ---------------------------------------------------------------- the meaning is kept

  /** The string being read goes on from the units it already has. */
  lemma {:induction false} UnitsGrow(s: string, units: seq<nat>)
    requires InString(s, units).Some?
    ensures var ts := InString(s, units).value; |ts| > 0 && ts[0].Str? && units <= ts[0].units
    decreases |s|
  {
    if s[0] == '"' {
    } else if s[0] == '\\' {
      if Short(s[1]).Some? {
        UnitsGrow(s[2..], units + [Short(s[1]).value]);
      } else {
        UnitsGrow(s[6..], units + [UnitOf(s[2..])]);
      }
    } else {
      UnitsGrow(s[1..], units + Utf16(s[0]));
    }
  }

  /** An escape with four digits is read back as the character it stands for. */
  lemma FourReadBack(c: char, rest: string, units: seq<nat>)
    requires 128 <= c as int < 0x10000
    ensures InString(EscapeRune(c) + rest, units) == InString(rest, units + Utf16(c))
  {
    EscapeIsFour(c);
    var e := EscapeRune(c);
    var t := e + rest;
    assert t[0] == '\\' && t[1] == 'u' by { assert e[..2][0] == e[0] && e[..2][1] == e[1]; }
    assert t[2..][..4] == e[2..];
    assert FourHex(t[2..]) && UnitOf(t[2..]) == UnitOf(e[2..]) by {
      assert forall i :: 0 <= i < 4 ==> t[2..][i] == e[2..][i];
    }
    assert t[6..] == rest;
  }

  /** A longer one is read back as something else. */
  lemma LongReadBack(c: char, rest: string, rest': string, units: seq<nat>)
    requires c as int >= 0x10000
    requires InString(rest, units + Utf16(c)).Some?
    ensures InString(EscapeRune(c) + rest', units) != InString(rest, units + Utf16(c))
  {
    EscapeIsLong(c);
    var e := EscapeRune(c);
    var t := e + rest';
    assert t[0] == '\\' && t[1] == 'u' by { assert e[..2][0] == e[0] && e[..2][1] == e[1]; }
    var x := UnitOf(t[2..]);
    assert InString(t, units) == InString(t[6..], units + [x]);
    assert t[6] == e[6] && IsHex(t[6]);
    assert InString(t[6..], units + [x]) == InString(t[6..][1..], units + [x] + [t[6] as int]);
    UnitsGrow(rest, units + Utf16(c));
    var low := (units + Utf16(c))[|units| + 1];
    assert low >= 0xDC00;
    if InString(t, units).Some? {
      UnitsGrow(t[6..][1..], units + [x] + [t[6] as int]);
      assert (units + [x] + [t[6] as int])[|units| + 1] == t[6] as int < 128;
    }
  }

  /**
   A text that can be read means the same after escaping, token for token and string for
   string, if and only if all its code points are below 0x10000.
   */
  lemma {:induction false} EscapeKeepsMeaning(s: string)
    requires Tokens(s).Some?
    ensures Tokens(Escape(s)) == Tokens(s) <==> Basic(s)
    decreases |s|
  {
    if s != [] {
      EscapeAscii(s, 1);
      assert Escape(s)[1..] == Escape(s[1..]);
      BasicTail(s, 1);
      if s[0] == '"' {
        StringKept(s[1..], []);
      } else {
        EscapeKeepsMeaning(s[1..]);
        ConsInjective(Mark(s[0]), Tokens(Escape(s[1..])), Tokens(s[1..]));
      }
    }
  }

  lemma ConsInjective(t: Token, a: Option<seq<Token>>, b: Option<seq<Token>>)
    ensures Cons(t, a) == Cons(t, b) <==> a == b
  {
    if a.Some? && b.Some? && [t] + a.value == [t] + b.value {
      assert a.value == ([t] + a.value)[1..] == b.value;
    }
  }

  lemma BasicTail(s: string, n: nat)
    requires n <= |s| && forall i :: 0 <= i < n ==> s[i] as int < 0x10000
    ensures Basic(s) <==> Basic(s[n..])
  {
    if Basic(s[n..]) {
      forall i | 0 <= i < |s| ensures s[i] as int < 0x10000 {
        assert i >= n ==> s[i] == s[n..][i - n];
      }
    }
  }

  lemma {:induction false} StringKept(s: string, units: seq<nat>)
    requires InString(s, units).Some?
    ensures InString(Escape(s), units) == InString(s, units) <==> Basic(s)
    decreases |s|
  {
    var c := s[0];
    if c == '"' {
      EscapeAscii(s, 1);
      assert Escape(s)[1..] == Escape(s[1..]);
      BasicTail(s, 1);
      EscapeKeepsMeaning(s[1..]);
      ConsInjective(Str(units), Tokens(Escape(s[1..])), Tokens(s[1..]));
    } else if c == '\\' {
      EscapeKept(s, units);
    } else if c as int < 128 {
      EscapeAscii(s, 1);
      assert Escape(s)[1..] == Escape(s[1..]);
      BasicTail(s, 1);
      StringKept(s[1..], units + Utf16(c));
    } else if c as int < 0x10000 {
      FourReadBack(c, Escape(s[1..]), units);
      BasicTail(s, 1);
      StringKept(s[1..], units + Utf16(c));
    } else {
      LongReadBack(c, s[1..], Escape(s[1..]), units);
      assert !Basic(s);
    }
  }

  lemma {:induction false} EscapeKept(s: string, units: seq<nat>)
    requires InString(s, units).Some? && s[0] == '\\'
    ensures InString(Escape(s), units) == InString(s, units) <==> Basic(s)
    decreases |s|, 0
  {
    if Short(s[1]).Some? {
      AsciiHead(s, Escape(s), 2);
      StringKept(s[2..], units + [Short(s[1]).value]);
    } else {
      AsciiHead(s, Escape(s), 6);
      UnitSame(s, Escape(s));
      StringKept(s[6..], units + [UnitOf(s[2..])]);
    }
  }

  /** ASCII characters at the start are their own escapes. */
  lemma AsciiHead(s: string, t: string, n: nat)
    requires n <= |s| && t == Escape(s) && forall i :: 0 <= i < n ==> s[i] as int < 128
    ensures n <= |t| && t[n..] == Escape(s[n..]) && forall i :: 0 <= i < n ==> t[i] == s[i]
    ensures Basic(s) <==> Basic(s[n..])
  {
    EscapeAscii(s, n);
    BasicTail(s, n);
    assert t[n..] == Escape(s[n..]) && t[..n] == s[..n];
    assert forall i :: 0 <= i < n ==> t[i] == t[..n][i] && s[i] == s[..n][i];
  }

  lemma UnitSame(s: string, t: string)
    requires 6 <= |s| && 6 <= |t| && forall i :: 0 <= i < 6 ==> t[i] == s[i]
    ensures FourHex(t[2..]) == FourHex(s[2..]) && (FourHex(s[2..]) ==> UnitOf(t[2..]) == UnitOf(s[2..]))
  {
    assert forall i :: 0 <= i < 4 ==> t[2..][i] == t[2 + i] && s[2..][i] == s[2 + i];
  }
}
