/**
 The URL-safe base64 alphabet with padding (section 5 of RFC 4648), as the session codec
 uses it: the two buffer-filling routines, and the functions that specify them.
 Decoding skips carriage returns and line feeds, and ignores the unused low bits of the
 last sextet.
 */
module Base64 {
  import opened Wrappers
  import opened Text

  // ---------------------------------------------------------------- the alphabet

  /** A sextet is below 64; PAD and BAD are the codes of '=' and of any other character. */
  const PAD: nat := 64
  const BAD: nat := 65

  function Code(c: char): (v: nat)
    ensures v <= BAD
  {
    if 'A' <= c <= 'Z' then c as int - 'A' as int
    else if 'a' <= c <= 'z' then c as int - 'a' as int + 26
    else if '0' <= c <= '9' then c as int - '0' as int + 52
    else if c == '-' then 62
    else if c == '_' then 63
    else if c == '=' then PAD
    else BAD
  }

  function Symbol(v: nat): (c: Byte)
    requires v <= PAD
    ensures Code(c) == v
    ensures c != '|' && !IsNewline(c)
  {
    if v < 26 then (v + 'A' as int) as char
    else if v < 52 then (v - 26 + 'a' as int) as char
    else if v < 62 then (v - 52 + '0' as int) as char
    else if v == 62 then '-'
    else if v == 63 then '_'
    else '='
  }

  predicate IsNewline(c: char)
  {
    c == '\n' || c == '\r'
  }

  type Codes = seq<nat>

  predicate Writable(v: Codes)
  {
    forall k :: 0 <= k < |v| ==> v[k] <= PAD
  }

  function Symbols(v: Codes): (s: Bytes)
    requires Writable(v)
    ensures |s| == |v|
    ensures forall k :: 0 <= k < |v| ==> s[k] == Symbol(v[k])
  {
    seq(|v|, i requires 0 <= i < |v| => Symbol(v[i]))
  }

  function CodesOf(s: Bytes): (v: Codes)
    ensures |v| == |s|
    ensures forall k :: 0 <= k < |s| ==> v[k] == Code(s[k])
  {
    seq(|s|, i requires 0 <= i < |s| => Code(s[i]))
  }

  // ---------------------------------------------------------------- groups

  /** Four sextets for three bytes. */
  function Quad(a: Byte, b: Byte, c: Byte): (q: Codes)
    ensures |q| == 4 && forall k :: 0 <= k < 4 ==> q[k] < 64
  {
    var (x, y, z) := (a as int, b as int, c as int);
    [x / 4, x % 4 * 16 + y / 16, y % 16 * 4 + z / 64, z % 64]
  }

  /** Three bytes for four sextets. */
  function Triple(p: nat, q: nat, r: nat, s: nat): (t: Bytes)
    requires p < 64 && q < 64 && r < 64 && s < 64
    ensures |t| == 3
  {
    [(p * 4 + q / 16) as char, (q % 16 * 16 + r / 4) as char, (r % 4 * 64 + s) as char]
  }

  /** The padded last group. */
  function Tail(s: Bytes): (v: Codes)
    requires |s| < 3
    ensures |v| == (if s == [] then 0 else 4) && Writable(v)
  {
    if s == [] then []
    else if |s| == 1 then Quad(s[0], '\0', '\0')[..2] + [PAD, PAD]
    else Quad(s[0], s[1], '\0')[..3] + [PAD]
  }

  function Grouped(s: Bytes): (v: Codes)
    ensures Writable(v)
  {
    if |s| < 3 then Tail(s) else Quad(s[0], s[1], s[2]) + Grouped(s[3..])
  }

  function Encoded(s: Bytes): Bytes
  {
    Symbols(Grouped(s))
  }

  /** The bytes of one group of four codes; `last` says that nothing follows it. */
  function QuadBytes(q: Codes, last: bool): Option<Bytes>
    requires |q| == 4
  {
    if q[0] >= 64 || q[1] >= 64 then None
    else if q[2] < 64 then
      if q[3] < 64 then Some(Triple(q[0], q[1], q[2], q[3]))
      else if q[3] == PAD && last then Some(Triple(q[0], q[1], q[2], 0)[..2])
      else None
    else if q[2] == PAD && q[3] == PAD && last then Some(Triple(q[0], q[1], 0, 0)[..1])
    else None
  }

  function Ungrouped(v: Codes): Option<Bytes>
    decreases |v|
  {
    if v == [] then Some([])
    else if |v| < 4 then None
    else
      match QuadBytes(v[..4], |v| == 4)
      case None => None
      case Some(b) => Prepend(b, Ungrouped(v[4..]))
  }

  function Prepend(b: Bytes, r: Option<Bytes>): Option<Bytes>
  {
    match r
    case None => None
    case Some(t) => Some(b + t)
  }

  function DropNewlines(s: Bytes): (r: Bytes)
  {
    if s == [] then [] else (if IsNewline(s[0]) then [] else [s[0]]) + DropNewlines(s[1..])
  }

  function Decoded(s: Bytes): Option<Bytes>
  {
    Ungrouped(CodesOf(DropNewlines(s)))
  }

  // ---------------------------------------------------------------- laws

  lemma {:induction false} NoNewlines(s: Bytes)
    requires forall k :: 0 <= k < |s| ==> !IsNewline(s[k])
    ensures DropNewlines(s) == s
  {
    if s != [] {
      NoNewlines(s[1..]);
    }
  }

  lemma TripleOfQuad(a: Byte, b: Byte, c: Byte)
    ensures var q := Quad(a, b, c); Triple(q[0], q[1], q[2], q[3]) == [a, b, c]
  {
  }

  lemma PrependTo(b: Bytes)
    ensures Prepend(b, Ungrouped([])) == Some(b)
  {
    assert b + [] == b;
  }

  lemma TailBytes(s: Bytes)
    requires 1 <= |s| <= 2
    ensures QuadBytes(Tail(s), true) == Some(s)
  {
    var q := Quad(s[0], if |s| == 2 then s[1] else '\0', '\0');
    TripleOfQuad(s[0], if |s| == 2 then s[1] else '\0', '\0');
    assert q[3] == 0 && (|s| == 1 ==> q[2] == 0);
    assert Triple(q[0], q[1], q[2], q[3])[..|s|] == s;
  }

  lemma {:induction false} UngroupedOfGrouped(s: Bytes)
    ensures Ungrouped(Grouped(s)) == Some(s)
  {
    var v := Grouped(s);
    if |s| == 0 {
    } else if |s| < 3 {
      TailBytes(s);
      assert v[..4] == v && v[4..] == [];
      PrependTo(s);
    } else {
      TripleOfQuad(s[0], s[1], s[2]);
      UngroupedOfGrouped(s[3..]);
      assert v[..4] == Quad(s[0], s[1], s[2]);
      assert v[4..] == Grouped(s[3..]);
      assert s == [s[0], s[1], s[2]] + s[3..];
    }
  }

  /** Encoding writes no delimiter and no newline. */
  lemma EncodedIsClean(s: Bytes)
    ensures '|' !in Encoded(s)
    ensures forall k :: 0 <= k < |Encoded(s)| ==> !IsNewline(Encoded(s)[k])
  {
  }

  /** Decoding undoes encoding, for every byte string. */
  lemma RoundTrip(s: Bytes)
    ensures Decoded(Encoded(s)) == Some(s)
  {
    EncodedIsClean(s);
    NoNewlines(Encoded(s));
    assert CodesOf(Encoded(s)) == Grouped(s);
    UngroupedOfGrouped(s);
  }

  // ---------------------------------------------------------------- buffers

  lemma SymbolsOfConcat(a: Codes, b: Codes)
    requires Writable(a) && Writable(b)
    ensures Writable(a + b) && Symbols(a + b) == Symbols(a) + Symbols(b)
  {
  }

  /** `done` encodes the first `n` bytes of `s`. */
  predicate Encodes(s: Bytes, n: nat, done: Codes)
  {
    n <= |s| && Writable(done) && Grouped(s) == done + Grouped(s[n..])
  }

  lemma EncodesNothing(s: Bytes)
    ensures Encodes(s, 0, [])
  {
    assert s[0..] == s && [] + Grouped(s) == Grouped(s);
  }

  lemma EncodesStep(s: Bytes, n: nat, done: Codes)
    requires n + 3 <= |s| && Encodes(s, n, done)
    ensures Encodes(s, n + 3, done + Quad(s[n], s[n + 1], s[n + 2]))
  {
    var q := Quad(s[n], s[n + 1], s[n + 2]);
    assert s[n..][3..] == s[n + 3..];
    assert Grouped(s[n..]) == q + Grouped(s[n + 3..]);
    Assoc(done, q, Grouped(s[n + 3..]));
  }

  lemma EncodesAll(s: Bytes, n: nat, done: Codes)
    requires n <= |s| < n + 3 && Encodes(s, n, done)
    ensures Encoded(s) == Symbols(done) + Symbols(Tail(s[n..]))
  {
    SymbolsOfConcat(done, Tail(s[n..]));
  }

  /** Fills a fresh buffer of the encoded length, three bytes at a time. */
  method Encode(value: array<Byte>) returns (encoded: array<Byte>)
    ensures fresh(encoded)
    ensures encoded[..] == Encoded(value[..])
  {
    ghost var s := value[..];
    ghost var done: Codes := [];
    EncodesNothing(s);
    encoded := new Byte[(value.Length + 2) / 3 * 4];
    var si, di := 0, 0;
    while si + 3 <= value.Length
      invariant 0 <= si <= value.Length && 3 * di == 4 * si && di == |done|
      invariant Encodes(s, si, done)
      invariant encoded[..di] == Symbols(done)
    {
      var q := Quad(value[si], value[si + 1], value[si + 2]);
      EncodesStep(s, si, done);
      Put(encoded, di, Symbols(q));
      SymbolsOfConcat(done, q);
      done, si, di := done + q, si + 3, di + 4;
    }
    EncodesAll(s, si, done);
    var tail := Symbols(Tail(value[si..]));
    Put(encoded, di, tail);
    assert encoded[..di + |tail|] == encoded[..];
  }

  /** Copies `s` into the buffer from position `i` on. */
  method Put(buf: array<Byte>, i: nat, s: Bytes)
    requires i + |s| <= buf.Length
    modifies buf
    ensures buf[..i + |s|] == old(buf[..i]) + s
    ensures buf[i + |s|..] == old(buf[i + |s|..])
  {
    forall k | 0 <= k < |s| {
      buf[i + k] := s[k];
    }
  }

  /** One full group of four codes adds its bytes to those already decoded. */
  lemma GroupStep(done: Bytes, quad: Codes, rest: Codes)
    requires |quad| == 4
    ensures Prepend(done, Ungrouped(quad + rest)) ==
            match QuadBytes(quad, rest == [])
            case None => None
            case Some(b) => Prepend(done + b, Ungrouped(rest))
  {
    assert (quad + rest)[..4] == quad && (quad + rest)[4..] == rest;
    var b := QuadBytes(quad, rest == []);
    if b.Some? && Ungrouped(rest).Some? {
      assert done + (b.value + Ungrouped(rest).value) == (done + b.value) + Ungrouped(rest).value;
    }
  }

  lemma QuadBytesLength(q: Codes, last: bool)
    requires |q| == 4
    ensures QuadBytes(q, last).Some? ==> |QuadBytes(q, last).value| <= 3
  {
  }

  /** The codes still to be read from position `i` on. */
  function CodesFrom(s: Bytes, i: nat): Codes
    requires i <= |s|
  {
    CodesOf(DropNewlines(s[i..]))
  }

  lemma CodesFromStep(s: Bytes, i: nat)
    requires i < |s|
    ensures CodesFrom(s, i) == (if IsNewline(s[i]) then [] else [Code(s[i])]) + CodesFrom(s, i + 1)
  {
    assert s[i..][1..] == s[i + 1..];
  }

  /** `done` decodes what stands before position `i`, but for the codes in `quad`. */
  predicate Decodes(s: Bytes, i: nat, done: Bytes, quad: Codes)
  {
    i <= |s| && Decoded(s) == Prepend(done, Ungrouped(quad + CodesFrom(s, i)))
  }

  lemma DecodesNothing(s: Bytes)
    ensures Decodes(s, 0, [], [])
  {
    assert s[0..] == s && [] + CodesFrom(s, 0) == CodesFrom(s, 0);
    var r := Decoded(s);
    if r.Some? {
      assert [] + r.value == r.value;
    }
  }

  lemma DecodesStep(s: Bytes, i: nat, done: Bytes, quad: Codes)
    requires i < |s| && Decodes(s, i, done, quad)
    ensures IsNewline(s[i]) ==> Decodes(s, i + 1, done, quad)
    ensures !IsNewline(s[i]) ==> Decodes(s, i + 1, done, quad + [Code(s[i])])
  {
    CodesFromStep(s, i);
    var rest := CodesFrom(s, i + 1);
    assert [] + rest == rest;
    Assoc(quad, [Code(s[i])], rest);
  }

  lemma DecodesGroup(s: Bytes, i: nat, done: Bytes, quad: Codes)
    requires Decodes(s, i, done, quad) && |quad| == 4
    ensures match QuadBytes(quad, CodesFrom(s, i) == [])
            case None => Decoded(s) == None
            case Some(b) => |b| <= 3 && Decodes(s, i, done + b, [])
  {
    var rest := CodesFrom(s, i);
    GroupStep(done, quad, rest);
    QuadBytesLength(quad, rest == []);
    assert [] + rest == rest;
  }

  lemma DecodesAll(s: Bytes, done: Bytes, quad: Codes)
    requires Decodes(s, |s|, done, quad) && |quad| < 4
    ensures Decoded(s) == if quad == [] then Some(done) else None
  {
    assert quad + CodesFrom(s, |s|) == quad;
    PrependTo(done);
  }

  /** How many bytes are stored, and the codes of the group begun. */
  datatype Progress = Progress(n: nat, quad: Codes)

  /** Fills a buffer with the decoded bytes, one group of four characters at a time. */
  method Decode(value: array<Byte>) returns (r: Option<Bytes>)
    ensures r == Decoded(value[..])
  {
    ghost var s := value[..];
    var decoded := new Byte[value.Length];
    var si, n := 0, 0;
    var quad: Codes := [];
    DecodesNothing(s);
    assert decoded[..0] == [];
    while si < value.Length
      invariant 0 <= si <= value.Length && |quad| < 4 && 0 <= n && n + |quad| <= si
      invariant value[..] == s
      invariant Decodes(s, si, decoded[..n], quad)
    {
      var next := DecodeByte(value, si, decoded, n, quad, s);
      if next == None {
        return None;
      }
      si, n, quad := si + 1, next.value.n, next.value.quad;
    }
    DecodesAll(s, decoded[..n], quad);
    return if quad != [] then None else Some(decoded[..n]);
  }

  /** Skips a newline or adds a code; stores the group that it completes. */
  method DecodeByte(value: array<Byte>, si: nat, decoded: array<Byte>, n: nat, quad: Codes, ghost s: Bytes)
    returns (r: Option<Progress>)
    requires value != decoded && s == value[..] && si < value.Length == decoded.Length
    requires |quad| < 4 && n + |quad| <= si && Decodes(s, si, decoded[..n], quad)
    modifies decoded
    ensures r.None? ==> Decoded(s) == None
    ensures r.Some? ==> |r.value.quad| < 4 && r.value.n + |r.value.quad| <= si + 1
    ensures r.Some? ==> Decodes(s, si + 1, decoded[..r.value.n], r.value.quad)
  {
    DecodesStep(s, si, decoded[..n], quad);
    if IsNewline(value[si]) {
      return Some(Progress(n, quad));
    }
    var more := quad + [Code(value[si])];
    if |more| < 4 {
      return Some(Progress(n, more));
    }
    var k := StoreGroup(value, si + 1, decoded, n, more, s);
    return if k == None then None else Some(Progress(n + k.value, []));
  }

  /** Stores the bytes of four codes, the last ones if only newlines follow; how many they are. */
  method StoreGroup(value: array<Byte>, si: nat, decoded: array<Byte>, n: nat, quad: Codes, ghost s: Bytes)
    returns (k: Option<nat>)
    requires value != decoded && |quad| == 4 && n + 3 <= decoded.Length && s == value[..]
    requires Decodes(s, si, decoded[..n], quad)
    modifies decoded
    ensures k.None? ==> Decoded(s) == None
    ensures k.Some? ==> k.value <= 3 && Decodes(s, si, decoded[..n + k.value], [])
  {
    var last := OnlyNewlines(value, si);
    DecodesGroup(s, si, decoded[..n], quad);
    var b := QuadBytes(quad, last);
    if b == None {
      return None;
    }
    Put(decoded, n, b.value);
    return Some(|b.value|);
  }

  /** Whether only newlines follow. */
  method OnlyNewlines(value: array<Byte>, from: nat) returns (r: bool)
    requires from <= value.Length
    ensures r <==> CodesFrom(value[..], from) == []
  {
    var i := from;
    while i < value.Length && IsNewline(value[i])
      invariant from <= i <= value.Length
      invariant CodesFrom(value[..], from) == CodesFrom(value[..], i)
    {
      CodesFromStep(value[..], i);
      i := i + 1;
    }
    if i < value.Length {
      CodesFromStep(value[..], i);
    }
    r := i == value.Length;
  }
}
