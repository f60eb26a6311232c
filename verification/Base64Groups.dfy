/**
 What an encoding is: the alphabet of section 5 of RFC 4648, and each group of four characters as
 the number that its three bytes are.
 */
module Base64Groups {
  import opened Wrappers
  import opened Text
  import opened Base64

  function CharsFrom(c: char, n: nat): string
    requires c as int + n <= 128
  {
    seq(n, i requires 0 <= i < n => (c as int + i) as char)
  }

  /** The alphabet of section 5 of RFC 4648: capital and small letters, digits, `-` and `_`. */
  lemma SymbolsOfAlphabet()
    ensures Symbols(seq(64, i requires 0 <= i < 64 => i)) ==
            CharsFrom('A', 26) + CharsFrom('a', 26) + CharsFrom('0', 10) + ['-', '_']
  {
  }

  /** Four codes are the same number as the three bytes they stand for, read from the left. */
  lemma QuadIsNumber(a: Byte, b: Byte, c: Byte)
    ensures var q := Quad(a, b, c);
            ((q[0] * 64 + q[1]) * 64 + q[2]) * 64 + q[3] == (a as int * 256 + b as int) * 256 + c as int
  {
  }

  /**
   Four characters stand for one to three bytes: symbols of the alphabet for the same number, read
   from the left, where missing bytes and `=` count as zero, and there is one symbol more than bytes.
   */
  predicate StandFor(e: Bytes, t: Bytes)
  {
    && |e| == 4 && 1 <= |t| <= 3
    && (forall i :: 0 <= i < 4 ==> if i <= |t| then Code(e[i]) < 64 else e[i] == '=')
    && ((Code(e[0]) * 64 + Code(e[1])) * 64 + Code(e[2]) % 64) * 64 + Code(e[3]) % 64 ==
       (t[0] as int * 256 + (if |t| > 1 then t[1] as int else 0)) * 256 + if |t| > 2 then t[2] as int else 0
  }

  lemma GroupStands(e: Bytes, t: Bytes, q: Codes)
    requires 1 <= |t| <= 3 && |e| == 4
    requires q == Quad(t[0], if |t| > 1 then t[1] else '\0', if |t| > 2 then t[2] else '\0')
    requires forall i :: 0 <= i < 4 ==> Code(e[i]) == if i <= |t| then q[i] else PAD
    ensures StandFor(e, t)
  {
    QuadIsNumber(t[0], if |t| > 1 then t[1] else '\0', if |t| > 2 then t[2] else '\0');
    LowZero(t[0], if |t| > 1 then t[1] else '\0');
    PadIsSign(e[2]);
    PadIsSign(e[3]);
    SextetOrPad(Code(e[2]), q[2], |t| > 1);
    SextetOrPad(Code(e[3]), q[3], |t| > 2);
  }

  /** Without a second or third byte the sextets for it are zero. */
  lemma LowZero(a: Byte, b: Byte)
    ensures Quad(a, '\0', '\0')[2] == 0 && Quad(a, b, '\0')[3] == 0
  {
  }

  lemma SextetOrPad(code: nat, q: nat, given: bool)
    requires code == (if given then q else PAD) && q < 64 && (!given ==> q == 0)
    ensures code % 64 == q
  {
  }

  lemma PadIsSign(c: char)
    ensures Code(c) == PAD ==> c == '='
  {
  }

  lemma FirstGroup(s: Bytes)
    requires s != []
    ensures |Encoded(s)| >= 4 && (|s| <= 3 ==> |Encoded(s)| == 4)
    ensures StandFor(Encoded(s)[..4], s[..if |s| < 3 then |s| else 3])
  {
    var t := s[..if |s| < 3 then |s| else 3];
    var q := Quad(t[0], if |t| > 1 then t[1] else '\0', if |t| > 2 then t[2] else '\0');
    var g := Grouped(s);
    assert forall i :: 0 <= i < 4 ==> g[i] == if i <= |t| then q[i] else PAD;
    GroupStands(Encoded(s)[..4], t, q);
    assert |s| == 3 ==> s[3..] == [] && Grouped(s[3..]) == [];
  }

  /** The groups from the k-th on are the encoding of the bytes from the k-th three on. */
  lemma {:induction false} LaterGroups(s: Bytes, k: nat, from: nat, to: nat)
    requires from == 3 * k <= |s| && to == 4 * k
    ensures |Encoded(s)| == to + |Encoded(s[from..])| && Encoded(s)[to..] == Encoded(s[from..])
    decreases k
  {
    if k == 0 {
      assert s[0..] == s && Encoded(s)[0..] == Encoded(s);
    } else {
      LaterGroups(s[3..], k - 1, from - 3, to - 4);
      SecondGroup(s);
      DropTwice(s, 3, from - 3);
      DropTwice(Encoded(s), 4, to - 4);
    }
  }

  lemma SecondGroup(s: Bytes)
    requires |s| >= 3
    ensures |Encoded(s)| == 4 + |Encoded(s[3..])| && Encoded(s)[4..] == Encoded(s[3..])
  {
    assert Grouped(s) == Quad(s[0], s[1], s[2]) + Grouped(s[3..]);
  }

  lemma DropTwice(s: Bytes, a: nat, b: nat)
    requires a + b <= |s|
    ensures s[a..][b..] == s[a + b..]
  {
  }

  /** Every group of four characters stands for the three bytes in its place, the last one for those left. */
  lemma EncodedAt(s: Bytes, k: nat)
    requires 3 * k < |s|
    ensures 4 * k + 4 <= |Encoded(s)| && (|s| <= 3 * k + 3 ==> |Encoded(s)| == 4 * k + 4)
    ensures StandFor(Encoded(s)[4 * k..4 * k + 4], s[3 * k..if |s| < 3 * k + 3 then |s| else 3 * k + 3])
  {
    var rest := s[3 * k..];
    LaterGroups(s, k, 3 * k, 4 * k);
    FirstGroup(rest);
    assert Encoded(s)[4 * k..4 * k + 4] == Encoded(rest)[..4];
    assert rest[..if |rest| < 3 then |rest| else 3] == s[3 * k..if |s| < 3 * k + 3 then |s| else 3 * k + 3];
  }

  // ---------------------------------------------------------------- what is decoded

  /** Decoding sees neither carriage returns nor line feeds, and every other character. */
  lemma {:induction false} DropOne(a: Bytes, c: Byte, b: Bytes)
    ensures DropNewlines(a + [c] + b) ==
            DropNewlines(a) + (if c == '\n' || c == '\r' then [] else [c]) + DropNewlines(b)
  {
    if a == [] {
      assert a + [c] + b == [c] + b;
    } else {
      DropOne(a[1..], c, b);
      assert (a + [c] + b)[0] == a[0] && (a + [c] + b)[1..] == a[1..] + [c] + b;
      var here := if IsNewline(a[0]) then [] else [a[0]];
      Assoc(here, DropNewlines(a[1..]), if c == '\n' || c == '\r' then [] else [c]);
      Assoc(here, DropNewlines(a[1..]) + (if c == '\n' || c == '\r' then [] else [c]), DropNewlines(b));
    }
  }

  /**
   Four characters are read as one to three bytes: one symbol more than bytes, then `=`, and the
   bytes are the number of the symbols without the bits that are left over.
   */
  predicate ReadAs(e: Bytes, t: Bytes)
  {
    && |e| == 4 && 1 <= |t| <= 3
    && (forall i :: 0 <= i < 4 ==> if i <= |t| then Code(e[i]) < 64 else e[i] == '=')
    && var (p, q, r, s) := (Code(e[0]), Code(e[1]), Code(e[2]), Code(e[3]));
       if |t| == 3 then ((p * 64 + q) * 64 + r) * 64 + s == (t[0] as int * 256 + t[1] as int) * 256 + t[2] as int
       else if |t| == 2 then ((p * 64 + q) * 64 + r) / 4 == t[0] as int * 256 + t[1] as int
       else (p * 64 + q) / 16 == t[0] as int
  }

  lemma TripleIsNumber(p: nat, q: nat, r: nat, s: nat)
    requires p < 64 && q < 64 && r < 64 && s < 64
    ensures var t := Triple(p, q, r, s);
            && ((p * 64 + q) * 64 + r) * 64 + s == (t[0] as int * 256 + t[1] as int) * 256 + t[2] as int
            && ((p * 64 + q) * 64 + r) / 4 == t[0] as int * 256 + t[1] as int
            && (p * 64 + q) / 16 == t[0] as int
  {
    DividedBy16(p, q);
    var t := Triple(p, q, r, s);
    assert t[0] as int == p * 4 + q / 16 && t[1] as int == q % 16 * 16 + r / 4 && t[2] as int == r % 4 * 64 + s;
  }

  lemma DividedBy16(p: nat, q: nat)
    ensures (p * 64 + q) / 16 == p * 4 + q / 16
  {
  }

  lemma SameNumber(a: Bytes, b: Bytes)
    requires |a| == |b| == 3
    requires (a[0] as int * 256 + a[1] as int) * 256 + a[2] as int ==
             (b[0] as int * 256 + b[1] as int) * 256 + b[2] as int
    ensures a == b
  {
  }

  lemma SamePair(a: Bytes, b: Bytes)
    requires |a| == |b| == 2 && a[0] as int * 256 + a[1] as int == b[0] as int * 256 + b[1] as int
    ensures a == b
  {
  }

  lemma ReadIsQuad(e: Bytes, last: bool, t: Bytes)
    requires ReadAs(e, t) && (|t| < 3 ==> last)
    ensures QuadBytes(CodesOf(e), last) == Some(t)
  {
    var (p, q, r, s) := (Code(e[0]), Code(e[1]), Code(e[2]), Code(e[3]));
    TripleIsNumber(p, q, if |t| > 1 then r else 0, if |t| > 2 then s else 0);
    var u := Triple(p, q, if |t| > 1 then r else 0, if |t| > 2 then s else 0);
    if |t| == 3 {
      SameNumber(t, u);
    } else if |t| == 2 {
      SamePair(t, u[..2]);
    } else {
      assert t == u[..1];
    }
  }

  lemma QuadIsRead(e: Bytes, last: bool, t: Bytes)
    requires |e| == 4 && QuadBytes(CodesOf(e), last) == Some(t)
    ensures ReadAs(e, t) && (|t| < 3 ==> last)
  {
    var q := CodesOf(e);
    PadIsSign(e[2]);
    PadIsSign(e[3]);
    TripleIsNumber(q[0], q[1], if q[2] < 64 then q[2] else 0, if q[3] < 64 then q[3] else 0);
  }

  /** A group stands for bytes just if it is read as them, with padding only at the end. */
  lemma QuadReads(e: Bytes, last: bool, t: Bytes)
    requires |e| == 4
    ensures QuadBytes(CodesOf(e), last) == Some(t) <==> ReadAs(e, t) && (|t| < 3 ==> last)
  {
    if QuadBytes(CodesOf(e), last) == Some(t) {
      QuadIsRead(e, last, t);
    }
    if ReadAs(e, t) && (|t| < 3 ==> last) {
      ReadIsQuad(e, last, t);
    }
  }

  /** The text is read as the bytes, group by group, with padding only in the last one. */
  predicate ReadsTo(e: Bytes, b: Bytes)
    decreases |e|
  {
    if e == [] then b == []
    else if |e| <= 4 then ReadAs(e, b)
    else |b| >= 3 && ReadAs(e[..4], b[..3]) && ReadsTo(e[4..], b[3..])
  }

  lemma {:induction false} UngroupedIff(e: Bytes, b: Bytes)
    ensures Ungrouped(CodesOf(e)) == Some(b) <==> ReadsTo(e, b)
    decreases |e|
  {
    if |e| == 4 {
      LastGroup(e, b);
    } else if |e| > 4 {
      var first := QuadBytes(CodesOf(e)[..4], false);
      assert CodesOf(e)[..4] == CodesOf(e[..4]) && CodesOf(e)[4..] == CodesOf(e[4..]);
      if first.Some? {
        QuadReads(e[..4], false, first.value);
        if |b| >= 3 {
          UngroupedIff(e[4..], b[3..]);
          QuadReads(e[..4], false, b[..3]);
          assert b == b[..3] + b[3..];
        }
        var rest := Ungrouped(CodesOf(e[4..]));
        assert rest.Some? ==>
            (first.value + rest.value)[3..] == rest.value && (first.value + rest.value)[..3] == first.value;
      } else if |b| >= 3 {
        QuadReads(e[..4], false, b[..3]);
      }
    }
  }

  lemma LastGroup(e: Bytes, b: Bytes)
    requires |e| == 4
    ensures Ungrouped(CodesOf(e)) == Some(b) <==> ReadAs(e, b)
  {
    var v := CodesOf(e);
    assert v[..4] == v && v[4..] == [];
    QuadReads(e, true, b);
    var q := QuadBytes(v, true);
    if q.Some? {
      PrependTo(q.value);
    }
  }

  /** Exactly the texts that are such groups once newlines are left out are decoded, and to those bytes. */
  lemma DecodedIff(s: Bytes, b: Bytes)
    ensures Decoded(s) == Some(b) <==> ReadsTo(DropNewlines(s), b)
  {
    UngroupedIff(DropNewlines(s), b);
  }
}
