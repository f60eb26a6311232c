/**
 The signed and encrypted session cookie of session/session_utils.go.

 The block cipher's keystream, the MAC and the gob serialisation are parameters; the laws
 the round trip needs of them are `Lawful`. Everything between them is concrete: base64,
 XOR, the decimal timestamp, and the framing by '|'.
 */
module Session {
  import opened Wrappers
  import opened Text
  import Base64

  datatype Codec<!V> = Codec(
    blockSize: nat,
    keystream: (Bytes, nat) -> Bytes,
    mac: (Bytes, Bytes) -> Bytes,
    gobEncode: map<string, V> -> Option<Bytes>,
    gobDecode: Bytes -> Option<map<string, V>>)

  datatype Error =
    | GobError
    | BadBase64
    | BadFormat
    | BadMac
    | BadTimestamp
    | TooNew
    | Expired
    | BadPayload
    | TooShort

  /** A keystream is as long as asked; gob writes at least one byte and reads back what it wrote. */
  ghost predicate Lawful<V(!new)>(c: Codec<V>)
  {
    && (forall iv: Bytes, n: nat :: |c.keystream(iv, n)| == n)
    && (forall m: map<string, V> :: c.gobEncode(m).Some? ==>
          |c.gobEncode(m).value| > 0 && c.gobDecode(c.gobEncode(m).value) == Some(m))
  }

  // ---------------------------------------------------------------- counter mode

  function Pow2(n: nat): (p: nat)
    ensures p > 0
  {
    if n == 0 then 1 else 2 * Pow2(n - 1)
  }

  /** Exclusive or of the low `n` bits. */
  function XorBits(a: nat, b: nat, n: nat): (r: nat)
    ensures r < Pow2(n)
  {
    if n == 0 then 0 else (a % 2 + b % 2) % 2 + 2 * XorBits(a / 2, b / 2, n - 1)
  }

  /** Whether bit `i` of a number is set. */
  predicate Bit(a: nat, i: nat)
  {
    if i == 0 then a % 2 == 1 else Bit(a / 2, i - 1)
  }

  /** A bit of the exclusive or is set if and only if exactly one of the two numbers has it set. */
  lemma {:induction false} XorBitsAt(a: nat, b: nat, n: nat, i: nat)
    requires i < n
    ensures Bit(XorBits(a, b, n), i) <==> (Bit(a, i) <==> !Bit(b, i))
    decreases n
  {
    LowBit(a % 2, b % 2, XorBits(a / 2, b / 2, n - 1));
    if i > 0 {
      XorBitsAt(a / 2, b / 2, n - 1, i - 1);
    }
  }

  /** The low bits determine a number. */
  lemma {:induction false} SameBits(a: nat, b: nat, n: nat)
    requires a < Pow2(n) && b < Pow2(n) && forall i: nat :: i < n ==> (Bit(a, i) <==> Bit(b, i))
    ensures a == b
  {
    if n > 0 {
      assert Bit(a, 0) <==> Bit(b, 0);
      forall i: nat | i < n - 1 ensures Bit(a / 2, i) <==> Bit(b / 2, i) {
        assert Bit(a, i + 1) <==> Bit(b, i + 1);
      }
      SameBits(a / 2, b / 2, n - 1);
    }
  }

  lemma LowBit(x: nat, y: nat, high: nat)
    requires x < 2 && y < 2
    ensures var r := (x + y) % 2 + 2 * high; r / 2 == high && (r % 2 + y) % 2 == x
  {
    var low := (x + y) % 2;
    assert low < 2 && (low + 2 * high) / 2 == high && (low + 2 * high) % 2 == low;
  }

  lemma {:induction false} XorBitsTwice(a: nat, b: nat, n: nat)
    requires a < Pow2(n)
    ensures XorBits(XorBits(a, b, n), b, n) == a
  {
    if n > 0 {
      XorBitsTwice(a / 2, b / 2, n - 1);
      LowBit(a % 2, b % 2, XorBits(a / 2, b / 2, n - 1));
    }
  }

  lemma Pow2Of8()
    ensures Pow2(8) == 256
  {
    assert Pow2(4) == 16;
  }

  function XorByte(a: Byte, b: Byte): Byte
  {
    Pow2Of8();
    XorBits(a as int, b as int, 8) as char
  }

  lemma XorByteTwice(a: Byte, b: Byte)
    ensures XorByte(XorByte(a, b), b) == a
  {
    Pow2Of8();
    XorBitsTwice(a as int, b as int, 8);
  }

  /** Bit `i` of the result is set if and only if exactly one of the two has it set. */
  predicate OddAt(a: Byte, b: Byte, r: Byte, i: nat)
  {
    Bit(r as int, i) <==> (Bit(a as int, i) <==> !Bit(b as int, i))
  }

  /** The exclusive or is the one byte for which that is so of every bit. */
  lemma XorByteIff(a: Byte, b: Byte, r: Byte)
    ensures r == XorByte(a, b) <==> forall i: nat :: i < 8 ==> OddAt(a, b, r, i)
  {
    Pow2Of8();
    var x := XorByte(a, b);
    forall i: nat | i < 8 ensures OddAt(a, b, x, i) {
      XorBitsAt(a as int, b as int, 8, i);
    }
    if forall i: nat :: i < 8 ==> OddAt(a, b, r, i) {
      var m: nat, n: nat := r as int, x as int;
      forall i: nat | i < 8 ensures Bit(m, i) <==> Bit(n, i) {
        assert OddAt(a, b, r, i) && OddAt(a, b, x, i);
      }
      SameBits(m, n, 8);
    }
  }

  lemma {:induction false} NoBits(i: nat)
    ensures !Bit(0, i)
  {
    if i > 0 {
      NoBits(i - 1);
    }
  }

  lemma XorOfZero(b: Byte)
    ensures XorByte(0 as char, b) == b
  {
    var zero: Byte := 0 as char;
    forall i: nat | i < 8 ensures OddAt(zero, b, b, i) {
      NoBits(i);
    }
    XorByteIff(zero, b, b);
  }

  function XorStream(s: Bytes, k: Bytes): (r: Bytes)
    requires |s| == |k|
    ensures |r| == |s|
  {
    seq(|s|, i requires 0 <= i < |s| => XorByte(s[i], k[i]))
  }

  /** The initialisation vector followed by the ciphertext. */
  function Encrypted<V(!new)>(c: Codec<V>, iv: Bytes, s: Bytes): Bytes
    requires Lawful(c)
  {
    iv + XorStream(s, c.keystream(iv, |s|))
  }

  /** Every byte of the ciphertext is the text's under the keystream that the initialisation vector gives. */
  lemma EncryptedAt<V(!new)>(c: Codec<V>, iv: Bytes, s: Bytes, j: nat, i: nat)
    requires Lawful(c) && j < |s| && i < 8
    ensures var e := Encrypted(c, iv, s);
            && |e| == |iv| + |s| && e[..|iv|] == iv
            && OddAt(s[j], c.keystream(iv, |s|)[j], e[|iv| + j], i)
  {
    var k := c.keystream(iv, |s|);
    XorByteIff(s[j], k[j], XorByte(s[j], k[j]));
  }

  /** So a text of zero bytes shows the keystream. */
  lemma EncryptedZeros<V(!new)>(c: Codec<V>, iv: Bytes, s: Bytes)
    requires Lawful(c) && forall j :: 0 <= j < |s| ==> s[j] == 0 as char
    ensures Encrypted(c, iv, s) == iv + c.keystream(iv, |s|)
  {
    var k := c.keystream(iv, |s|);
    forall j | 0 <= j < |s| ensures XorStream(s, k)[j] == k[j] {
      XorOfZero(k[j]);
    }
    assert XorStream(s, k) == k;
  }

  function Decrypted<V(!new)>(c: Codec<V>, s: Bytes): Option<Bytes>
    requires Lawful(c)
  {
    if |s| <= c.blockSize then None
    else
      var iv, text := s[..c.blockSize], s[c.blockSize..];
      Some(XorStream(text, c.keystream(iv, |text|)))
  }

  /** Decryption undoes encryption of every non-empty text. */
  lemma DecryptedOfEncrypted<V(!new)>(c: Codec<V>, iv: Bytes, s: Bytes)
    requires Lawful(c) && |iv| == c.blockSize
    ensures Decrypted(c, Encrypted(c, iv, s)) == if s == [] then None else Some(s)
  {
    var e := Encrypted(c, iv, s);
    assert e[..c.blockSize] == iv;
    var k := c.keystream(iv, |s|);
    var x := XorStream(s, k);
    assert e[c.blockSize..] == x;
    forall i | 0 <= i < |s| ensures XorByte(x[i], k[i]) == s[i] {
      XorByteTwice(s[i], k[i]);
    }
    assert XorStream(x, k) == s;
  }

  /** Encrypts the buffer in place. */
  method Encrypt<V(!new)>(c: Codec<V>, iv: Bytes, value: array<Byte>) returns (r: Bytes)
    requires Lawful(c)
    modifies value
    ensures r == Encrypted(c, iv, old(value[..]))
    ensures iv + value[..] == r
  {
    XorInPlace(value, 0, c.keystream(iv, value.Length));
    r := iv + value[..];
  }

  /** Decrypts in place what follows the initialisation vector; a short buffer is left alone. */
  method Decrypt<V(!new)>(c: Codec<V>, value: array<Byte>) returns (r: Option<Bytes>)
    requires Lawful(c)
    modifies value
    ensures r == Decrypted(c, old(value[..]))
    ensures r == None ==> value[..] == old(value[..])
    ensures r.Some? ==> value[..] == old(value[..c.blockSize]) + r.value
  {
    var size := c.blockSize;
    if value.Length <= size {
      return None;
    }
    ghost var before := value[..];
    XorInPlace(value, size, c.keystream(value[..size], value.Length - size));
    assert before[..size] == old(value[..size]) && before[size..] == old(value[size..]);
    assert value[..] == value[..size] + value[size..];
    return Some(value[size..]);
  }

  method XorInPlace(value: array<Byte>, from: nat, k: Bytes)
    requires from + |k| == value.Length
    modifies value
    ensures value[..from] == old(value[..from])
    ensures value[from..] == XorStream(old(value[from..]), k)
  {
    var i := 0;
    while i < |k|
      invariant 0 <= i <= |k|
      invariant forall j :: 0 <= j < from ==> value[j] == old(value[j])
      invariant forall j :: 0 <= j < i ==> value[from + j] == XorByte(old(value[from + j]), k[j])
      invariant forall j :: from + i <= j < value.Length ==> value[j] == old(value[j])
    {
      value[from + i] := XorByte(value[from + i], k[i]);
      i := i + 1;
    }
    assert forall j :: 0 <= j < |k| ==> value[from..][j] == value[from + j];
  }

  // ---------------------------------------------------------------- timestamps

  type int64 = t: int | -0x8000_0000_0000_0000 <= t < 0x8000_0000_0000_0000

  function Wrap64(t: int): (r: int64)
    ensures -0x8000_0000_0000_0000 <= t < 0x8000_0000_0000_0000 ==> r == t
  {
    (t + 0x8000_0000_0000_0000) % 0x1_0000_0000_0000_0000 - 0x8000_0000_0000_0000
  }

  /** Wrapping changes a number by a multiple of 2^64. */
  lemma WrapIsCongruent(t: int)
    ensures (t - Wrap64(t)) % 0x1_0000_0000_0000_0000 == 0
  {
    var u: int := t + 0x8000_0000_0000_0000;
    var r: int := Wrap64(t);
    assert t - r == u - u % 0x1_0000_0000_0000_0000;
    assert u == u / 0x1_0000_0000_0000_0000 * 0x1_0000_0000_0000_0000 + u % 0x1_0000_0000_0000_0000;
  }

  /** `%d` of a 64-bit integer. */
  function FormatInt(t: int): (s: Bytes)
    ensures '|' !in s
  {
    if t < 0 then ['-'] + Decimal(-t) else Decimal(t)
  }

  predicate AllDigits(s: string)
  {
    forall k :: 0 <= k < |s| ==> IsDigit(s[k])
  }

  /** `strconv.ParseInt(s, 10, 64)`: an optional sign, then digits, within range. */
  function ParseInt(s: string): Option<int64>
  {
    var signed := s != [] && (s[0] == '-' || s[0] == '+');
    var digits := if signed then s[1..] else s;
    if digits == [] || !AllDigits(digits) then None
    else
      var n: int := DecimalValue(digits);
      var v: int := if signed && s[0] == '-' then -n else n;
      if -0x8000_0000_0000_0000 <= v < 0x8000_0000_0000_0000 then Some(v) else None
  }

  /** Digits stand for their value, with an optional sign, if it fits 64 bits; nothing else is a number. */
  lemma ParseIntMeaning(digits: string)
    requires digits != [] && AllDigits(digits)
    ensures var n: int := DecimalValue(digits);
            && ParseInt(digits) == ParseInt(['+'] + digits)
            && (if n < 0x8000_0000_0000_0000 then ParseInt(digits) == Some(n) else ParseInt(digits) == None)
            && (if n <= 0x8000_0000_0000_0000 then ParseInt(['-'] + digits) == Some(-n)
                else ParseInt(['-'] + digits) == None)
  {
    assert IsDigit(digits[0]);
    assert (['+'] + digits)[1..] == digits && (['-'] + digits)[1..] == digits;
  }

  lemma ParsedIsNumber(s: string)
    ensures ParseInt(s).Some? ==>
              exists d: string :: d != [] && AllDigits(d) && (s == d || s == ['+'] + d || s == ['-'] + d)
  {
    if ParseInt(s).Some? && (s[0] == '-' || s[0] == '+') {
      assert s == [s[0]] + s[1..];
    }
  }

  lemma ParseOfFormat(t: int64)
    ensures ParseInt(FormatInt(t)) == Some(t)
  {
    var i: int := t;
    var n := if i < 0 then -i else i;
    DecimalRoundTrip(n);
    var s := FormatInt(t);
    if t < 0 {
      assert s[1..] == Decimal(n);
    } else {
      assert IsDigit(s[0]);
    }
  }

  // ---------------------------------------------------------------- framing

  /** date|payload|mac */
  function Framed(date: Bytes, payload: Bytes, sig: Bytes): Bytes
  {
    date + ['|'] + payload + ['|'] + sig
  }

  /** What the MAC covers: name|date|payload| */
  function Signed(name: Bytes, date: Bytes, payload: Bytes): Bytes
  {
    name + ['|'] + date + ['|'] + payload + ['|']
  }

  lemma FramedFromRight(date: Bytes, payload: Bytes, sig: Bytes)
    ensures Framed(date, payload, sig) == date + (['|'] + (payload + (['|'] + sig)))
    ensures Framed(date, payload, sig) == date + ['|'] + (payload + ['|'] + sig)
  {
  }

  datatype Frame = Frame(date: Bytes, payload: Bytes, sig: Bytes)

  /** The three parts at the first two delimiters. */
  function SplitFrame(b: Bytes): Option<Frame>
  {
    var i := IndexAny(b, "|");
    if i == |b| then None
    else
      var rest := b[i + 1..];
      var j := IndexAny(rest, "|");
      if j == |rest| then None
      else Some(Frame(b[..i], rest[..j], rest[j + 1..]))
  }

  /** Splitting succeeds on exactly the framed strings, and finds their only parts. */
  lemma SplitOfFramed(date: Bytes, payload: Bytes, sig: Bytes)
    requires '|' !in date && '|' !in payload
    ensures SplitFrame(Framed(date, payload, sig)) == Some(Frame(date, payload, sig))
  {
    var rest := payload + ['|'] + sig;
    FramedFromRight(date, payload, sig);
    FirstDelimiter(date + ['|'] + rest, date, rest);
    FirstDelimiter(rest, payload, sig);
  }

  /** The first delimiter ends a part that holds none. */
  lemma FirstDelimiter(b: Bytes, part: Bytes, rest: Bytes)
    requires '|' !in part && b == part + ['|'] + rest
    ensures |part| < |b| && IndexAny(b, "|") == |part| && b[..|part|] == part && b[|part| + 1..] == rest
  {
    CutBehind(part, '|', rest);
    IndexAnyUnique(b, "|", |part|);
  }

  lemma SplitFrameSound(b: Bytes)
    ensures SplitFrame(b).Some? ==>
      var f := SplitFrame(b).value;
      && '|' !in f.date && '|' !in f.payload
      && b == Framed(f.date, f.payload, f.sig)
  {
    if SplitFrame(b).Some? {
      var f := SplitFrame(b).value;
      var i := IndexAny(b, "|");
      var rest := b[i + 1..];
      var j := IndexAny(rest, "|");
      CutAt(b, i);
      CutAt(rest, j);
      FramedFromRight(f.date, f.payload, f.sig);
    }
  }

  // ---------------------------------------------------------------- the cookie

  /** What encodeCookie returns at time `now` with initialisation vector `iv`. */
  function CookieOf<V(!new)>(c: Codec<V>, key: Bytes, name: Bytes, value: map<string, V>, iv: Bytes, now: int64)
    : (r: Result<Bytes, Error>)
    requires Lawful(c)
  {
    match c.gobEncode(value)
    case None => Err(GobError)
    case Some(g) =>
      var payload := Base64.Encoded(Encrypted(c, iv, g));
      var signed := Signed(name, FormatInt(now), payload);
      Ok(Base64.Encoded((signed + c.mac(key, signed))[|name| + 1..]))
  }

  /** What decodeCookie makes of a cookie that holds this frame. */
  function Judged<V(!new)>(c: Codec<V>, key: Bytes, name: Bytes, f: Frame, maxLife: int64, now: int64)
    : (r: Result<map<string, V>, Error>)
    requires Lawful(c)
    ensures r != Err(BadBase64) && r != Err(BadFormat)
  {
    if c.mac(key, Signed(name, f.date, f.payload)) != f.sig then Err(BadMac)
    else
      match ParseInt(f.date)
      case None => Err(BadTimestamp)
      case Some(t) =>
        if t > now then Err(TooNew)
        else if t < Wrap64(now - maxLife) then Err(Expired)
        else
          match Base64.Decoded(f.payload)
          case None => Err(BadPayload)
          case Some(e) =>
            match Decrypted(c, e)
            case None => Err(TooShort)
            case Some(g) =>
              match c.gobDecode(g)
              case None => Err(GobError)
              case Some(m) => Ok(m)
  }

  /** What decodeCookie returns at time `now`. */
  function SessionOf<V(!new)>(c: Codec<V>, key: Bytes, name: Bytes, cookie: Bytes, maxLife: int64, now: int64)
    : (r: Result<map<string, V>, Error>)
    requires Lawful(c)
  {
    match Base64.Decoded(cookie)
    case None => Err(BadBase64)
    case Some(b) =>
      match SplitFrame(b)
      case None => Err(BadFormat)
      case Some(f) => Judged(c, key, name, f, maxLife, now)
  }

  /** The code signs what stands before the MAC. */
  lemma SignedIsPrefix(b: Bytes, name: Bytes, f: Frame)
    requires b == Framed(f.date, f.payload, f.sig)
    ensures name + ['|'] + b[..|b| - |f.sig|] == Signed(name, f.date, f.payload)
  {
    assert b[..|b| - |f.sig|] == f.date + ['|'] + f.payload + ['|'];
  }

  lemma CookieShape<V(!new)>(c: Codec<V>, key: Bytes, name: Bytes, value: map<string, V>, iv: Bytes, now: int64)
    requires Lawful(c) && c.gobEncode(value).Some?
    ensures var payload := Base64.Encoded(Encrypted(c, iv, c.gobEncode(value).value));
            CookieOf(c, key, name, value, iv, now) ==
            Ok(Base64.Encoded(Framed(FormatInt(now), payload, c.mac(key, Signed(name, FormatInt(now), payload)))))
  {
    var payload := Base64.Encoded(Encrypted(c, iv, c.gobEncode(value).value));
    var signed := Signed(name, FormatInt(now), payload);
    var sig := c.mac(key, signed);
    assert (signed + sig)[|name| + 1..] == Framed(FormatInt(now), payload, sig);
  }

  /**
   The round trip, for every map, name, key, issue time and read time: the cookie decodes to
   the map it was made from exactly inside its lifetime, and is refused outside it. The
   lower end of the lifetime is computed in 64 bits.
   */
  lemma RoundTrip<V(!new)>(c: Codec<V>, key: Bytes, name: Bytes, value: map<string, V>, iv: Bytes,
                           issued: int64, maxLife: int64, read: int64)
    requires Lawful(c) && |iv| == c.blockSize
    ensures CookieOf(c, key, name, value, iv, issued).Ok? <==> c.gobEncode(value).Some?
    ensures c.gobEncode(value).Some? ==>
      SessionOf(c, key, name, CookieOf(c, key, name, value, iv, issued).value, maxLife, read) ==
      if issued > read then Err(TooNew)
      else if issued < Wrap64(read - maxLife) then Err(Expired)
      else Ok(value)
  {
    if c.gobEncode(value).Some? {
      var g := c.gobEncode(value).value;
      CookieShape(c, key, name, value, iv, issued);
      var payload := Base64.Encoded(Encrypted(c, iv, g));
      var date := FormatInt(issued);
      var sig := c.mac(key, Signed(name, date, payload));
      var b := Framed(date, payload, sig);
      Base64.RoundTrip(b);
      Base64.EncodedIsClean(Encrypted(c, iv, g));
      SplitOfFramed(date, payload, sig);
      ParseOfFormat(issued);
      Base64.RoundTrip(Encrypted(c, iv, g));
      DecryptedOfEncrypted(c, iv, g);
    }
  }

  /** What reading the cookie issued at some time gives: the map it was made from, or an error. */
  ghost predicate Accepted<V(!new)>(c: Codec<V>, key: Bytes, name: Bytes, value: map<string, V>, iv: Bytes,
                              issued: int64, maxLife: int64, read: int64)
    requires Lawful(c) && |iv| == c.blockSize && c.gobEncode(value).Some?
  {
    var cookie := CookieOf(c, key, name, value, iv, issued);
    cookie.Ok? && SessionOf(c, key, name, cookie.value, maxLife, read) == Ok(value)
  }

  /** The lower end of the window is the wrapped difference, for every lifetime and time of reading. */
  lemma AcceptedWindow<V(!new)>(c: Codec<V>, key: Bytes, name: Bytes, value: map<string, V>, iv: Bytes,
                                issued: int64, maxLife: int64, read: int64)
    requires Lawful(c) && |iv| == c.blockSize && c.gobEncode(value).Some?
    ensures Accepted(c, key, name, value, iv, issued, maxLife, read) <==> Wrap64(read - maxLife) <= issued <= read
    ensures !Accepted(c, key, name, value, iv, issued, maxLife, read) ==>
              SessionOf(c, key, name, CookieOf(c, key, name, value, iv, issued).value, maxLife, read).Err?
  {
    RoundTrip(c, key, name, value, iv, issued, maxLife, read);
  }

  predicate Fits64(t: int)
  {
    -0x8000_0000_0000_0000 <= t < 0x8000_0000_0000_0000
  }

  /** The arithmetic of the window. */
  lemma WindowIff(accepted: int64 -> bool, maxLife: int64, read: int64)
    requires forall issued: int64 :: accepted(issued) <==> Wrap64(read - maxLife) <= issued <= read
    ensures (forall issued: int64 :: accepted(issued) <==> issued <= read <= issued + maxLife) <==>
            Fits64(read - maxLife)
  {
    assert accepted(read) <==> Wrap64(read - maxLife) <= read;
  }

  /**
   The map comes back for exactly the issue times in the closed interval from `read - maxLife`
   to `read`, and reading fails for all others, if and only if that difference fits 64 bits.
   */
  lemma LifetimeIff<V(!new)>(c: Codec<V>, key: Bytes, name: Bytes, value: map<string, V>, iv: Bytes,
                             maxLife: int64, read: int64)
    requires Lawful(c) && |iv| == c.blockSize && c.gobEncode(value).Some?
    ensures (forall issued: int64 ::
               Accepted(c, key, name, value, iv, issued, maxLife, read) <==> issued <= read <= issued + maxLife) <==>
            Fits64(read - maxLife)
  {
    ghost var accepted := (issued: int64) => Accepted(c, key, name, value, iv, issued, maxLife, read);
    forall issued: int64 ensures accepted(issued) <==> Wrap64(read - maxLife) <= issued <= read {
      AcceptedWindow(c, key, name, value, iv, issued, maxLife, read);
    }
    WindowIff(accepted, maxLife, read);
    assert forall issued: int64 ::
      accepted(issued) <==> Accepted(c, key, name, value, iv, issued, maxLife, read);
  }

  /** Where the difference fits, each cookie is accepted or refused as its lifetime says. */
  lemma Lifetime<V(!new)>(c: Codec<V>, key: Bytes, name: Bytes, value: map<string, V>, iv: Bytes,
                          issued: int64, maxLife: int64, read: int64)
    requires Lawful(c) && |iv| == c.blockSize && c.gobEncode(value).Some?
    requires Fits64(read - maxLife)
    ensures var r := SessionOf(c, key, name, CookieOf(c, key, name, value, iv, issued).value, maxLife, read);
            && (r == Ok(value) <==> issued <= read <= issued + maxLife)
            && (r.Err? <==> !(issued <= read <= issued + maxLife))
  {
    RoundTrip(c, key, name, value, iv, issued, maxLife, read);
  }

  lemma WrongSide(t: int64, maxLife: int64)
    requires !Fits64(t - maxLife)
    ensures Wrap64(t - maxLife) <= t <==> maxLife < 0
  {
  }

  /**
   Where it does not fit, even a cookie read in the second it was issued is treated wrongly:
   it is accepted exactly if the lifetime is negative.
   */
  lemma LifetimeWraps<V(!new)>(c: Codec<V>, key: Bytes, name: Bytes, value: map<string, V>, iv: Bytes,
                               t: int64, maxLife: int64)
    requires Lawful(c) && |iv| == c.blockSize && c.gobEncode(value).Some?
    requires !Fits64(t - maxLife)
    ensures Accepted(c, key, name, value, iv, t, maxLife, t) <==> maxLife < 0
  {
    AcceptedWindow(c, key, name, value, iv, t, maxLife, t);
    WrongSide(t, maxLife);
  }

  /** It wraps up with the longest lifetime before 1970, and down with the most negative one after. */
  lemma WrappingTimes()
    ensures !Fits64(-2 - 0x7fff_ffff_ffff_ffff) && !Fits64(1_700_000_000 - -0x8000_0000_0000_0000)
  {
  }

  // ---------------------------------------------------------------- soundness of the framing

  /** `f` is how `cookie` splits, its MAC is right, and its date is in the window. */
  ghost predicate Genuine<V(!new)>(c: Codec<V>, key: Bytes, name: Bytes, cookie: Bytes, maxLife: int64, now: int64,
      f: Frame)
  {
    && '|' !in f.date && '|' !in f.payload
    && Base64.Decoded(cookie) == Some(Framed(f.date, f.payload, f.sig))
    && c.mac(key, Signed(name, f.date, f.payload)) == f.sig
    && ParseInt(f.date).Some?
    && Wrap64(now - maxLife) <= ParseInt(f.date).value <= now
  }

  /** The map a payload holds. */
  function PayloadOf<V(!new)>(c: Codec<V>, payload: Bytes): Option<map<string, V>>
    requires Lawful(c)
  {
    match Base64.Decoded(payload)
    case None => None
    case Some(e) =>
      match Decrypted(c, e)
      case None => None
      case Some(g) => c.gobDecode(g)
  }

  /** A cookie is accepted, with map `m`, exactly when it has a genuine frame whose payload holds `m`. */
  lemma AcceptedIffGenuine<V(!new)>(c: Codec<V>, key: Bytes, name: Bytes, cookie: Bytes, maxLife: int64, now: int64,
                                    m: map<string, V>)
    requires Lawful(c)
    ensures SessionOf(c, key, name, cookie, maxLife, now) == Ok(m) <==>
            exists f :: Genuine(c, key, name, cookie, maxLife, now, f) && PayloadOf(c, f.payload) == Some(m)
  {
    if SessionOf(c, key, name, cookie, maxLife, now) == Ok(m) {
      var f := AcceptedIsGenuine(c, key, name, cookie, maxLife, now, m);
    }
    forall f | Genuine(c, key, name, cookie, maxLife, now, f) && PayloadOf(c, f.payload) == Some(m)
      ensures SessionOf(c, key, name, cookie, maxLife, now) == Ok(m)
    {
      GenuineIsAccepted(c, key, name, cookie, maxLife, now, m, f);
    }
  }

  lemma AcceptedIsGenuine<V(!new)>(c: Codec<V>, key: Bytes, name: Bytes, cookie: Bytes, maxLife: int64, now: int64,
                                   m: map<string, V>) returns (f: Frame)
    requires Lawful(c) && SessionOf(c, key, name, cookie, maxLife, now) == Ok(m)
    ensures Genuine(c, key, name, cookie, maxLife, now, f) && PayloadOf(c, f.payload) == Some(m)
  {
    var b := Base64.Decoded(cookie).value;
    f := SplitFrame(b).value;
    SplitFrameSound(b);
  }

  lemma GenuineIsAccepted<V(!new)>(c: Codec<V>, key: Bytes, name: Bytes, cookie: Bytes, maxLife: int64, now: int64,
                                   m: map<string, V>, f: Frame)
    requires Lawful(c) && Genuine(c, key, name, cookie, maxLife, now, f) && PayloadOf(c, f.payload) == Some(m)
    ensures SessionOf(c, key, name, cookie, maxLife, now) == Ok(m)
  {
    SplitOfFramed(f.date, f.payload, f.sig);
  }

  /** The frame a cookie holds. */
  predicate Holds(cookie: Bytes, f: Frame)
  {
    '|' !in f.date && '|' !in f.payload && Base64.Decoded(cookie) == Some(Framed(f.date, f.payload, f.sig))
  }

  ghost predicate HoldsSome(cookie: Bytes)
  {
    exists f :: Holds(cookie, f)
  }

  /** Text that is not base64 is told apart from text that holds no frame. */
  lemma NotBase64Iff<V(!new)>(c: Codec<V>, key: Bytes, name: Bytes, cookie: Bytes, maxLife: int64, now: int64)
    requires Lawful(c)
    ensures SessionOf(c, key, name, cookie, maxLife, now) == Err(BadBase64) <==> Base64.Decoded(cookie).None?
  {
  }

  lemma NotFramedIff<V(!new)>(c: Codec<V>, key: Bytes, name: Bytes, cookie: Bytes, maxLife: int64, now: int64)
    requires Lawful(c) && Base64.Decoded(cookie).Some?
    ensures SessionOf(c, key, name, cookie, maxLife, now) == Err(BadFormat) <==> !HoldsSome(cookie)
  {
    SplitsIff(cookie, Base64.Decoded(cookie).value);
    NotSplitIff(c, key, name, cookie, Base64.Decoded(cookie).value, maxLife, now);
  }

  lemma NotSplitIff<V(!new)>(c: Codec<V>, key: Bytes, name: Bytes, cookie: Bytes, b: Bytes, maxLife: int64, now: int64)
    requires Lawful(c) && Base64.Decoded(cookie) == Some(b)
    ensures SessionOf(c, key, name, cookie, maxLife, now) == Err(BadFormat) <==> SplitFrame(b).None?
  {
  }

  lemma SplitsIff(cookie: Bytes, b: Bytes)
    requires Base64.Decoded(cookie) == Some(b)
    ensures SplitFrame(b).Some? <==> HoldsSome(cookie)
  {
    SplitFrameSound(b);
    if SplitFrame(b).Some? {
      assert Holds(cookie, SplitFrame(b).value);
    }
    forall f | Holds(cookie, f) ensures SplitFrame(b).Some? {
      SplitOfFramed(f.date, f.payload, f.sig);
    }
  }

  /** A cookie with a frame is judged by it. */
  lemma FrameDecides<V(!new)>(c: Codec<V>, key: Bytes, name: Bytes, cookie: Bytes, maxLife: int64, now: int64, f: Frame)
    requires Lawful(c) && Holds(cookie, f)
    ensures SessionOf(c, key, name, cookie, maxLife, now) == Judged(c, key, name, f, maxLife, now)
  {
    SplitOfFramed(f.date, f.payload, f.sig);
  }

  /** It is refused first for its MAC, then for its date. */
  lemma BadMacIff<V(!new)>(c: Codec<V>, key: Bytes, name: Bytes, maxLife: int64, now: int64, f: Frame)
    requires Lawful(c)
    ensures var r := Judged(c, key, name, f, maxLife, now);
            var genuine := c.mac(key, Signed(name, f.date, f.payload)) == f.sig;
            && (r == Err(BadMac) <==> !genuine)
            && (r == Err(BadTimestamp) <==> genuine && ParseInt(f.date) == None)
  {
  }

  /** Then it is too new if issued after the time of reading, and expired if issued before the window. */
  lemma OutsideWindowIff<V(!new)>(c: Codec<V>, key: Bytes, name: Bytes, maxLife: int64, now: int64, f: Frame, t: int64)
    requires Lawful(c) && c.mac(key, Signed(name, f.date, f.payload)) == f.sig && ParseInt(f.date) == Some(t)
    ensures var r := Judged(c, key, name, f, maxLife, now);
            && (r == Err(TooNew) <==> now < t)
            && (r == Err(Expired) <==> t <= now && t < Wrap64(now - maxLife))
  {
  }

  /** In the window the payload decides: its base64, its length, and what gob makes of it. */
  lemma PayloadDecides<V(!new)>(c: Codec<V>, key: Bytes, name: Bytes, maxLife: int64, now: int64, f: Frame, t: int64)
    requires Lawful(c) && c.mac(key, Signed(name, f.date, f.payload)) == f.sig && ParseInt(f.date) == Some(t)
    requires Wrap64(now - maxLife) <= t <= now
    ensures var (r, e) := (Judged(c, key, name, f, maxLife, now), Base64.Decoded(f.payload));
            && (r == Err(BadPayload) <==> e == None)
            && (r == Err(TooShort) <==> e.Some? && |e.value| <= c.blockSize)
            && (r == Err(GobError) <==> e.Some? && |e.value| > c.blockSize && PayloadOf(c, f.payload) == None)
  {
  }

  /** The frame of a cookie is unique. */
  lemma GenuineUnique<V(!new)>(c: Codec<V>, key: Bytes, name: Bytes, cookie: Bytes, maxLife: int64, now: int64,
                               f: Frame, g: Frame)
    requires Genuine(c, key, name, cookie, maxLife, now, f) && Genuine(c, key, name, cookie, maxLife, now, g)
    ensures f == g
  {
    SplitOfFramed(f.date, f.payload, f.sig);
    SplitOfFramed(g.date, g.payload, g.sig);
  }

  /** The signed text determines its three parts, whatever the names are. */
  lemma SignedInjective(n1: Bytes, d1: Bytes, p1: Bytes, n2: Bytes, d2: Bytes, p2: Bytes)
    requires '|' !in d1 && '|' !in p1 && '|' !in d2 && '|' !in p2
    requires Signed(n1, d1, p1) == Signed(n2, d2, p2)
    ensures n1 == n2 && d1 == d2 && p1 == p2
  {
    LastPart(n1 + ['|'] + d1, p1, n2 + ['|'] + d2, p2);
    LastPart(n1, d1, n2, d2);
  }

  lemma LastPart(a1: Bytes, p1: Bytes, a2: Bytes, p2: Bytes)
    requires '|' !in p1 && '|' !in p2
    requires a1 + ['|'] + p1 + ['|'] == a2 + ['|'] + p2 + ['|'] || a1 + ['|'] + p1 == a2 + ['|'] + p2
    ensures a1 == a2 && p1 == p2
  {
    var s1, s2 := a1 + ['|'] + p1, a2 + ['|'] + p2;
    assert s1 == (s1 + ['|'])[..|s1|] && s2 == (s2 + ['|'])[..|s2|];
    assert s1 == s2;
    assert s1[|a1|] == '|' && forall k :: |a1| < k < |s1| ==> s1[k] == p1[k - |a1| - 1];
    assert s2[|a2|] == '|' && forall k :: |a2| < k < |s2| ==> s2[k] == p2[k - |a2| - 1];
    assert |a1| == |a2|;
    assert a1 == s1[..|a1|] && a2 == s2[..|a2|];
    assert p1 == s1[|a1| + 1..] && p2 == s2[|a2| + 1..];
  }

  /**
   With an injective MAC, two accepted cookies with the same MAC were issued under the same
   name, carry the same date and payload, and decode to the same map.
   */
  lemma SameMacSameSession<V(!new)>(
      c: Codec<V>, key: Bytes,
      n1: Bytes, c1: Bytes, life1: int64, now1: int64, f1: Frame,
      n2: Bytes, c2: Bytes, life2: int64, now2: int64, f2: Frame)
    requires Lawful(c)
    requires forall x, y: Bytes :: c.mac(key, x) == c.mac(key, y) ==> x == y
    requires SessionOf(c, key, n1, c1, life1, now1).Ok? && SessionOf(c, key, n2, c2, life2, now2).Ok?
    requires Genuine(c, key, n1, c1, life1, now1, f1) && Genuine(c, key, n2, c2, life2, now2, f2)
    requires f1.sig == f2.sig
    ensures n1 == n2 && f1 == f2
    ensures SessionOf(c, key, n1, c1, life1, now1) == SessionOf(c, key, n2, c2, life2, now2)
  {
    SignedInjective(n1, f1.date, f1.payload, n2, f2.date, f2.payload);
    var m1 := SessionOf(c, key, n1, c1, life1, now1).value;
    var m2 := SessionOf(c, key, n2, c2, life2, now2).value;
    AcceptedIffGenuine(c, key, n1, c1, life1, now1, m1);
    AcceptedIffGenuine(c, key, n2, c2, life2, now2, m2);
    var g1 :| Genuine(c, key, n1, c1, life1, now1, g1) && PayloadOf(c, g1.payload) == Some(m1);
    var g2 :| Genuine(c, key, n2, c2, life2, now2, g2) && PayloadOf(c, g2.payload) == Some(m2);
    GenuineUnique(c, key, n1, c1, life1, now1, f1, g1);
    GenuineUnique(c, key, n2, c2, life2, now2, f2, g2);
  }

  // ---------------------------------------------------------------- the pipelines over buffers

  method EncodeCookie<V(!new)>(c: Codec<V>, key: Bytes, name: Bytes, value: map<string, V>, iv: Bytes, now: int64)
    returns (r: Result<Bytes, Error>)
    requires Lawful(c)
    ensures r == CookieOf(c, key, name, value, iv, now)
  {
    var g := c.gobEncode(value);
    if g == None {
      return Err(GobError);
    }
    var plain := Buffer(g.value);
    var e := Encrypt(c, iv, plain);
    var text := Buffer(e);
    var payload := Base64.Encode(text);
    var b := Signed(name, FormatInt(now), payload[..]);
    var sig := c.mac(key, b);
    var framed := Buffer((b + sig)[|name| + 1..]);
    var cookie := Base64.Encode(framed);
    return Ok(cookie[..]);
  }

  method DecodeCookie<V(!new)>(c: Codec<V>, key: Bytes, name: Bytes, cookie: Bytes, maxLife: int64, now: int64)
    returns (r: Result<map<string, V>, Error>)
    requires Lawful(c)
    ensures r == SessionOf(c, key, name, cookie, maxLife, now)
  {
    var raw := Buffer(cookie);
    var b := Base64.Decode(raw);
    if b == None {
      return Err(BadBase64);
    }
    var f := SplitFrame(b.value);
    if f == None {
      return Err(BadFormat);
    }
    var parts := f.value;
    SplitFrameSound(b.value);
    SignedIsPrefix(b.value, name, parts);
    var sig := c.mac(key, name + ['|'] + b.value[..|b.value| - |parts.sig|]);
    if |sig| != |parts.sig| || sig != parts.sig {
      return Err(BadMac);
    }
    var t1 := ParseInt(parts.date);
    if t1 == None {
      return Err(BadTimestamp);
    }
    if t1.value > now {
      return Err(TooNew);
    }
    if t1.value < Wrap64(now - maxLife) {
      return Err(Expired);
    }
    var text := Buffer(parts.payload);
    var e := Base64.Decode(text);
    if e == None {
      return Err(BadPayload);
    }
    var cipher := Buffer(e.value);
    var g := Decrypt(c, cipher);
    if g == None {
      return Err(TooShort);
    }
    var m := c.gobDecode(g.value);
    return if m == None then Err(GobError) else Ok(m.value);
  }

  method Buffer(s: Bytes) returns (a: array<Byte>)
    ensures fresh(a) && a[..] == s
  {
    a := new Byte[|s|](i requires 0 <= i < |s| => s[i]);
  }
}
