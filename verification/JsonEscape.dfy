/** Escaping and unescaping of libjson strings, on bytes. */
module JsonEscape {
  import opened Options
  import opened Words

  /** json_char: one byte. */
  type Octet = c: char | c as int < 256 witness 'a'
  type Bytes = seq<Octet>

  /** The byte that stands for an escaped quote between stripping and unescaping. */
  const MASKED: Octet := 1 as char
  const NUL: Octet := 0 as char
  const BACKSPACE: Octet := 8 as char
  const VTAB: Octet := 11 as char
  const FORMFEED: Octet := 12 as char

  function Byte(n: nat): Octet
    requires n < 256
  {
    n as char
  }

  // ---- UnfixString

  function HexDigit(n: nat): Octet
    requires n < 16
  {
    if n < 10 then Byte(n + 48) else Byte(n + 55)
  }

  /** toUTF8 without JSON_UNICODE. */
  function UnicodeEscape(c: Octet): Bytes {
    ['\\', 'u', '0', '0', HexDigit(c as int / 16), HexDigit(c as int % 16)]
  }

  /** One byte as UnfixString writes it; with mask, as it reads after the quotes are masked. */
  function EscapeChar(c: Octet, mask: bool): Bytes {
    if c == '"' then ['\\', if mask then MASKED else '"']
    else if c == '\\' then ['\\', '\\']
    else if c == '\t' then ['\\', 't']
    else if c == '\n' then ['\\', 'n']
    else if c == '\r' then ['\\', 'r']
    else if c == '/' then ['\\', '/']
    else if c == BACKSPACE then ['\\', 'b']
    else if c == FORMFEED then ['\\', 'f']
    else if c as int < 32 || c as int > 126 then UnicodeEscape(c)
    else [c]
  }

  function Escape(s: Bytes, mask: bool): Bytes {
    if s == [] then [] else EscapeChar(s[0], mask) + Escape(s[1..], mask)
  }

  lemma {:induction false} EscapeConcat(s: Bytes, t: Bytes, mask: bool)
    ensures Escape(s + t, mask) == Escape(s, mask) + Escape(t, mask)
  {
    if s == [] {
      assert s + t == t;
    } else {
      assert (s + t)[1..] == s[1..] + t;
      EscapeConcat(s[1..], t, mask);
    }
  }

  lemma EscapeOne(c: Octet, mask: bool)
    ensures Escape([c], mask) == EscapeChar(c, mask)
  {
    assert [c][1..] == [];
  }

  method UnfixString(value: Bytes, flag: bool, output: Bytes) returns (res: Bytes)
    ensures res == output + (if flag then Escape(value, false) else value)
  {
    if !flag {
      return output + value;
    }
    hide EscapeChar;
    res := output;
    for p := 0 to |value|
      invariant res == output + Escape(value[..p], false)
    {
      EscapeNext(value, p);
      res := res + EscapeChar(value[p], false);
    }
    assert value[..|value|] == value;
  }

  lemma EscapeNext(s: Bytes, p: nat)
    requires p < |s|
    ensures Escape(s[..p + 1], false) == Escape(s[..p], false) + EscapeChar(s[p], false)
  {
    hide EscapeChar, Escape;
    assert s[..p + 1] == s[..p] + [s[p]];
    EscapeConcat(s[..p], [s[p]], false);
    EscapeOne(s[p], false);
  }

  // ---- FixString

  /** Hex: unsigned char arithmetic, so that characters which are no hex digits give what the code gives. */
  function HexValue(c: Octet): nat {
    var d := (c as int - 48) % 256;
    if d > 48 then d - 39 else if d > 9 then d - 7 else d
  }

  function HexPair(hi: Octet, lo: Octet): Octet {
    Byte(Or(HexValue(hi) * 16, HexValue(lo)) % 256)
  }

  function OctalValue(a: Octet, b: Octet, c: Octet): Octet {
    var x, y, z := (a as int - 48) % 256, (b as int - 48) % 256, (c as int - 48) % 256;
    Byte(Or(Or(x * 64, y * 8), z) % 256)
  }

  /** What SpecialChar appends for the escape u, and how much of u it uses; None if u is empty, when the
      loop of FixString would run past its end. */
  function Special(u: Bytes): (r: Option<(Octet, nat)>)
    ensures r.Some? ==> 1 <= r.value.1 <= |u|
  {
    if u == [] then None
    else if u[0] == MASKED then Some(('"', 1))
    else if u[0] == 't' then Some(('\t', 1))
    else if u[0] == 'n' then Some(('\n', 1))
    else if u[0] == 'r' then Some(('\r', 1))
    else if u[0] == 'b' then Some((BACKSPACE, 1))
    else if u[0] == 'f' then Some((FORMFEED, 1))
    else if u[0] == 'v' then Some((VTAB, 1))
    else if u[0] == 'u' then (if |u| > 4 then Some((HexPair(u[3], u[4]), 5)) else Some((NUL, 1)))
    else if u[0] == 'x' then (if |u| > 3 then Some((HexPair(u[1], u[2]), 3)) else Some((NUL, 1)))
    else if '0' <= u[0] <= '7' then (if |u| > 3 then Some((OctalValue(u[0], u[1], u[2]), 3)) else Some((NUL, 1)))
    else Some((u[0], 1))
  }

  function Prefix(out: Bytes, r: Option<Bytes>): Option<Bytes> {
    match r case None => None case Some(s) => Some(out + s)
  }

  function Cons(c: Octet, r: Option<Bytes>): Option<Bytes> {
    Prefix([c], r)
  }

  lemma PrefixTwice(a: Bytes, b: Bytes, r: Option<Bytes>)
    ensures Prefix(a, Prefix(b, r)) == Prefix(a + b, r) && Prefix([], r) == r
  {
    if r.Some? { assert a + (b + r.value) == a + b + r.value && [] + r.value == r.value; }
  }

  function Fix(t: Bytes): Option<Bytes>
    decreases |t|
  {
    if t == [] then Some([])
    else if t[0] != '\\' then Cons(t[0], Fix(t[1..]))
    else match Special(t[1..])
      case None => None
      case Some((c, used)) => Cons(c, Fix(t[1 + used..]))
  }

  /** The flag FixString leaves: whether it met a backslash. */
  predicate HasBackslash(t: Bytes) {
    exists i :: 0 <= i < |t| && t[i] == '\\'
  }

  /** One round of the loop. */
  lemma FixAt(t: Bytes, p: nat)
    requires p < |t|
    ensures t[p] != '\\' ==> Fix(t[p..]) == Cons(t[p], Fix(t[p + 1..]))
    ensures t[p] == '\\' ==> match Special(t[p + 1..])
                             case None => Fix(t[p..]) == None
                             case Some((c, used)) => p + 1 + used <= |t| && Fix(t[p..]) == Cons(c, Fix(t[p + 1 + used..]))
  {
    var u := t[p..];
    assert u[1..] == t[p + 1..];
    if t[p] == '\\' && Special(t[p + 1..]).Some? {
      assert u[1 + Special(u[1..]).value.1..] == t[p + 1 + Special(u[1..]).value.1..];
    }
  }

  lemma BackslashUpTo(t: Bytes, p: nat, q: nat)
    requires p < q <= |t|
    ensures t[p] == '\\' ==> HasBackslash(t[..q])
    ensures q == p + 1 && t[p] != '\\' ==> HasBackslash(t[..q]) == HasBackslash(t[..p])
  {
    assert t[..q][p] == t[p];
  }

  method FixString(value: Bytes) returns (res: Option<Bytes>, flag: bool)
    ensures res == Fix(value)
    ensures res.Some? ==> flag == HasBackslash(value)
  {
    hide Fix, Special, HasBackslash;
    flag := false;
    var out: Bytes := [];
    var p := 0;
    FixStart(value);
    while p < |value|
      invariant p <= |value|
      invariant Fix(value) == Prefix(out, Fix(value[p..]))
      invariant flag == HasBackslash(value[..p])
    {
      FixAt(value, p);
      if value[p] == '\\' {
        flag := true;
        var s := Special(value[p + 1..]);
        if s == None {
          return None, flag;
        }
        var (c, used) := s.value;
        BackslashUpTo(value, p, p + 1 + used);
        PrefixTwice(out, [c], Fix(value[p + 1 + used..]));
        out := out + [c];
        p := p + 1 + used;
      } else {
        BackslashUpTo(value, p, p + 1);
        PrefixTwice(out, [value[p]], Fix(value[p + 1..]));
        out := out + [value[p]];
        p := p + 1;
      }
    }
    FixStart(value);
    assert out + [] == out;
    res := Some(out);
  }

  lemma FixStart(t: Bytes)
    ensures t[0..] == t && t[..|t|] == t && Fix(t[|t|..]) == Some([]) && !HasBackslash(t[..0])
    ensures Prefix([], Fix(t)) == Fix(t)
  {
    PrefixTwice([], [], Fix(t));
  }

  // ---- They undo each other

  lemma OrNibble(h: nat, l: nat)
    requires l < 16
    ensures Or(h * 16, l) == h * 16 + l
  {
    hide Or;
    OrStep(h * 16, l); OrStep(h * 8, l / 2); OrStep(h * 4, l / 4); OrStep(h * 2, l / 8); OrStep(h, 0);
    OrZero(h);
  }

  lemma {:induction false} OrZero(h: nat)
    ensures Or(h, 0) == h
  {
    if h != 0 { OrZero(h / 2); }
  }

  lemma {:induction false} HexRoundTrip(c: Octet)
    ensures HexPair(HexDigit(c as int / 16), HexDigit(c as int % 16)) == c
  {
    hide Or;
    HexDigitValue(c as int / 16);
    HexDigitValue(c as int % 16);
    OrNibble(c as int / 16, c as int % 16);
    assert c as int / 16 * 16 + c as int % 16 == c as int;
  }

  lemma HexDigitValue(n: nat)
    requires n < 16
    ensures HexValue(HexDigit(n)) == n
  {
  }

  lemma FixPlainByte(c: Octet, rest: Bytes)
    requires c != '\\'
    ensures Fix([c] + rest) == Cons(c, Fix(rest))
  {
    assert ([c] + rest)[1..] == rest;
  }

  /** An escape e of length used + 1 whose Special value is c. */
  lemma FixEscaped(e: Bytes, c: Octet, rest: Bytes)
    requires e != [] && e[0] == '\\' && Special(e[1..] + rest) == Some((c, |e| - 1))
    ensures Fix(e + rest) == Cons(c, Fix(rest))
  {
    var t := e + rest;
    assert t[1..] == e[1..] + rest;
    assert t[1 + (|e| - 1)..] == rest;
  }

  lemma {:induction false} FixOne(c: Octet, mask: bool, rest: Bytes)
    ensures Fix(EscapeChar(c, mask) + rest) == Cons(c, Fix(rest))
  {
    hide Fix, Or, HexPair;
    var e := EscapeChar(c, mask);
    if |e| == 1 {
      FixPlainByte(c, rest);
    } else {
      if |e| == 6 {
        HexRoundTrip(c);
        assert e[1..] + rest == ['u', '0', '0', HexDigit(c as int / 16), HexDigit(c as int % 16)] + rest;
      } else {
        assert e[1..] + rest == [e[1]] + rest;
      }
      FixEscaped(e, c, rest);
    }
  }

  /** For every byte string, unescaping what was escaped gives the string back, with or without masking. */
  lemma {:induction false} FixUndoesUnfix(s: Bytes, mask: bool)
    ensures Fix(Escape(s, mask)) == Some(s)
  {
    if s != [] {
      FixOne(s[0], mask, Escape(s[1..], mask));
      FixUndoesUnfix(s[1..], mask);
      assert [s[0]] + s[1..] == s;
    }
  }

  /** With no backslash in the text the unescaped fast path is taken, and is undone as well. */
  lemma {:induction false} FastPathUndone(t: Bytes)
    requires !HasBackslash(t)
    ensures Fix(t) == Some(t)
  {
    if t != [] {
      forall i | 0 <= i < |t[1..]| ensures t[1..][i] != '\\' { assert t[i + 1] != '\\'; }
      FastPathUndone(t[1..]);
      assert [t[0]] + t[1..] == t;
    }
  }

  // ---- What escaped text looks like

  /** Bytes the scanner and the stripper pass over inside quotes. */
  predicate Quiet(c: Octet) {
    c == MASKED || (32 <= c as int <= 126 && c != '"')
  }

  predicate AllQuiet(t: Bytes) {
    forall i :: 0 <= i < |t| ==> Quiet(t[i])
  }

  /** Masked text holds no quote, no NUL and no byte outside the printable ones but the mask. */
  lemma {:induction false} EscapedIsQuiet(s: Bytes)
    ensures AllQuiet(Escape(s, true))
  {
    if s != [] { EscapedIsQuiet(s[1..]); }
  }

  /** A string needs no escaping exactly when its escape holds no backslash; otherwise the escape is longer. */
  lemma {:induction false} PlainOrLonger(s: Bytes, mask: bool)
    ensures |Escape(s, mask)| >= |s|
    ensures Escape(s, mask) == s <==> |Escape(s, mask)| == |s|
    ensures Escape(s, mask) == s <==> !HasBackslash(Escape(s, mask))
  {
    if s != [] {
      var e, r := EscapeChar(s[0], mask), Escape(s[1..], mask);
      PlainOrLonger(s[1..], mask);
      assert s == [s[0]] + s[1..];
      if |e| == 1 {
        assert (e + r)[1..] == r;
        if HasBackslash(r) {
          var i :| 0 <= i < |r| && r[i] == '\\';
          assert (e + r)[i + 1] == '\\';
        }
        if HasBackslash(e + r) {
          var i :| 0 <= i < |e + r| && (e + r)[i] == '\\';
          assert r[i - 1] == '\\';
        }
      } else {
        assert (e + r)[0] == '\\';
      }
    }
  }

  // ---- What each escape stands for, digit by digit

  /** d is the hexadecimal digit of n, in either case. */
  predicate IsHexDigitOf(d: Octet, n: nat) {
    n < 16 && (d == "0123456789abcdef"[n] || d == "0123456789ABCDEF"[n])
  }

  lemma HexDigitRead(d: Octet, n: nat)
    requires IsHexDigitOf(d, n)
    ensures HexValue(d) == n && d != '\\'
  {
    assert "0123456789abcdef"[n] as int == if n < 10 then 48 + n else 87 + n;
    assert "0123456789ABCDEF"[n] as int == if n < 10 then 48 + n else 55 + n;
  }

  lemma HexPairRead(dh: Octet, dl: Octet, h: nat, l: nat)
    requires IsHexDigitOf(dh, h) && IsHexDigitOf(dl, l)
    ensures HexPair(dh, dl) as int == 16 * h + l
  {
    hide Or;
    HexDigitRead(dh, h);
    HexDigitRead(dl, l);
    OrNibble(h, l);
  }

  /** A backslash, u and four bytes, of which the last two are the digits, whatever follows. */
  lemma UnicodeRead(a: Octet, b: Octet, dh: Octet, dl: Octet, h: nat, l: nat, t: Bytes)
    requires IsHexDigitOf(dh, h) && IsHexDigitOf(dl, l)
    ensures 16 * h + l < 256
    ensures Fix(['\\', 'u', a, b, dh, dl] + t) == Cons((16 * h + l) as char, Fix(t))
  {
    hide Fix, HexPair;
    HexPairRead(dh, dl, h, l);
    var e: Bytes := ['\\', 'u', a, b, dh, dl];
    var u := e[1..] + t;
    assert u[0] == 'u' && u[3] == dh && u[4] == dl;
    FixEscaped(e, (16 * h + l) as char, t);
  }

  /** A backslash, x and two digits. At the end of the text the code wants one byte more: there it gives a NUL and
      the digits stay. */
  lemma HexRead(dh: Octet, dl: Octet, h: nat, l: nat, t: Bytes)
    requires IsHexDigitOf(dh, h) && IsHexDigitOf(dl, l)
    ensures 16 * h + l < 256
    ensures t != [] ==> Fix(['\\', 'x', dh, dl] + t) == Cons((16 * h + l) as char, Fix(t))
    ensures Fix(['\\', 'x', dh, dl]) == Some([0 as char, dh, dl])
  {
    hide Fix, HexPair;
    HexPairRead(dh, dl, h, l);
    HexDigitRead(dh, h);
    HexDigitRead(dl, l);
    var e: Bytes := ['\\', 'x', dh, dl];
    if t != [] {
      var u := e[1..] + t;
      assert u[0] == 'x' && u[1] == dh && u[2] == dl;
      FixEscaped(e, (16 * h + l) as char, t);
    }
    EndOfText(e[..2], e[2..]);
    assert e[..2] + e[2..] == e && [NUL] + e[2..] == [0 as char, dh, dl];
  }

  /** An escape that would go beyond the end of the text. */
  lemma EndOfText(e: Bytes, t: Bytes)
    requires |e| == 2 && e[0] == '\\' && Special(e[1..] + t) == Some((NUL, 1)) && !HasBackslash(t)
    ensures Fix(e + t) == Some([NUL] + t)
  {
    FixEscaped(e, NUL, t);
    FastPathUndone(t);
  }

  /** Three octal digits, with the same care at the end; the value is taken modulo 256. */
  lemma OctalRead(a: nat, b: nat, c: nat, t: Bytes)
    requires a < 8 && b < 8 && c < 8
    ensures var d: Bytes := [(48 + a) as char, (48 + b) as char, (48 + c) as char];
            && (t != [] ==> Fix(['\\'] + d + t) == Cons(((64 * a + 8 * b + c) % 256) as char, Fix(t)))
            && Fix(['\\'] + d) == Some([0 as char] + d[1..])
  {
    hide Fix, Or;
    OctalDigits(a, b, c);
    var d: Bytes := [(48 + a) as char, (48 + b) as char, (48 + c) as char];
    var e := ['\\'] + d;
    if t != [] {
      var u := e[1..] + t;
      assert u[0] == d[0] && u[1] == d[1] && u[2] == d[2];
      FixEscaped(e, ((64 * a + 8 * b + c) % 256) as char, t);
    }
    EndOfText(e[..2], e[2..]);
    assert e[..2] + e[2..] == e && e[2..] == d[1..];
  }

  lemma OctalDigits(a: nat, b: nat, c: nat)
    requires a < 8 && b < 8 && c < 8
    ensures OctalValue((48 + a) as char, (48 + b) as char, (48 + c) as char) as int == (64 * a + 8 * b + c) % 256
  {
    hide Or;
    OctalOr(a, b, c);
  }

  lemma OctalOr(a: nat, b: nat, c: nat)
    requires a < 8 && b < 8 && c < 8
    ensures Or(Or(a * 64, b * 8), c) == 64 * a + 8 * b + c
  {
    hide Or;
    OrEighth(a, b);
    OrEighth(8 * a + b, c);
    OrDouble(8 * a, b);
    OrDouble(2 * (8 * a), 2 * b);
    OrDouble(2 * (2 * (8 * a)), 2 * (2 * b));
  }

  lemma OrDouble(x: nat, y: nat)
    ensures Or(2 * x, 2 * y) == 2 * Or(x, y)
  {
    hide Or;
    OrStep(2 * x, 2 * y);
  }

  lemma OrEighth(h: nat, l: nat)
    requires l < 8
    ensures Or(8 * h, l) == 8 * h + l
  {
    hide Or;
    OrStep(8 * h, l); OrStep(4 * h, l / 2); OrStep(2 * h, l / 4);
    OrZero(h);
  }

  /** The other escapes, by the byte behind the backslash and the byte they give; what means nothing else is itself. */
  lemma SimpleRead(c: Octet, t: Bytes)
    requires c != 'u' && c != 'x' && !('0' <= c <= '7')
    ensures Fix(['\\', c] + t)
            == Cons(if c as int == 1 then 34 as char else if c == 't' then 9 as char else if c == 'n' then 10 as char
                    else if c == 'r' then 13 as char else if c == 'b' then 8 as char else if c == 'f' then 12 as char
                    else if c == 'v' then 11 as char else c, Fix(t))
  {
    hide Fix;
    var e: Bytes := ['\\', c];
    assert (e[1..] + t)[0] == c;
    FixEscaped(e, Special(e[1..] + t).value.0, t);
  }

  /** What is written for each byte. */
  lemma EscapeTable(c: Octet)
    ensures Escape([c], false)
            == if c as int == 34 then ['\\', '"'] else if c as int == 92 then ['\\', '\\'] else if c as int == 47 then ['\\', '/']
               else if c as int == 9 then ['\\', 't'] else if c as int == 10 then ['\\', 'n'] else if c as int == 13 then ['\\', 'r']
               else if c as int == 8 then ['\\', 'b'] else if c as int == 12 then ['\\', 'f']
               else if c as int < 32 || c as int > 126 then
                 ['\\', 'u', '0', '0', "0123456789ABCDEF"[c as int / 16], "0123456789ABCDEF"[c as int % 16]]
               else [c]
  {
    EscapeOne(c, false);
    HexDigitWritten(c as int / 16);
    HexDigitWritten(c as int % 16);
  }

  lemma HexDigitWritten(n: nat)
    requires n < 16
    ensures HexDigit(n) == "0123456789ABCDEF"[n]
  {
  }
}
