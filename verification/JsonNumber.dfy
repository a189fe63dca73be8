/** Number texts of libjson: writing integers, recognising numeric text, reading integers back. */
module JsonNumber {
  import opened JsonEscape

  const INT64_LIMIT: int := 0x8000_0000_0000_0000

  predicate IsDigit(c: Octet) { '0' <= c <= '9' }

  predicate IsHex(c: Octet) { IsDigit(c) || 'A' <= c <= 'F' || 'a' <= c <= 'f' }

  function Head(t: Bytes): Octet { if t == [] then NUL else t[0] }

  function Tail(t: Bytes): Bytes { if t == [] then [] else t[1..] }

  // ---- _itoa

  function Digit(d: nat): Octet
    requires d < 10
  {
    Byte(48 + d)
  }

  function Digits(n: nat): Bytes {
    if n < 10 then [Digit(n)] else Digits(n / 10) + [Digit(n % 10)]
  }

  function IntText(n: int): Bytes {
    if n < 0 then ['-'] + Digits(-n) else Digits(n)
  }

  function Pow10(k: nat): nat { if k == 0 then 1 else 10 * Pow10(k - 1) }

  lemma LimitFits()
    ensures INT64_LIMIT <= Pow10(19)
  {
    assert Pow10(5) == 100_000;
    assert Pow10(10) == 10_000_000_000;
    assert Pow10(15) == 1_000_000_000_000_000;
    assert Pow10(19) == 10_000_000_000_000_000_000;
  }

  /** The digits are written backwards into a buffer of 22 bytes, which a 64-bit integer never overruns. */
  method Itoa(val: int) returns (text: Bytes)
    requires -INT64_LIMIT < val < INT64_LIMIT
    ensures text == IntText(val)
  {
    hide Digits, Pow10, Digit, HighDigits;
    var buffer := new Octet[22](_ => NUL);
    var runner := 20;
    var value: nat := if val < 0 then -val else val;
    ghost var v0 := value;
    LimitFits();
    TakeDigit(v0, [], 19);
    Put(buffer, runner, Digit(value % 10));
    ghost var tail := buffer[20..21];
    runner, value := runner - 1, value / 10;
    while value != 0
      invariant 1 <= runner < 20 && value < Pow10(runner - 1)
      invariant Digits(v0) == HighDigits(value) + tail && tail == buffer[runner + 1..21]
    {
      TakeDigit(value, tail, runner - 1);
      Put(buffer, runner, Digit(value % 10));
      tail := [Digit(value % 10)] + tail;
      runner, value := runner - 1, value / 10;
    }
    NoDigits(tail);
    if val < 0 {
      Put(buffer, runner, '-');
      text := buffer[runner..21];
    } else {
      text := buffer[runner + 1..21];
    }
  }

  /** One byte in front of those already in the buffer. */
  method Put(buffer: array<Octet>, runner: nat, c: Octet)
    requires buffer.Length == 22 && runner <= 20
    modifies buffer
    ensures buffer[runner..21] == [c] + old(buffer[runner + 1..21])
  {
    buffer[runner] := c;
  }

  /** The digits still to be written. */
  function HighDigits(n: nat): Bytes {
    if n == 0 then [] else Digits(n)
  }

  lemma TakeDigit(n: nat, tail: Bytes, k: nat)
    requires n < Pow10(k)
    ensures n > 0 ==> HighDigits(n) + tail == HighDigits(n / 10) + ([Digit(n % 10)] + tail)
    ensures k >= 1 ==> n / 10 < Pow10(k - 1)
    ensures n > 0 ==> k >= 1
    ensures n / 10 > 0 ==> k >= 2
    ensures tail == [] ==> Digits(n) == HighDigits(n / 10) + [Digit(n % 10)]
  {
    assert Digits(n) == HighDigits(n / 10) + [Digit(n % 10)];
    assert Pow10(0) == 1 && Pow10(1) == 10;
  }

  lemma NoDigits(tail: Bytes)
    ensures HighDigits(0) + tail == tail
  {
  }

  // ---- isNumeric

  predicate All(t: Bytes, p: Octet -> bool) {
    forall i :: 0 <= i < |t| ==> p(t[i])
  }

  /** The digit loop, after the first character. */
  predicate NumericRest(t: Bytes, decimal: bool, scientific: bool)
    decreases |t|
  {
    var c := Head(t);
    if c == NUL then true
    else if c == '.' then !decimal && !scientific && NumericRest(t[1..], true, scientific)
    else if c == 'e' || c == 'E' then
      !scientific && Exponent(t[1..]) && NumericRest(t[2..], decimal, true)
    else IsDigit(c) && NumericRest(t[1..], decimal, scientific)
  }

  /** The character after e or E. */
  predicate Exponent(t: Bytes) {
    if Head(t) == '-' || Head(t) == '+' then IsDigit(Head(Tail(t))) else IsDigit(Head(t))
  }

  predicate IsNumeric(t: Bytes) {
    var c := Head(t);
    if c == '.' then NumericRest(t[1..], true, false)
    else if c == '+' || c == '-' then
      var d := Head(t[1..]);
      if d == '.' || d == 'e' || d == 'E' || d == NUL then false
      else NumericRest(if d == '0' then t[2..] else t[1..], false, false)
    else if '1' <= c <= '9' then NumericRest(t[1..], false, false)
    else if c == '0' then
      var d := Head(t[1..]);
      if d == '.' then NumericRest(t[2..], true, false)
      else if d == 'e' || d == 'E' then
        var e := Head(t[2..]);
        (e == '-' || e == '+' || IsDigit(e)) && NumericRest(t[3..], false, true)
      else if d == 'x' then All(t[2..], IsHex)
      else if '1' <= d <= '7' then All(t[1..], c => '0' <= c <= '7')
      else d == NUL
    else false
  }

  /** Bytes of numbers and literals: none of them means anything to the scanner. */
  predicate Plain(c: Octet) {
    IsDigit(c) || 'A' <= c <= 'Z' || 'a' <= c <= 'z' || c == '.' || c == '+' || c == '-'
  }

  predicate AllPlain(t: Bytes) { forall i :: 0 <= i < |t| ==> Plain(t[i]) }

  lemma PlainCons(t: Bytes)
    requires t != [] && Plain(t[0]) && AllPlain(t[1..])
    ensures AllPlain(t)
  {
    forall i | 0 <= i < |t| ensures Plain(t[i]) { if i > 0 { assert t[1..][i - 1] == t[i]; } }
  }

  lemma {:induction false} RestIsPlain(t: Bytes, decimal: bool, scientific: bool)
    requires NumericRest(t, decimal, scientific) && NUL !in t
    ensures AllPlain(t)
    decreases |t|
  {
    if t != [] {
      var c := t[0];
      if c == 'e' || c == 'E' {
        assert t[1..] != [] && t[1..][0] == t[1] && t[1..][1..] == t[2..];
        RestIsPlain(t[2..], decimal, true);
        PlainCons(t[1..]);
      } else if c == '.' {
        RestIsPlain(t[1..], true, scientific);
      } else {
        RestIsPlain(t[1..], decimal, scientific);
      }
      PlainCons(t);
    }
  }

  /** Numeric text without NULs is plain, and its first byte selects the number case of the constructor. */
  lemma NumericIsPlain(t: Bytes)
    requires IsNumeric(t) && NUL !in t
    ensures AllPlain(t) && t != [] && (IsDigit(t[0]) || t[0] == '.' || t[0] == '+' || t[0] == '-')
  {
    assert t != [];
    var c := t[0];
    var u := t[1..];
    assert u != [] ==> u[1..] == t[2..] && u[0] == t[1];
    if c == '.' {
      RestIsPlain(u, true, false);
    } else if c == '+' || c == '-' {
      if u[0] == '0' { RestIsPlain(t[2..], false, false); PlainCons(u); } else { RestIsPlain(u, false, false); }
    } else if '1' <= c <= '9' {
      RestIsPlain(u, false, false);
    } else {
      ZeroIsPlain(t);
    }
    PlainCons(t);
  }

  lemma ZeroIsPlain(t: Bytes)
    requires IsNumeric(t) && NUL !in t && t != [] && t[0] == '0'
    ensures AllPlain(t[1..])
  {
    var u := t[1..];
    if u != [] {
      assert u[0] == t[1] && u[1..] == t[2..];
      var d := u[0];
      if d == '.' {
        RestIsPlain(t[2..], true, false);
        PlainCons(u);
      } else if d == 'e' || d == 'E' {
        assert t[2..] != [] && t[2..][0] == t[2] && t[2..][1..] == t[3..];
        RestIsPlain(t[3..], false, true);
        PlainCons(t[2..]);
        PlainCons(u);
      } else if d == 'x' {
        forall i | 0 <= i < |t[2..]| ensures Plain(t[2..][i]) { assert IsHex(t[2..][i]); }
        PlainCons(u);
      } else {
        forall i | 0 <= i < |u| ensures Plain(u[i]) { assert '0' <= u[i] <= '7'; }
      }
    }
  }

  // ---- Integer texts are numeric, and are read back

  lemma {:induction false} DigitsAreDigits(n: nat)
    ensures |Digits(n)| >= 1 && forall i :: 0 <= i < |Digits(n)| ==> IsDigit(Digits(n)[i])
    ensures n > 0 ==> Digits(n)[0] != '0'
  {
    if n >= 10 { DigitsAreDigits(n / 10); }
  }

  lemma {:induction false} DigitsAreRest(t: Bytes, decimal: bool, scientific: bool)
    requires forall i :: 0 <= i < |t| ==> IsDigit(t[i])
    ensures NumericRest(t, decimal, scientific)
    decreases |t|
  {
    if t != [] {
      assert IsDigit(t[0]);
      forall i | 0 <= i < |t[1..]| ensures IsDigit(t[1..][i]) { assert IsDigit(t[i + 1]); }
      DigitsAreRest(t[1..], decimal, scientific);
    }
  }

  lemma IntTextIsNumeric(n: int)
    ensures IsNumeric(IntText(n)) && NUL !in IntText(n)
    ensures var t := IntText(n);
            var digits := if n < 0 then t[1..] else t;
            && t != [] && (n < 0 ==> t[0] == '-')
            && AllDigits(digits) && digits != [] && (digits[0] == '0' ==> n == 0 && t == "0")
  {
    var d := Digits(if n < 0 then -n else n);
    DigitsAreDigits(if n < 0 then -n else n);
    forall i | 0 <= i < |d[1..]| ensures IsDigit(d[1..][i]) { assert IsDigit(d[i + 1]); }
    DigitsAreRest(d[1..], false, false);
    DigitsAreRest(d, false, false);
    assert IsDigit(d[0]);
    if n < 0 {
      assert IntText(n)[1..] == d;
    } else if n == 0 {
      assert d == ['0'] && d[1..] == [];
    }
  }

  /** The digits at the front of t, appended to acc. */
  function ReadDigits(t: Bytes, acc: nat): nat
    decreases |t|
  {
    if t == [] || !IsDigit(t[0]) then acc else ReadDigits(t[1..], 10 * acc + (t[0] as int - 48))
  }

  /** ATOLL: sign and digits, saturating at the 64-bit limits. */
  function Atoll(t: Bytes): int {
    var a: int := ReadDigits(if Head(t) == '-' || Head(t) == '+' then t[1..] else t, 0);
    var v := if Head(t) == '-' then -a else a;
    if v >= INT64_LIMIT then INT64_LIMIT - 1 else if v < -INT64_LIMIT then -INT64_LIMIT else v
  }

  lemma {:induction false} ReadLast(t: Bytes, c: Octet, acc: nat)
    requires IsDigit(c) && forall i :: 0 <= i < |t| ==> IsDigit(t[i])
    ensures ReadDigits(t + [c], acc) == 10 * ReadDigits(t, acc) + (c as int - 48)
    decreases |t|
  {
    if t == [] {
      assert t + [c] == [c] && [c][1..] == [];
    } else {
      assert (t + [c])[1..] == t[1..] + [c];
      forall i | 0 <= i < |t[1..]| ensures IsDigit(t[1..][i]) { assert IsDigit(t[i + 1]); }
      ReadLast(t[1..], c, 10 * acc + (t[0] as int - 48));
    }
  }

  lemma {:induction false} ReadUndoesDigits(n: nat)
    ensures ReadDigits(Digits(n), 0) == n
  {
    if n < 10 {
      assert [Digit(n)][1..] == [];
    } else {
      DigitsAreDigits(n / 10);
      ReadLast(Digits(n / 10), Digit(n % 10), 0);
      ReadUndoesDigits(n / 10);
    }
  }

  /** Every integer above the minimum survives being written and read. */
  lemma AtollUndoesItoa(n: int)
    requires -INT64_LIMIT < n < INT64_LIMIT
    ensures Atoll(IntText(n)) == n
  {
    var a := if n < 0 then -n else n;
    ReadUndoesDigits(a);
    DigitsAreDigits(a);
    assert n < 0 ==> IntText(n)[1..] == Digits(a);
    assert n >= 0 ==> IsDigit(Digits(a)[0]);
  }

  // ---- What is numeric

  predicate AllDigits(t: Bytes) {
    forall i :: 0 <= i < |t| ==> '0' <= t[i] <= '9'
  }

  /** Nothing, or a point and digits, which may be missing. */
  predicate Fraction(t: Bytes) {
    t == [] || (t[0] == '.' && AllDigits(t[1..]))
  }

  /** Nothing, or an e of either case, a sign if there is one, and at least one digit. */
  predicate PowerOfTen(t: Bytes) {
    t == [] || ((t[0] == 'e' || t[0] == 'E') && |t| > 1
      && var d := if t[1] == '+' || t[1] == '-' then t[2..] else t[1..];
         d != [] && AllDigits(d))
  }

  /** Digits, fraction and power of ten, one behind the other. */
  predicate Parts(t: Bytes, whole: Bytes, fraction: Bytes, power: Bytes) {
    t == whole + fraction + power && AllDigits(whole) && Fraction(fraction) && PowerOfTen(power)
  }

  /** At least one digit to begin with. */
  ghost predicate Decimal(t: Bytes) {
    exists whole, fraction, power :: whole != [] && Parts(t, whole, fraction, power)
  }

  lemma {:induction false} RestParts(t: Bytes, decimal: bool, scientific: bool) returns (whole: Bytes, fraction: Bytes, power: Bytes)
    requires NumericRest(t, decimal, scientific) && NUL !in t
    ensures Parts(t, whole, fraction, power)
    ensures (decimal || scientific ==> fraction == []) && (scientific ==> power == [])
    decreases |t|
  {
    hide Parts;
    if t == [] {
      whole, fraction, power := [], [], [];
      NoParts();
    } else if t[0] == '.' {
      whole, fraction, power := RestParts(t[1..], true, scientific);
      PointParts(t, whole, power);
      whole, fraction := [], t[..1] + whole;
    } else if t[0] == 'e' || t[0] == 'E' {
      whole, fraction, power := RestParts(t[2..], decimal, true);
      PowerParts(t, whole);
      whole, fraction, power := [], [], t;
    } else {
      whole, fraction, power := RestParts(t[1..], decimal, scientific);
      DigitParts(t, whole, fraction, power);
      whole := t[..1] + whole;
    }
  }

  lemma NoParts()
    ensures Parts([], [], [], [])
  {
  }

  lemma PointParts(t: Bytes, whole: Bytes, power: Bytes)
    requires t != [] && t[0] == '.' && Parts(t[1..], whole, [], power)
    ensures Parts(t, [], t[..1] + whole, power)
  {
    assert (t[..1] + whole)[1..] == whole;
  }

  lemma PowerParts(t: Bytes, whole: Bytes)
    requires |t| > 1 && (t[0] == 'e' || t[0] == 'E') && Exponent(t[1..]) && NUL !in t && Parts(t[2..], whole, [], [])
    ensures Parts(t, [], [], t)
  {
    assert whole == t[2..] && t[1..] == [t[1]] + whole && t[1..][1..] == t[2..];
  }

  lemma DigitParts(t: Bytes, whole: Bytes, fraction: Bytes, power: Bytes)
    requires t != [] && IsDigit(t[0]) && Parts(t[1..], whole, fraction, power)
    ensures Parts(t, t[..1] + whole, fraction, power)
  {
    assert t == t[..1] + t[1..];
  }

  lemma {:induction false} PartsRest(t: Bytes, whole: Bytes, fraction: Bytes, power: Bytes, decimal: bool, scientific: bool)
    requires Parts(t, whole, fraction, power)
    requires (decimal || scientific ==> fraction == []) && (scientific ==> power == [])
    ensures NumericRest(t, decimal, scientific)
    decreases |t|
  {
    if whole != [] {
      assert t[0] == whole[0] && t[1..] == whole[1..] + fraction + power;
      PartsRest(t[1..], whole[1..], fraction, power, decimal, scientific);
    } else if fraction != [] {
      assert t[0] == '.' && t[1..] == fraction[1..] + [] + power;
      PartsRest(t[1..], fraction[1..], [], power, true, scientific);
    } else if power != [] {
      assert t == power && t[1..] != [] && t[1..][0] == t[1] && t[1..][1..] == t[2..];
      assert t[2..] == t[2..] + [] + [];
      PartsRest(t[2..], t[2..], [], [], decimal, true);
    }
  }

  /** A first digit and a rest of the digit loop are a decimal number. */
  lemma DecimalExactly(t: Bytes)
    requires NUL !in t && t != []
    ensures Decimal(t) <==> '0' <= t[0] <= '9' && NumericRest(t[1..], false, false)
  {
    hide Parts, NumericRest;
    if '0' <= t[0] <= '9' && NumericRest(t[1..], false, false) {
      var w, f, p := RestParts(t[1..], false, false);
      DigitParts(t, w, f, p);
    }
    if Decimal(t) {
      var w, f, p :| w != [] && Parts(t, w, f, p);
      FirstDigit(t, w, f, p);
      PartsRest(t[1..], w[1..], f, p, false, false);
    }
  }

  lemma FirstDigit(t: Bytes, whole: Bytes, fraction: Bytes, power: Bytes)
    requires whole != [] && Parts(t, whole, fraction, power)
    ensures t != [] && t[0] == whole[0] && '0' <= t[0] <= '9' && Parts(t[1..], whole[1..], fraction, power)
  {
    assert t[0] == whole[0] && t[1..] == whole[1..] + fraction + power;
  }

  /** The number texts, by their first character. A point needs no digits on either side, leading zeros are
      allowed behind a sign only, and 0x and further octal digits are taken as numbers; the power of ten of a
      lone zero may lack its digits. */
  ghost predicate NumberText(t: Bytes) {
    && t != []
    && if t[0] == '+' || t[0] == '-' then Decimal(t[1..])
       else if t[0] == '.' then exists w, p :: Parts(t[1..], w, [], p)
       else if '1' <= t[0] <= '9' then Decimal(t)
       else t[0] == '0' && (|t| == 1 || ZeroText(t[1..]))
  }

  /** What may follow a zero at the front. */
  ghost predicate ZeroText(u: Bytes)
    requires u != []
  {
    if u[0] == '.' then exists w, p :: Parts(u[1..], w, [], p)
    else if u[0] == 'e' || u[0] == 'E' then |u| > 1 && (u[1] == '+' || u[1] == '-' || '0' <= u[1] <= '9') && AllDigits(u[2..])
    else if u[0] == 'x' then forall i :: 1 <= i < |u| ==> u[i] in "0123456789abcdefABCDEF"
    else '1' <= u[0] <= '7' && forall i :: 0 <= i < |u| ==> u[i] in "01234567"
  }

  /** isNumeric accepts exactly these. */
  lemma NumericExactly(t: Bytes)
    requires NUL !in t
    ensures IsNumeric(t) <==> NumberText(t)
  {
    hide NumericRest, Decimal, Parts, ZeroText;
    if t != [] {
      var u := t[1..];
      assert u != [] ==> u[0] == t[1] && u[1..] == t[2..];
      if t[0] == '+' || t[0] == '-' {
        if u == [] {
          NoDecimal();
        } else {
          DecimalExactly(u);
          if u[0] != '.' && u[0] != 'e' && u[0] != 'E' { SignedRest(u); }
        }
      } else if t[0] == '.' {
        PointExactly(u);
      } else if '1' <= t[0] <= '9' {
        DecimalExactly(t);
      } else if t[0] == '0' && u != [] {
        ZeroExactly(t);
      }
    }
  }

  lemma NoDecimal()
    ensures !Decimal([])
  {
  }

  /** Behind a sign the first digit may be looked at twice. */
  lemma SignedRest(u: Bytes)
    requires u != [] && NUL !in u && u[0] != '.' && u[0] != 'e' && u[0] != 'E'
    ensures NumericRest(u, false, false) <==> '0' <= u[0] <= '9' && NumericRest(u[1..], false, false)
  {
  }

  lemma PointExactly(u: Bytes)
    requires NUL !in u
    ensures NumericRest(u, true, false) <==> exists w, p :: Parts(u, w, [], p)
  {
    if NumericRest(u, true, false) {
      var w, f, p := RestParts(u, true, false);
      assert Parts(u, w, [], p);
    }
    if w, p :| Parts(u, w, [], p) {
      PartsRest(u, w, [], p, true, false);
    }
  }

  lemma PowerExactly(u: Bytes)
    requires NUL !in u
    ensures NumericRest(u, false, true) <==> AllDigits(u)
  {
    if NumericRest(u, false, true) {
      var w, f, p := RestParts(u, false, true);
      assert w == u;
    }
    if AllDigits(u) {
      assert u == u + [] + [];
      PartsRest(u, u, [], [], false, true);
    }
  }

  lemma ZeroExactly(t: Bytes)
    requires NUL !in t && |t| > 1 && t[0] == '0'
    ensures IsNumeric(t) <==> ZeroText(t[1..])
  {
    hide NumericRest, Parts;
    var u := t[1..];
    assert u[0] == t[1] && u[1..] == t[2..];
    if u[0] == '.' {
      PointExactly(u[1..]);
    } else if u[0] == 'e' || u[0] == 'E' {
      if |u| > 1 {
        assert u[2..] == t[3..] && t[2..][0] == u[1];
        PowerExactly(t[3..]);
      }
    } else if u[0] == 'x' {
      HexDigitsAre(u[1..]);
      assert forall i :: 1 <= i < |u| ==> u[i] == u[1..][i - 1];
      assert forall i :: 0 <= i < |u[1..]| ==> u[1..][i] == u[i + 1];
    }
  }

  lemma HexDigitsAre(t: Bytes)
    ensures All(t, IsHex) <==> forall i :: 0 <= i < |t| ==> t[i] in "0123456789abcdefABCDEF"
  {
    forall c: Octet ensures IsHex(c) <==> c in "0123456789abcdefABCDEF" { HexDigitIs(c); }
  }

  lemma HexDigitIs(c: Octet)
    ensures IsHex(c) <==> c in "0123456789abcdefABCDEF"
  {
    var all := "0123456789abcdefABCDEF";
    if IsHex(c) {
      assert all[if c <= '9' then c as int - 48 else if c <= 'F' then c as int - 49 else c as int - 87] == c;
    }
  }

  /** Whatever is a number in section 6 of RFC 8259 is numeric here: a minus if there is one, digits without a
      leading zero, a fraction with digits, a power of ten. */
  lemma StandardNumbersAccepted(number: Bytes, whole: Bytes, fraction: Bytes, power: Bytes)
    requires Parts(number, whole, fraction, power) && whole != [] && (whole[0] == '0' ==> |whole| == 1)
    ensures IsNumeric(number) && IsNumeric("-" + number)
    ensures NUL !in number
  {
    hide IsNumeric, Parts, ZeroText;
    FirstDigit(number, whole, fraction, power);
    NoNul(number, whole, fraction, power);
    assert Decimal(number) && ("-" + number)[1..] == number;
    NumericExactly("-" + number);
    NumericExactly(number);
    if number[0] == '0' && |number| > 1 {
      StandardZero(number, whole, fraction, power);
    }
  }

  lemma NoNul(number: Bytes, whole: Bytes, fraction: Bytes, power: Bytes)
    requires Parts(number, whole, fraction, power)
    ensures NUL !in number
  {
    PowerBytes(power);
  }

  lemma StandardZero(number: Bytes, whole: Bytes, fraction: Bytes, power: Bytes)
    requires Parts(number, whole, fraction, power) && |whole| == 1 && |number| > 1
    ensures ZeroText(number[1..])
  {
    hide AllDigits;
    var u := number[1..];
    assert u == fraction + power;
    if fraction != [] {
      assert u[1..] == fraction[1..] + [] + power;
      assert Parts(u[1..], fraction[1..], [], power);
    } else {
      assert u == power;
      PowerText(power);
    }
  }

  lemma PowerText(power: Bytes)
    requires PowerOfTen(power) && power != []
    ensures ZeroText(power)
  {
    assert power[1..][1..] == power[2..];
  }

  lemma PowerBytes(power: Bytes)
    requires PowerOfTen(power)
    ensures forall i :: 0 <= i < |power| ==> power[i] in ['e', 'E', '+', '-'] || '0' <= power[i] <= '9'
  {
    if power != [] {
      var d := if power[1] == '+' || power[1] == '-' then power[2..] else power[1..];
      assert forall i :: |power| - |d| <= i < |power| ==> power[i] == d[i - (|power| - |d|)];
    }
  }

  // ---- What is read

  /** Any sign, leading zeros, the digits of a and other bytes: the value with that sign, within 64 bits. */
  lemma AtollReads(sign: Bytes, zeros: nat, a: nat, rest: Bytes)
    requires sign == "" || sign == "+" || sign == "-"
    requires rest == [] || !('0' <= rest[0] <= '9')
    ensures var v: int := a;
            Atoll(sign + seq(zeros, _ => '0') + Digits(a) + rest) ==
            (if sign == "-" then (if v > 9223372036854775808 then -9223372036854775808 else -v)
             else if v > 9223372036854775807 then 9223372036854775807 else v)
  {
    hide Digits;
    var z: Bytes := seq(zeros, _ => '0');
    var t := sign + z + Digits(a) + rest;
    DigitsAreDigits(a);
    ReadZeros(zeros, Digits(a) + rest);
    ReadStops(Digits(a), rest, 0);
    ReadUndoesDigits(a);
    assert t == sign + (z + (Digits(a) + rest));
    if sign == "" {
      assert IsDigit(t[0]) && t == z + (Digits(a) + rest);
    } else {
      assert t[1..] == z + (Digits(a) + rest);
    }
  }

  lemma {:induction false} ReadZeros(zeros: nat, t: Bytes)
    ensures ReadDigits(seq(zeros, _ => '0') + t, 0) == ReadDigits(t, 0)
  {
    var u: Bytes := seq(zeros, _ => '0') + t;
    if zeros > 0 {
      assert u[0] == '0' && u[1..] == seq(zeros - 1, _ => '0') + t;
      ReadZeros(zeros - 1, t);
    } else {
      assert u == t;
    }
  }

  lemma {:induction false} ReadStops(t: Bytes, rest: Bytes, acc: nat)
    requires (forall i :: 0 <= i < |t| ==> IsDigit(t[i])) && (rest == [] || !IsDigit(rest[0]))
    ensures ReadDigits(t + rest, acc) == ReadDigits(t, acc)
    decreases |t|
  {
    if t == [] {
      assert t + rest == rest;
    } else {
      assert (t + rest)[1..] == t[1..] + rest;
      ReadStops(t[1..], rest, 10 * acc + (t[0] as int - 48));
    }
  }
}
