/** JSONValidator: recursive descent over a C string, without building a tree. */
module JsonValidate {
  import opened Options
  import opened JsonEscape
  import opened JsonNumber
  import opened JsonTree
  import opened JsonScan
  import opened JsonParse

  const MAX_NEST_LEVEL := 128

  /** What a routine makes of the text from its pointer on: accepted, with what is left; rejected; or it
      reads past the terminating NUL. */
  datatype Verdict = Accept(rest: Bytes) | Reject | PastEnd

  // ---- Numbers

  predicate ExponentStart(t: Bytes) {
    t != [] && (t[0] == '-' || t[0] == '+' || IsDigit(t[0]))
  }

  function NumberRest(t: Bytes, decimal: bool, scientific: bool): (v: Verdict)
    ensures v.Accept? ==> |v.rest| <= |t|
    decreases |t|
  {
    if t == [] then Accept([])
    else if t[0] == '.' then (if decimal || scientific then Reject else NumberRest(t[1..], true, scientific))
    else if t[0] == 'e' || t[0] == 'E' then
      if scientific || !ExponentStart(t[1..]) then Reject else NumberRest(t[2..], decimal, true)
    else if IsDigit(t[0]) then NumberRest(t[1..], decimal, scientific)
    else Accept(t)
  }

  function SkipHex(t: Bytes): (r: Bytes)
    ensures |r| <= |t|
  {
    if t != [] && IsHex(t[0]) then SkipHex(t[1..]) else t
  }

  function ValidNumber(t: Bytes): (v: Verdict)
    ensures v.Accept? ==> |v.rest| < |t|
  {
    if t == [] then Reject
    else if t[0] == '.' then NumberRest(t[1..], true, false)
    else if t[0] == '+' || t[0] == '-' || '1' <= t[0] <= '9' then NumberRest(t[1..], false, false)
    else if t[0] == '0' then
      var u := t[1..];
      if u == [] then Accept(u)
      else if u[0] == '.' then NumberRest(u[1..], true, false)
      else if u[0] == 'e' || u[0] == 'E' then
        if ExponentStart(u[1..]) then NumberRest(u[2..], false, true) else Reject
      else if u[0] == 'x' then Accept(SkipHex(u[1..]))
      else if IsDigit(u[0]) then NumberRest(u[1..], false, false)
      else Accept(u)
    else Reject
  }

  // ---- Strings

  predicate HexRun(t: Bytes, k: nat) {
    |t| >= k && forall i :: 0 <= i < k ==> IsHex(t[i])
  }

  predicate SimpleEscape(c: Octet) {
    c == '"' || c == '\\' || c == '/' || c == 'b' || c == 'f' || c == 'n' || c == 'r' || c == 't'
  }

  /** From behind the opening quote. */
  function ValidString(t: Bytes): (v: Verdict)
    ensures v.Accept? ==> |v.rest| < |t|
    decreases |t|
  {
    if t == [] then Reject
    else if t[0] == '"' then Accept(t[1..])
    else if t[0] != '\\' then ValidString(t[1..])
    else if |t| < 2 then Reject
    else if SimpleEscape(t[1]) then ValidString(t[2..])
    else if t[1] == 'u' then (if HexRun(t[2..], 4) then ValidString(t[6..]) else Reject)
    else if t[1] == 'x' then (if HexRun(t[2..], 2) then ValidString(t[4..]) else Reject)
    else Reject
  }

  // ---- Values

  /** A literal, each letter in either case. */
  predicate Letters(t: Bytes, lower: Bytes, upper: Bytes)
    requires |lower| == |upper|
  {
    |t| >= |lower| && forall i :: 0 <= i < |lower| ==> t[i] == lower[i] || t[i] == upper[i]
  }

  const UPPER_TRUE: Bytes := ['T', 'R', 'U', 'E']
  const UPPER_FALSE: Bytes := ['F', 'A', 'L', 'S', 'E']
  const UPPER_NULL: Bytes := ['N', 'U', 'L', 'L']

  function ValidLetters(t: Bytes, lower: Bytes, upper: Bytes): Verdict
    requires |lower| == |upper|
  {
    if Letters(t, lower, upper) then Accept(t[|lower|..]) else Reject
  }

  function ValidMember(t: Bytes, depth: nat): (v: Verdict)
    ensures v.Accept? ==> |v.rest| <= |t|
    decreases |t|, 0
  {
    if t == [] then Reject
    else if t[0] == '"' then ValidString(t[1..])
    else if t[0] == '{' then (if depth + 1 > MAX_NEST_LEVEL then Reject else ValidObject(t[1..], depth + 1))
    else if t[0] == '[' then (if depth + 1 > MAX_NEST_LEVEL then Reject else ValidArray(t[1..], depth + 1))
    else if t[0] == 't' || t[0] == 'T' then ValidLetters(t, TRUE, UPPER_TRUE)
    else if t[0] == 'f' || t[0] == 'F' then ValidLetters(t, FALSE, UPPER_FALSE)
    else if t[0] == 'n' || t[0] == 'N' then ValidLetters(t, NULL, UPPER_NULL)
    else if t[0] == '}' || t[0] == ']' || t[0] == ',' then Accept(t)
    else ValidNumber(t)
  }

  /** From a name on, or from behind a comma: the byte there is skipped unseen. */
  function ValidNamedObject(t: Bytes, depth: nat): (v: Verdict)
    ensures v.Accept? ==> |v.rest| < |t|
    decreases |t|, 1
  {
    if t == [] then PastEnd
    else
      var name := ValidString(t[1..]);
      if !name.Accept? then name
      else if name.rest == [] || name.rest[0] != ':' then Reject
      else
        var member := ValidMember(name.rest[1..], depth);
        if !member.Accept? then member
        else if member.rest == [] then Reject
        else if member.rest[0] == ',' then ValidNamedObject(member.rest[1..], depth)
        else if member.rest[0] == '}' then Accept(member.rest[1..])
        else Reject
  }

  function ValidObject(t: Bytes, depth: nat): (v: Verdict)
    ensures v.Accept? ==> |v.rest| < |t|
    decreases |t|, 2
  {
    if t == [] then Reject
    else if t[0] == '"' then ValidNamedObject(t, depth)
    else if t[0] == '}' then Accept(t[1..])
    else Reject
  }

  function ValidArray(t: Bytes, depth: nat): (v: Verdict)
    ensures v.Accept? ==> |v.rest| < |t|
    decreases |t|, 1
  {
    if t == [] then Reject
    else if t[0] == ']' then Accept(t[1..])
    else
      var member := ValidMember(t, depth);
      if !member.Accept? then member
      else if member.rest == [] then Reject
      else if member.rest[0] == ',' then (if |member.rest| == 1 then Reject else ValidArray(member.rest[1..], depth))
      else if member.rest[0] == ']' then Accept(member.rest[1..])
      else Reject
  }

  /** isValidRoot on the C string json; None if it reads past the end. */
  function ValidRoot(json: Bytes): Option<bool> {
    var t := CString(json);
    if t == [] || (t[0] != '{' && t[0] != '[') then Some(false)
    else
      match if t[0] == '{' then ValidObject(t[1..], 1) else ValidArray(t[1..], 1)
      case Accept(rest) => Some(rest == [])
      case Reject => Some(false)
      case PastEnd => None
  }

  // ---- The validator on what the writer prints

  /** Nesting of containers. */
  function Depth(v: Value): nat
    decreases v, 1
  {
    match v
    case Arr(items) => 1 + DepthOfAll(items)
    case Obj(members) => 1 + DepthOfAll(members)
    case _ => 0
  }

  function DepthOfAll(ns: seq<Node>): nat
    decreases ns, 0
  {
    if ns == [] then 0
    else
      var first, rest := Depth(ns[0].value), DepthOfAll(ns[1..]);
      if first < rest then rest else first
  }

  /** What can follow a value: nothing, a separator or a closing bracket. */
  predicate Delimited(rest: Bytes) {
    rest == [] || rest[0] == ',' || rest[0] == ']' || rest[0] == '}'
  }

  lemma {:induction false} NumberRestAccepts(w: Bytes, decimal: bool, scientific: bool, rest: Bytes)
    requires NumericRest(w, decimal, scientific) && NUL !in w && Delimited(rest)
    ensures NumberRest(w + rest, decimal, scientific) == Accept(rest)
    decreases |w|
  {
    var t := w + rest;
    if w == [] {
      assert t == rest;
    } else {
      assert t[0] == w[0] && t[1..] == w[1..] + rest;
      if w[0] == '.' {
        NumberRestAccepts(w[1..], true, scientific, rest);
      } else if w[0] == 'e' || w[0] == 'E' {
        assert t[1] == w[1] && t[2..] == w[2..] + rest;
        NumberRestAccepts(w[2..], decimal, true, rest);
      } else {
        NumberRestAccepts(w[1..], decimal, scientific, rest);
      }
    }
  }

  lemma {:induction false} HexSkipped(w: Bytes, rest: Bytes)
    requires All(w, IsHex) && Delimited(rest)
    ensures SkipHex(w + rest) == rest
  {
    if w == [] {
      assert w + rest == rest;
    } else {
      assert (w + rest)[1..] == w[1..] + rest && (w + rest)[0] == w[0];
      HexSkipped(w[1..], rest);
    }
  }

  lemma {:induction false} OctalAccepts(w: Bytes, rest: Bytes)
    requires All(w, c => '0' <= c <= '7') && Delimited(rest)
    ensures NumberRest(w + rest, false, false) == Accept(rest)
  {
    if w == [] {
      assert w + rest == rest;
    } else {
      assert (w + rest)[1..] == w[1..] + rest && (w + rest)[0] == w[0];
      OctalAccepts(w[1..], rest);
    }
  }

  /** Every text the reader takes for a number is a valid number, up to its last byte. */
  lemma NumberAccepted(w: Bytes, rest: Bytes)
    requires IsNumeric(w) && NUL !in w && Delimited(rest)
    ensures ValidNumber(w + rest) == Accept(rest)
  {
    var t := w + rest;
    assert w != [] && t[0] == w[0] && t[1..] == w[1..] + rest;
    if w[0] == '.' {
      NumberRestAccepts(w[1..], true, false, rest);
    } else if w[0] == '+' || w[0] == '-' {
      assert w[1..] != [];
      if w[1] == '0' {
        assert (w[1..] + rest)[0] == '0' && (w[1..] + rest)[1..] == w[2..] + rest;
        NumberRestAccepts(w[2..], false, false, rest);
      } else {
        NumberRestAccepts(w[1..], false, false, rest);
      }
    } else if w[0] != '0' {
      NumberRestAccepts(w[1..], false, false, rest);
    } else {
      ZeroAccepted(w, rest);
    }
  }

  lemma ZeroAccepted(w: Bytes, rest: Bytes)
    requires IsNumeric(w) && NUL !in w && Delimited(rest) && w != [] && w[0] == '0'
    ensures ValidNumber(w + rest) == Accept(rest)
  {
    var u := w[1..];
    assert (w + rest)[1..] == u + rest;
    if u == [] {
      assert u + rest == rest;
    } else {
      assert (u + rest)[0] == u[0] && (u + rest)[1..] == u[1..] + rest && u[1..] == w[2..];
      if u[0] == 'e' || u[0] == 'E' { ZeroExponent(w, rest); } else { ZeroAndMore(w, rest); }
    }
  }

  /** A zero and an exponent. */
  lemma ZeroExponent(w: Bytes, rest: Bytes)
    requires IsNumeric(w) && NUL !in w && Delimited(rest) && |w| > 1 && w[0] == '0' && (w[1] == 'e' || w[1] == 'E')
    ensures ValidNumber(w + rest) == Accept(rest)
  {
    hide NumberRest, NumericRest, SkipHex, All;
    var u := w[1..];
    assert (w + rest)[1..] == u + rest && (u + rest)[0] == u[0];
    assert Head(w[2..]) == w[2] && (u + rest)[1..][0] == w[2] && (u + rest)[2..] == w[3..] + rest;
    NumberRestAccepts(w[3..], false, true, rest);
  }

  /** A zero and a fraction, or hexadecimal or octal digits. */
  lemma ZeroAndMore(w: Bytes, rest: Bytes)
    requires IsNumeric(w) && NUL !in w && Delimited(rest) && |w| > 1 && w[0] == '0' && w[1] != 'e' && w[1] != 'E'
    ensures ValidNumber(w + rest) == Accept(rest)
  {
    hide NumberRest, NumericRest, SkipHex;
    var u := w[1..];
    assert (w + rest)[1..] == u + rest && (u + rest)[0] == u[0] && (u + rest)[1..] == u[1..] + rest && u[1..] == w[2..];
    if u[0] == '.' {
      NumberRestAccepts(w[2..], true, false, rest);
    } else if u[0] == 'x' {
      HexSkipped(w[2..], rest);
    } else {
      assert All(u[1..], c => '0' <= c <= '7');
      OctalAccepts(u[1..], rest);
    }
  }

  lemma HexDigitIsHex(n: nat)
    requires n < 16
    ensures IsHex(HexDigit(n))
  {
  }

  lemma EscapeStep(c: Octet, t: Bytes)
    ensures ValidString(EscapeChar(c, false) + t) == ValidString(t)
  {
    var e := EscapeChar(c, false);
    var w := e + t;
    assert w[|e|..] == t && w[0] == e[0];
    if |e| == 2 {
      assert w[1] == e[1];
    } else if |e| == 6 {
      HexDigitIsHex(c as int / 16);
      HexDigitIsHex(c as int % 16);
      assert w[1] == e[1] && w[2..][0] == e[2] && w[2..][1] == e[3] && w[2..][2] == e[4] && w[2..][3] == e[5];
    }
  }

  lemma {:induction false} StringAccepted(s: Bytes, rest: Bytes)
    ensures ValidString(Escape(s, false) + (['"'] + rest)) == Accept(rest)
  {
    hide EscapeChar;
    if s == [] {
      assert Escape(s, false) + (['"'] + rest) == ['"'] + rest && (['"'] + rest)[1..] == rest;
    } else {
      var tail := Escape(s[1..], false) + (['"'] + rest);
      assert Escape(s, false) + (['"'] + rest) == EscapeChar(s[0], false) + tail;
      EscapeStep(s[0], tail);
      StringAccepted(s[1..], rest);
    }
  }

  /** The first byte of a printed value. */
  lemma FirstByte(v: Value)
    requires GoodNumbers(v)
    ensures Text(v, false) != [] && Text(v, false)[0] != ']' && Text(v, false)[0] != ','
  {
    if v.Num? { NumericIsPlain(v.text); }
  }

  /** Accepted to its end if the nesting is allowed, rejected if not. */
  function Expect(depth: nat, rest: Bytes): Verdict {
    if depth <= MAX_NEST_LEVEL then Accept(rest) else Reject
  }

  lemma LiteralAccepted(t: Bytes, upper: Bytes, rest: Bytes, depth: nat)
    requires (t == TRUE && upper == UPPER_TRUE) || (t == FALSE && upper == UPPER_FALSE) || (t == NULL && upper == UPPER_NULL)
    ensures ValidMember(t + rest, depth) == Accept(rest)
  {
    assert (t + rest)[|t|..] == rest && (t + rest)[0] == t[0];
    assert Letters(t + rest, t, upper);
  }

  /** The routine for a value stops just past its text. */
  lemma {:induction false} MemberVerdict(v: Value, depth: nat, rest: Bytes)
    requires GoodNumbers(v) && depth <= MAX_NEST_LEVEL && Delimited(rest)
    ensures ValidMember(Text(v, false) + rest, depth) == Expect(depth + Depth(v), rest)
    decreases v, 1
  {
    hide IsNumeric, ValidNumber, ValidString, ValidArray, ValidObject, ValidNamedObject, Escape, Join;
    var t := Text(v, false);
    match v {
      case Str(s) =>
        assert (t + rest)[1..] == Escape(s, false) + (['"'] + rest);
        StringAccepted(s, rest);
      case Num(text) =>
        NumericIsPlain(text);
        assert (t + rest)[0] == text[0];
        NumberAccepted(text, rest);
      case Bool(b) => LiteralAccepted(t, if b then UPPER_TRUE else UPPER_FALSE, rest, depth);
      case Null => LiteralAccepted(NULL, UPPER_NULL, rest, depth);
      case Arr(items) =>
        assert t + rest == ['['] + (Join(items, true, false) + ([']'] + rest));
        assert (['['] + (Join(items, true, false) + ([']'] + rest)))[1..] == Join(items, true, false) + ([']'] + rest);
        if depth + 1 <= MAX_NEST_LEVEL { ArrayVerdict(items, depth + 1, rest); }
      case Obj(members) =>
        assert t + rest == ['{'] + (Join(members, false, false) + (['}'] + rest));
        assert (['{'] + (Join(members, false, false) + (['}'] + rest)))[1..] == Join(members, false, false) + (['}'] + rest);
        if depth + 1 <= MAX_NEST_LEVEL { ObjectVerdict(members, depth + 1, rest); }
    }
  }

  lemma {:induction false} ArrayVerdict(items: seq<Node>, depth: nat, rest: Bytes)
    requires (forall n :: n in items ==> GoodNumbers(n.value)) && depth <= MAX_NEST_LEVEL
    ensures ValidArray(Join(items, true, false) + ([']'] + rest), depth) == Expect(depth + DepthOfAll(items), rest)
    decreases items, 0
  {
    hide ValidMember, GoodNumbers, Text, Depth;
    var close := [']'] + rest;
    assert close[1..] == rest;
    if items == [] {
      assert Join(items, true, false) + close == close;
    } else {
      assert forall n :: n in items[1..] ==> n in items;
      var t := Text(items[0].value, false);
      FirstByte(items[0].value);
      if |items| == 1 {
        assert Join(items, true, false) + close == t + close;
        MemberVerdict(items[0].value, depth, close);
      } else {
        var more := Join(items[1..], true, false) + close;
        assert Join(items, true, false) + close == t + ([','] + more);
        assert ([','] + more)[1..] == more;
        MemberVerdict(items[0].value, depth, [','] + more);
        ArrayVerdict(items[1..], depth, rest);
      }
    }
  }

  /** A name, its colon, and what comes after them. */
  lemma NameStep(name: Bytes, t: Bytes, depth: nat)
    ensures var w := Quoted(name, false) + ([':'] + t);
            && w[0] == '"'
            && ValidNamedObject(w, depth)
               == var member := ValidMember(t, depth);
                  if !member.Accept? then member
                  else if member.rest == [] then Reject
                  else if member.rest[0] == ',' then ValidNamedObject(member.rest[1..], depth)
                  else if member.rest[0] == '}' then Accept(member.rest[1..])
                  else Reject
  {
    hide ValidString, Escape, ValidMember;
    var w := Quoted(name, false) + ([':'] + t);
    assert w[1..] == Escape(name, false) + (['"'] + ([':'] + t));
    StringAccepted(name, [':'] + t);
    assert ([':'] + t)[1..] == t;
  }

  /** The first member and what follows it. */
  lemma MemberFront(members: seq<Node>, close: Bytes)
    requires members != []
    ensures var more := if |members| == 1 then close else [','] + (Join(members[1..], false, false) + close);
            Join(members, false, false) + close
            == Quoted(members[0].name, false) + ([':'] + (Text(members[0].value, false) + more))
  {
    hide Join, Quoted, Text;
    var q, t := Quoted(members[0].name, false), Text(members[0].value, false);
    var j := if |members| == 1 then [] else [','] + Join(members[1..], false, false);
    MemberFirst(members);
    ColonRegrouped(q, t, j, close);
    if |members| > 1 { CommaFirst(Join(members[1..], false, false), close); }
  }

  lemma MemberFirst(members: seq<Node>)
    requires members != []
    ensures Join(members, false, false)
            == Quoted(members[0].name, false) + [':'] + Text(members[0].value, false)
               + (if |members| == 1 then [] else [','] + Join(members[1..], false, false))
  {
    hide Quoted, Text;
  }

  lemma CommaFirst(j: Bytes, close: Bytes)
    ensures [','] + j + close == [','] + (j + close)
  {
  }

  lemma ColonRegrouped(q: Bytes, t: Bytes, more: Bytes, close: Bytes)
    ensures q + [':'] + t + more + close == q + ([':'] + (t + (more + close)))
    ensures [] + close == close
  {
  }

  lemma {:induction false} NamedVerdict(members: seq<Node>, depth: nat, rest: Bytes)
    requires members != [] && (forall n :: n in members ==> GoodNumbers(n.value)) && depth <= MAX_NEST_LEVEL
    ensures var w := Join(members, false, false) + (['}'] + rest);
            && w[0] == '"'
            && ValidNamedObject(w, depth) == Expect(depth + DepthOfAll(members), rest)
    decreases members, 0
  {
    hide ValidMember, ValidNamedObject, GoodNumbers, Text, Depth, DepthOfAll, Quoted, Join;
    assert forall n :: n in members[1..] ==> n in members;
    var m, rest1 := members[0], members[1..];
    var close := ['}'] + rest;
    var after := if |members| == 1 then close else [','] + (Join(rest1, false, false) + close);
    MemberFront(members, close);
    NameStep(m.name, Text(m.value, false) + after, depth);
    MemberVerdict(m.value, depth, after);
    DepthOfFirst(members);
    if |members| == 1 {
      assert after[1..] == rest;
    } else {
      assert after[1..] == Join(rest1, false, false) + close;
      NamedVerdict(rest1, depth, rest);
    }
  }

  lemma DepthOfFirst(ns: seq<Node>)
    requires ns != []
    ensures var first, others := Depth(ns[0].value), DepthOfAll(ns[1..]);
            DepthOfAll(ns) == (if first < others then others else first) && (|ns| == 1 ==> others == 0)
  {
    hide Depth;
  }

  lemma {:induction false} ObjectVerdict(members: seq<Node>, depth: nat, rest: Bytes)
    requires (forall n :: n in members ==> GoodNumbers(n.value)) && depth <= MAX_NEST_LEVEL
    ensures ValidObject(Join(members, false, false) + (['}'] + rest), depth) == Expect(depth + DepthOfAll(members), rest)
    decreases members, 1
  {
    hide ValidNamedObject;
    var close := ['}'] + rest;
    assert close[1..] == rest;
    if members == [] {
      assert Join(members, false, false) + close == close;
    } else {
      NamedVerdict(members, depth, rest);
    }
  }

  /** A container without its opening bracket. */
  lemma BehindBracket(v: Value)
    requires IsContainer(v) && GoodNumbers(v)
    ensures var t := Text(v, false);
            && t != []
            && (v.Arr? ==> t[0] == '[' && t[1..] == Join(v.items, true, false) + ([']'] + []))
            && (v.Obj? ==> t[0] == '{' && t[1..] == Join(v.members, false, false) + (['}'] + []))
    ensures v.Arr? ==> forall n :: n in v.items ==> GoodNumbers(n.value)
    ensures v.Obj? ==> forall n :: n in v.members ==> GoodNumbers(n.value)
  {
    hide Join;
  }

  /** The validator accepts the compact print of a container exactly when it is nested no deeper than 128. */
  lemma ValidExactly(n: Node)
    requires IsContainer(n.value) && GoodNumbers(n.value)
    ensures ValidRoot(Compact(n)) == Some(Depth(n.value) <= 128)
  {
    hide ValidArray, ValidObject, Join, CString, DepthOfAll, GoodNumbers, Text;
    var t := Text(n.value, false);
    assert Compact(n) == t;
    PrintHasNoNul(n.value);
    CStringOfText(t);
    BehindBracket(n.value);
    match n.value {
      case Arr(items) => ArrayVerdict(items, 1, []);
      case Obj(members) => ObjectVerdict(members, 1, []);
    }
  }

  lemma {:induction false} EscapeHasNoNul(s: Bytes)
    ensures NUL !in Escape(s, false)
  {
    if s != [] { EscapeHasNoNul(s[1..]); }
  }

  lemma {:induction false} PrintHasNoNul(v: Value)
    requires GoodNumbers(v)
    ensures NUL !in Text(v, false)
    decreases v, 1
  {
    match v
    case Str(s) => EscapeHasNoNul(s);
    case Num(text) =>
    case Bool(b) => PlainHasNoNul(Text(v, false));
    case Null => PlainHasNoNul(NULL);
    case Arr(items) => PrintsHaveNoNul(items, true);
    case Obj(members) => PrintsHaveNoNul(members, false);
  }

  lemma {:induction false} PrintsHaveNoNul(ns: seq<Node>, inArray: bool)
    requires forall n :: n in ns ==> GoodNumbers(n.value)
    ensures NUL !in Join(ns, inArray, false)
    decreases ns, 0
  {
    if ns != [] {
      PrintHasNoNul(ns[0].value);
      EscapeHasNoNul(ns[0].name);
      PrintsHaveNoNul(ns[1..], inArray);
    }
  }

  // ---- The routines, on a pointer into the C string

  /** What a routine answers and where it leaves its pointer; no answer if it reads past the end. */
  predicate Reports(json: Bytes, answer: Option<bool>, ptr: nat, v: Verdict) {
    match v
    case Accept(rest) => answer == Some(true) && ptr <= |json| && json[ptr..] == rest
    case Reject => answer == Some(false)
    case PastEnd => answer == None
  }

  lemma Advance(json: Bytes, p: nat)
    requires p < |json|
    ensures json[p..] != [] && json[p..][0] == json[p]
    ensures json[p..][1..] == json[p + 1..]
    ensures p + 1 < |json| ==> json[p..][2..] == json[p + 2..] && json[p..][1] == json[p + 1]
    ensures p + 2 < |json| ==> json[p..][2..][1..] == json[p + 3..]
  {
  }

  method IsValidNumber(json: Bytes, start: nat) returns (ok: bool, ptr: nat)
    requires NUL !in json && start <= |json|
    ensures Reports(json, Some(ok), ptr, ValidNumber(json[start..]))
  {
    hide NumberRest, SkipHex;
    var decimal, scientific := false, false;
    ptr := start;
    var c := ByteAt(json, ptr);
    if c == NUL {
      assert json[start..] == [];
      return false, ptr;
    }
    Advance(json, start);
    if c == '.' {
      decimal := true;
    } else if c == '+' || c == '-' || '1' <= c <= '9' {
    } else if c == '0' {
      ptr := ptr + 1;
      c := ByteAt(json, ptr);
      if c == NUL {
        assert json[ptr..] == [];
        return true, ptr;
      }
      Advance(json, ptr);
      if c == '.' {
        decimal := true;
      } else if c == 'e' || c == 'E' {
        scientific := true;
        ptr := ptr + 1;
        c := ByteAt(json, ptr);
        if c == NUL || !(c == '-' || c == '+' || IsDigit(c)) {
          assert ptr < |json| ==> json[ptr..][0] == c;
          return false, ptr;
        }
        Advance(json, ptr);
      } else if c == 'x' {
        ptr := SkipHexDigits(json, ptr + 1);
        return true, ptr;
      } else if !IsDigit(c) {
        return true, ptr;
      }
    } else {
      return false, ptr;
    }
    ptr := ptr + 1;
    assert ValidNumber(json[start..]) == NumberRest(json[ptr..], decimal, scientific);
    ok, ptr := NextDigits(json, ptr, decimal, scientific);
  }

  method SkipHexDigits(json: Bytes, start: nat) returns (ptr: nat)
    requires start <= |json|
    ensures ptr <= |json| && json[ptr..] == SkipHex(json[start..])
  {
    ptr := start;
    while IsHex(ByteAt(json, ptr))
      invariant ptr <= |json| && SkipHex(json[start..]) == SkipHex(json[ptr..])
      decreases |json| - ptr
    {
      Advance(json, ptr);
      ptr := ptr + 1;
    }
    if ptr < |json| { Advance(json, ptr); }
  }

  /** What the loop of isValidNumber looks at next. */
  lemma DigitsAt(json: Bytes, p: nat, decimal: bool, scientific: bool)
    requires NUL !in json && p <= |json|
    ensures var c, v := ByteAt(json, p), NumberRest(json[p..], decimal, scientific);
            if c == NUL then v == Accept([]) && p == |json|
            else if c == '.' then
              v == if decimal || scientific then Reject else NumberRest(json[p + 1..], true, scientific)
            else if c == 'e' || c == 'E' then
              var d := ByteAt(json, p + 1);
              if scientific || !(d == '-' || d == '+' || IsDigit(d)) then v == Reject
              else p + 2 <= |json| && v == NumberRest(json[p + 2..], decimal, true)
            else v == if IsDigit(c) then NumberRest(json[p + 1..], decimal, scientific) else Accept(json[p..])
  {
    if p < |json| { Advance(json, p); }
  }

  /** The loop of isValidNumber. */
  method NextDigits(json: Bytes, start: nat, decimal0: bool, scientific0: bool) returns (ok: bool, ptr: nat)
    requires NUL !in json && start <= |json|
    ensures Reports(json, Some(ok), ptr, NumberRest(json[start..], decimal0, scientific0))
  {
    hide NumberRest;
    var decimal, scientific := decimal0, scientific0;
    ptr := start;
    while true
      invariant ptr <= |json|
      invariant NumberRest(json[start..], decimal0, scientific0) == NumberRest(json[ptr..], decimal, scientific)
      decreases |json| - ptr
    {
      var c := ByteAt(json, ptr);
      DigitsAt(json, ptr, decimal, scientific);
      if c == NUL {
        return true, ptr;
      }
      if c == '.' {
        if decimal || scientific {
          return false, ptr;
        }
        decimal := true;
      } else if c == 'e' || c == 'E' {
        if scientific {
          return false, ptr;
        }
        scientific := true;
        ptr := ptr + 1;
        c := ByteAt(json, ptr);
        if !(c == '-' || c == '+' || IsDigit(c)) {
          return false, ptr;
        }
      } else if !IsDigit(c) {
        return true, ptr;
      }
      ptr := ptr + 1;
    }
  }

  /** ptr is behind the opening quote, and ends up behind the closing one. */
  method IsValidString(json: Bytes, start: nat) returns (ok: bool, ptr: nat)
    requires NUL !in json && start <= |json|
    ensures Reports(json, Some(ok), ptr, ValidString(json[start..]))
  {
    hide ValidString;
    ptr := start;
    while true
      invariant ptr <= |json|
      invariant ValidString(json[start..]) == ValidString(json[ptr..])
      decreases |json| - ptr
    {
      StringAt(json, ptr);
      var c := ByteAt(json, ptr);
      if c == NUL {
        return false, ptr;
      } else if c == '"' {
        return true, ptr + 1;
      } else if c == '\\' {
        ptr := ptr + 1;
        c := ByteAt(json, ptr);
        if c == 'u' {
          if !IsHex(ByteAt(json, ptr + 1)) { return false, ptr + 1; }
          if !IsHex(ByteAt(json, ptr + 2)) { return false, ptr + 2; }
          ptr := ptr + 2;
        } else if c != 'x' && !SimpleEscape(c) {
          return false, ptr;
        }
        if c == 'u' || c == 'x' {
          if !IsHex(ByteAt(json, ptr + 1)) { return false, ptr + 1; }
          if !IsHex(ByteAt(json, ptr + 2)) { return false, ptr + 2; }
          ptr := ptr + 2;
        }
      }
      ptr := ptr + 1;
    }
  }

  /** One round of isValidString. */
  lemma StringAt(json: Bytes, p: nat)
    requires NUL !in json && p <= |json|
    ensures var v := ValidString(json[p..]);
            if p == |json| then v == Reject
            else if json[p] == '"' then v == Accept(json[p + 1..])
            else if json[p] != '\\' then v == ValidString(json[p + 1..])
            else
              var c := ByteAt(json, p + 1);
              if SimpleEscape(c) then v == ValidString(json[p + 2..])
              else if c == 'u' then
                if IsHex(ByteAt(json, p + 2)) && IsHex(ByteAt(json, p + 3)) && IsHex(ByteAt(json, p + 4)) && IsHex(ByteAt(json, p + 5))
                then v == ValidString(json[p + 6..]) else v == Reject
              else if c == 'x' then
                if IsHex(ByteAt(json, p + 2)) && IsHex(ByteAt(json, p + 3)) then v == ValidString(json[p + 4..]) else v == Reject
              else v == Reject
  {
    var t := json[p..];
    if p + 1 < |json| && json[p] == '\\' {
      Advance(json, p);
      HexRunAt(json, p + 2, 2);
      HexRunAt(json, p + 2, 4);
      assert |t| >= 6 ==> t[6..] == json[p + 6..];
      assert |t| >= 4 ==> t[4..] == json[p + 4..];
    }
  }

  lemma HexRunAt(json: Bytes, p: nat, k: nat)
    requires p <= |json| && (k == 2 || k == 4)
    ensures HexRun(json[p..], k) ==> p + k <= |json|
    ensures k == 2 ==> (HexRun(json[p..], k) <==> IsHex(ByteAt(json, p)) && IsHex(ByteAt(json, p + 1)))
    ensures k == 4 ==> (HexRun(json[p..], k) <==> IsHex(ByteAt(json, p)) && IsHex(ByteAt(json, p + 1))
                                                  && IsHex(ByteAt(json, p + 2)) && IsHex(ByteAt(json, p + 3)))
  {
    var t := json[p..];
    assert forall i :: 0 <= i < |t| ==> t[i] == ByteAt(json, p + i);
  }

  method CheckLetters(json: Bytes, start: nat, lower: Bytes, upper: Bytes) returns (ok: bool, ptr: nat)
    requires NUL !in json && start <= |json| && |lower| == |upper|
    requires (lower == TRUE && upper == UPPER_TRUE) || (lower == FALSE && upper == UPPER_FALSE) || (lower == NULL && upper == UPPER_NULL)
    ensures Reports(json, Some(ok), ptr, ValidLetters(json[start..], lower, upper))
  {
    ptr := start;
    for i := 0 to |lower|
      invariant ptr == start + i <= |json|
      invariant forall k :: 0 <= k < i ==> json[start + k] == lower[k] || json[start + k] == upper[k]
    {
      var c := ByteAt(json, ptr);
      if c != lower[i] && c != upper[i] {
        assert ptr < |json| ==> json[start..][i] == c;
        return false, ptr;
      }
      ptr := ptr + 1;
    }
    ok := true;
    assert json[start..][|lower|..] == json[ptr..];
  }

  method IsValidMember(json: Bytes, start: nat, depth: nat) returns (answer: Option<bool>, ptr: nat)
    requires NUL !in json && start <= |json|
    ensures Reports(json, answer, ptr, ValidMember(json[start..], depth))
    decreases |json| - start, 0
  {
    hide ValidString, ValidNumber, ValidArray, ValidObject, ValidLetters;
    ptr := start;
    var c := ByteAt(json, ptr);
    if c == NUL {
      return Some(false), ptr;
    }
    Advance(json, ptr);
    var ok: bool;
    if c == '"' {
      ok, ptr := IsValidString(json, ptr + 1);
    } else if c == '{' {
      if depth + 1 > MAX_NEST_LEVEL {
        return Some(false), ptr;
      }
      answer, ptr := IsValidObject(json, ptr + 1, depth + 1);
      return;
    } else if c == '[' {
      if depth + 1 > MAX_NEST_LEVEL {
        return Some(false), ptr;
      }
      answer, ptr := IsValidArray(json, ptr + 1, depth + 1);
      return;
    } else if c == 't' || c == 'T' {
      ok, ptr := CheckLetters(json, ptr, TRUE, UPPER_TRUE);
    } else if c == 'f' || c == 'F' {
      ok, ptr := CheckLetters(json, ptr, FALSE, UPPER_FALSE);
    } else if c == 'n' || c == 'N' {
      ok, ptr := CheckLetters(json, ptr, NULL, UPPER_NULL);
    } else if c == '}' || c == ']' || c == ',' {
      ok := true;
    } else {
      ok, ptr := IsValidNumber(json, ptr);
    }
    answer := Some(ok);
  }

  method IsValidNamedObject(json: Bytes, start: nat, depth: nat) returns (answer: Option<bool>, ptr: nat)
    requires NUL !in json && start <= |json|
    ensures Reports(json, answer, ptr, ValidNamedObject(json[start..], depth))
    decreases |json| - start, 1
  {
    hide ValidString, ValidMember;
    ptr := start;
    if ptr == |json| {
      return None, ptr;
    }
    Advance(json, ptr);
    var ok: bool;
    ok, ptr := IsValidString(json, ptr + 1);
    if !ok {
      return Some(false), ptr;
    }
    if ByteAt(json, ptr) != ':' {
      return Some(false), ptr;
    }
    Advance(json, ptr);
    ghost var colon := ptr;
    answer, ptr := IsValidMember(json, ptr + 1, depth);
    if answer != Some(true) {
      return;
    }
    if ByteAt(json, ptr) == ',' {
      Advance(json, ptr);
      answer, ptr := IsValidNamedObject(json, ptr + 1, depth);
    } else if ByteAt(json, ptr) == '}' {
      Advance(json, ptr);
      ptr := ptr + 1;
    } else {
      answer := Some(false);
    }
  }

  method IsValidObject(json: Bytes, start: nat, depth: nat) returns (answer: Option<bool>, ptr: nat)
    requires NUL !in json && start <= |json|
    ensures Reports(json, answer, ptr, ValidObject(json[start..], depth))
    decreases |json| - start, 2
  {
    hide ValidNamedObject;
    ptr := start;
    if ptr < |json| { Advance(json, ptr); }
    if ByteAt(json, ptr) == '"' {
      answer, ptr := IsValidNamedObject(json, ptr, depth);
    } else if ByteAt(json, ptr) == '}' {
      answer, ptr := Some(true), ptr + 1;
    } else {
      answer := Some(false);
    }
  }

  method IsValidArray(json: Bytes, start: nat, depth: nat) returns (answer: Option<bool>, ptr: nat)
    requires NUL !in json && start <= |json|
    ensures Reports(json, answer, ptr, ValidArray(json[start..], depth))
    decreases |json| - start, 1
  {
    hide ValidMember, ValidArray;
    ptr := start;
    while true
      invariant start <= ptr <= |json|
      invariant ValidArray(json[start..], depth) == ValidArray(json[ptr..], depth)
      decreases |json| - ptr
    {
      ArrayAt(json, ptr, depth);
      if ByteAt(json, ptr) == ']' {
        return Some(true), ptr + 1;
      }
      answer, ptr := IsValidMember(json, ptr, depth);
      if answer != Some(true) {
        return;
      }
      if ptr < |json| { Advance(json, ptr); }
      if ByteAt(json, ptr) == ']' {
        return Some(true), ptr + 1;
      }
      if ByteAt(json, ptr) != ',' {
        return Some(false), ptr;
      }
      ptr := ptr + 1;
      if ByteAt(json, ptr) == NUL {
        return Some(false), ptr;
      }
    }
  }

  /** One round of isValidArray. */
  lemma ArrayAt(json: Bytes, p: nat, depth: nat)
    requires NUL !in json && p <= |json|
    ensures var t, v := json[p..], ValidArray(json[p..], depth);
            if ByteAt(json, p) == ']' then v == Accept(json[p + 1..])
            else
              var m := ValidMember(t, depth);
              if !m.Accept? then v == m
              else |m.rest| <= |t|
                   && if m.rest == [] then v == Reject
                      else if m.rest[0] == ',' then (if |m.rest| == 1 then v == Reject else v == ValidArray(m.rest[1..], depth))
                      else if m.rest[0] == ']' then v == Accept(m.rest[1..])
                      else v == Reject
  {
    hide ValidString, ValidNumber, ValidObject, ValidLetters;
    if p < |json| { Advance(json, p); }
  }

  method IsValidRoot(json: Bytes) returns (answer: Option<bool>)
    ensures answer == ValidRoot(json)
  {
    hide ValidObject, ValidArray;
    var t := CString(json);
    CStringHasNoNul(json);
    var c := ByteAt(t, 0);
    if c != '{' && c != '[' {
      return Some(false);
    }
    var ptr: nat;
    if c == '{' {
      answer, ptr := IsValidObject(t, 1, 1);
    } else {
      answer, ptr := IsValidArray(t, 1, 1);
    }
    if answer == Some(true) {
      answer := Some(ByteAt(t, ptr) == NUL);
    }
  }

  lemma {:induction false} CStringHasNoNul(t: Bytes)
    ensures NUL !in CString(t)
  {
    if t != [] && t[0] != NUL { CStringHasNoNul(t[1..]); }
  }
}
