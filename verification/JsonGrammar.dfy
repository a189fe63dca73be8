/** The texts the validator accepts, given as a grammar. */
module JsonGrammar {
  import opened Options
  import opened JsonEscape
  import opened JsonNumber
  import opened JsonTree
  import opened JsonParse
  import opened JsonValidate

  /** A document as the validator reads it. A value may be missing, and lead is the byte in the place of the
      quote that opens a name. */
  datatype Doc = Missing | Leaf(text: Bytes) | List(items: seq<Doc>) | Table(members: seq<Member>)
  datatype Member = Member(lead: Octet, name: Bytes, value: Doc)

  function Text(d: Doc): Bytes
    decreases d, 1
  {
    match d
    case Missing => []
    case Leaf(text) => text
    case List(items) => ['['] + ItemsText(items)
    case Table(members) => ['{'] + MembersText(members)
  }

  /** Items with commas between them, and the closing bracket. */
  function ItemsText(items: seq<Doc>): Bytes
    decreases items, 0
  {
    if items == [] then [']']
    else Text(items[0]) + if |items| == 1 then [']'] else [','] + ItemsText(items[1..])
  }

  function MembersText(members: seq<Member>): Bytes
    decreases members, 0
  {
    if members == [] then ['}']
    else
      [members[0].lead] + members[0].name + ['"', ':'] + Text(members[0].value)
      + if |members| == 1 then ['}'] else [','] + MembersText(members[1..])
  }

  // ---- Strings, literals, numbers

  predicate HexDigits(t: Bytes) {
    forall i :: 0 <= i < |t| ==> t[i] in "0123456789abcdefABCDEF"
  }

  /** One character of a string: itself, or an escape of two, six or four bytes. */
  predicate Character(p: Bytes) {
    || (|p| == 1 && p[0] != '"' && p[0] != '\\')
    || (|p| == 2 && p[0] == '\\' && p[1] in "\"\\/bfnrt")
    || (|p| == 6 && p[..2] == "\\u" && HexDigits(p[2..]))
    || (|p| == 4 && p[..2] == "\\x" && HexDigits(p[2..]))
  }

  function Concat(parts: seq<Bytes>): Bytes {
    if parts == [] then [] else parts[0] + Concat(parts[1..])
  }

  predicate Characters(parts: seq<Bytes>) {
    forall i :: 0 <= i < |parts| ==> Character(parts[i])
  }

  ghost predicate StringBody(t: Bytes) {
    exists parts :: Characters(parts) && t == Concat(parts)
  }

  ghost predicate StringText(t: Bytes) {
    exists body :: StringBody(body) && t == ['"'] + body + ['"']
  }

  /** The same letters in either case. */
  predicate SameLetters(t: Bytes, lower: string) {
    |t| == |lower| && forall i :: 0 <= i < |lower| ==> t[i] == lower[i] || t[i] as int + 32 == lower[i] as int
  }

  predicate LiteralText(t: Bytes) {
    SameLetters(t, "true") || SameLetters(t, "false") || SameLetters(t, "null")
  }

  /** Nothing, or an e of either case, a sign or a digit, and any number of digits. */
  predicate LoosePower(t: Bytes) {
    t == [] || ((t[0] == 'e' || t[0] == 'E') && |t| > 1 && (t[1] == '+' || t[1] == '-' || '0' <= t[1] <= '9') && AllDigits(t[2..]))
  }

  predicate LooseParts(t: Bytes, whole: Bytes, fraction: Bytes, power: Bytes) {
    t == whole + fraction + power && AllDigits(whole) && Fraction(fraction) && LoosePower(power)
  }

  ghost predicate Loose(t: Bytes) {
    exists whole, fraction, power :: LooseParts(t, whole, fraction, power)
  }

  ghost predicate LooseFraction(t: Bytes) {
    exists whole, power :: LooseParts(t, whole, [], power)
  }

  /** The numbers of the validator: a lone sign and a lone point are among them. */
  ghost predicate LooseNumber(t: Bytes) {
    && t != []
    && if t[0] in "+-123456789" then Loose(t[1..])
       else if t[0] == '.' then LooseFraction(t[1..])
       else t[0] == '0' && (|t| == 1 || LooseZero(t[1..]))
  }

  ghost predicate LooseZero(u: Bytes)
    requires u != []
  {
    if u[0] == '.' then LooseFraction(u[1..])
    else if u[0] == 'e' || u[0] == 'E' then LoosePower(u)
    else if u[0] == 'x' then HexDigits(u[1..])
    else '0' <= u[0] <= '9' && Loose(u[1..])
  }

  ghost predicate Scalar(t: Bytes) {
    StringText(t) || LiteralText(t) || LooseNumber(t)
  }

  /** At most 128 containers one inside the other, and only the first name of each object needs its opening
      quote. */
  ghost predicate WellFormed(d: Doc, depth: nat) {
    match d
    case Missing => true
    case Leaf(text) => Scalar(text)
    case List(items) => depth < 128 && forall i :: 0 <= i < |items| ==> WellFormed(items[i], depth + 1)
    case Table(members) =>
      && depth < 128 && (members != [] ==> members[0].lead == '"')
      && forall i :: 0 <= i < |members| ==> StringBody(members[i].name) && WellFormed(members[i].value, depth + 1)
  }

  // ---- Strings

  lemma ConcatOne(p: Bytes, parts: seq<Bytes>)
    ensures Concat([p] + parts) == p + Concat(parts)
  {
    assert ([p] + parts)[1..] == parts;
  }

  lemma IsHexExactly(c: Octet)
    ensures IsHex(c) <==> c in "0123456789abcdefABCDEF"
  {
    HexDigitIs(c);
  }

  /** How many bytes the character at the front takes. */
  function Width(t: Bytes): nat
    requires |t| > 1 && t[0] == '\\'
  {
    if t[1] == 'u' then 6 else if t[1] == 'x' then 4 else 2
  }

  lemma EscapeRead(t: Bytes)
    requires |t| > 1 && t[0] == '\\' && ValidString(t).Accept?
    ensures |t| >= Width(t) && Character(t[..Width(t)]) && ValidString(t[Width(t)..]) == ValidString(t)
  {
    hide Character, HexRun, HexDigits;
    if Width(t) > 2 {
      assert HexRun(t[2..], Width(t) - 2);
      HexEscape(t, Width(t));
    } else {
      ShortEscape(t);
    }
  }

  lemma ShortEscape(t: Bytes)
    requires |t| > 1 && t[0] == '\\' && SimpleEscape(t[1])
    ensures Character(t[..2])
  {
  }

  lemma HexEscape(t: Bytes, k: nat)
    requires |t| > 1 && t[0] == '\\' && k == Width(t) > 2 && HexRun(t[2..], k - 2)
    ensures |t| >= k && Character(t[..k])
  {
    var p := t[..k];
    assert p[..2] == [t[0], t[1]];
    forall i | 0 <= i < |p[2..]| ensures p[2..][i] in "0123456789abcdefABCDEF" {
      IsHexExactly(t[2..][i]);
      assert p[2..][i] == t[2..][i];
    }
  }

  lemma {:induction false} StringParts(t: Bytes) returns (parts: seq<Bytes>)
    requires ValidString(t).Accept?
    ensures Characters(parts) && t == Concat(parts) + ['"'] + ValidString(t).rest
    decreases |t|
  {
    hide Character, Concat;
    if t[0] == '"' {
      parts := [];
      NoParts(t);
    } else {
      var k := if t[0] == '\\' then Width(t) else 1;
      if t[0] == '\\' { EscapeRead(t); } else { PlainCharacter(t); }
      parts := StringParts(t[k..]);
      PutInFront(t, k, parts, ValidString(t).rest);
      parts := [t[..k]] + parts;
    }
  }

  lemma NoParts(t: Bytes)
    requires t != [] && t[0] == '"'
    ensures t == Concat([]) + ['"'] + t[1..]
  {
  }

  lemma PutInFront(t: Bytes, k: nat, parts: seq<Bytes>, rest: Bytes)
    requires k <= |t| && t[k..] == Concat(parts) + ['"'] + rest
    ensures t == Concat([t[..k]] + parts) + ['"'] + rest
  {
    ConcatOne(t[..k], parts);
    assert t == t[..k] + t[k..];
  }

  lemma PlainCharacter(t: Bytes)
    requires t != [] && t[0] != '"' && t[0] != '\\'
    ensures Character(t[..1])
  {
  }

  lemma CharacterAccepted(p: Bytes, t: Bytes)
    requires Character(p)
    ensures ValidString(p + t) == ValidString(t)
  {
    var w := p + t;
    assert w[|p|..] == t && w[0] == p[0];
    if |p| == 2 {
      assert w[1] == p[1];
    } else if |p| > 2 {
      assert w[1] == p[1] == p[..2][1];
      forall i | 0 <= i < |p| - 2 ensures IsHex(w[2..][i]) {
        assert w[2..][i] == p[2..][i];
        IsHexExactly(p[2..][i]);
      }
    }
  }

  lemma {:induction false} BodyAccepted(parts: seq<Bytes>, t: Bytes)
    requires Characters(parts)
    ensures ValidString(Concat(parts) + ['"'] + t) == Accept(t)
    decreases parts
  {
    hide Character;
    if parts == [] {
      assert Concat(parts) + ['"'] + t == ['"'] + t;
    } else {
      hide ValidString;
      CharacterAccepted(parts[0], Concat(parts[1..]) + ['"'] + t);
      BodyAccepted(parts[1..], t);
      assert Concat(parts) + ['"'] + t == parts[0] + (Concat(parts[1..]) + ['"'] + t);
    }
  }

  /** A string is accepted exactly if it consists of characters and ends at an unescaped quote. */
  lemma StringExactly(t: Bytes, rest: Bytes)
    ensures ValidString(t) == Accept(rest) <==> exists body: Bytes :: StringBody(body) && t == body + ['"'] + rest
  {
    if ValidString(t) == Accept(rest) {
      var parts := StringParts(t);
      assert StringBody(Concat(parts));
    }
    if body: Bytes :| StringBody(body) && t == body + ['"'] + rest {
      var parts :| Characters(parts) && body == Concat(parts);
      BodyAccepted(parts, rest);
    }
  }

  // ---- Numbers

  lemma NothingRead(t: Bytes)
    ensures LooseParts([], [], [], []) && t == [] + t
  {
  }

  lemma PointRead(c: Octet, u: Bytes, whole: Bytes, power: Bytes)
    requires c == '.' && LooseParts(u, whole, [], power)
    ensures LooseParts([c] + u, [], [c] + whole, power)
  {
    assert ([c] + whole)[1..] == whole;
  }

  lemma PowerRead(c: Octet, d: Octet, u: Bytes, whole: Bytes)
    requires (c == 'e' || c == 'E') && (d == '+' || d == '-' || '0' <= d <= '9') && LooseParts(u, whole, [], [])
    ensures LooseParts([c, d] + u, [], [], [c, d] + u) && LoosePower([c, d] + u)
  {
    assert whole == u && ([c, d] + u)[2..] == u;
  }

  lemma DigitRead(c: Octet, u: Bytes, whole: Bytes, fraction: Bytes, power: Bytes)
    requires '0' <= c <= '9' && LooseParts(u, whole, fraction, power)
    ensures LooseParts([c] + u, [c] + whole, fraction, power)
  {
    assert [c] + u == [c] + whole + fraction + power;
  }

  lemma {:induction false} RestRead(t: Bytes, decimal: bool, scientific: bool)
      returns (u: Bytes, whole: Bytes, fraction: Bytes, power: Bytes)
    requires NumberRest(t, decimal, scientific).Accept?
    ensures LooseParts(u, whole, fraction, power) && t == u + NumberRest(t, decimal, scientific).rest
    ensures (decimal || scientific ==> fraction == []) && (scientific ==> power == [])
    decreases |t|
  {
    hide LooseParts;
    var rest := NumberRest(t, decimal, scientific).rest;
    if t != [] && t[0] == '.' {
      u, whole, fraction, power := RestRead(t[1..], true, scientific);
      PointRead(t[0], u, whole, power);
      OneInFront(t, u, rest);
      u, whole, fraction := [t[0]] + u, [], [t[0]] + whole;
    } else if t != [] && (t[0] == 'e' || t[0] == 'E') {
      u, whole, fraction, power := RestRead(t[2..], decimal, true);
      PowerRead(t[0], t[1], u, whole);
      TwoInFront(t, u, rest);
      u := [t[0], t[1]] + u;
      whole, fraction, power := [], [], u;
    } else if t != [] && IsDigit(t[0]) {
      u, whole, fraction, power := RestRead(t[1..], decimal, scientific);
      DigitRead(t[0], u, whole, fraction, power);
      OneInFront(t, u, rest);
      u, whole := [t[0]] + u, [t[0]] + whole;
    } else {
      u, whole, fraction, power := [], [], [], [];
      NothingRead(t);
    }
  }

  lemma OneInFront(t: Bytes, u: Bytes, rest: Bytes)
    requires t != [] && t[1..] == u + rest
    ensures t == [t[0]] + u + rest
  {
  }

  lemma TwoInFront(t: Bytes, u: Bytes, rest: Bytes)
    requires |t| > 1 && t[2..] == u + rest
    ensures t == [t[0], t[1]] + u + rest
  {
  }

  lemma {:induction false} RestAccepted(u: Bytes, whole: Bytes, fraction: Bytes, power: Bytes,
                                        decimal: bool, scientific: bool, rest: Bytes)
    requires LooseParts(u, whole, fraction, power) && Delimited(rest)
    requires (decimal || scientific ==> fraction == []) && (scientific ==> power == [])
    ensures NumberRest(u + rest, decimal, scientific) == Accept(rest)
    decreases |u|
  {
    hide LooseParts;
    var t := u + rest;
    if u == [] {
      assert t == rest;
    } else {
      assert t[0] == u[0] && t[1..] == u[1..] + rest;
      FrontOfParts(u, whole, fraction, power);
      if whole != [] {
        RestAccepted(u[1..], whole[1..], fraction, power, decimal, scientific, rest);
      } else if fraction != [] {
        RestAccepted(u[1..], fraction[1..], [], power, true, scientific, rest);
      } else {
        assert t[1] == u[1] && t[2..] == u[2..] + rest;
        RestAccepted(u[2..], u[2..], [], [], decimal, true, rest);
      }
    }
  }

  /** The first byte of a part is the byte in front, and what is left has the other parts. */
  lemma FrontOfParts(u: Bytes, whole: Bytes, fraction: Bytes, power: Bytes)
    requires LooseParts(u, whole, fraction, power) && u != []
    ensures whole != [] ==> '0' <= u[0] <= '9' && LooseParts(u[1..], whole[1..], fraction, power)
    ensures whole == [] && fraction != [] ==> u[0] == '.' && LooseParts(u[1..], fraction[1..], [], power)
    ensures whole == fraction == [] ==>
      && u == power && |u| > 1 && (u[0] == 'e' || u[0] == 'E')
      && (u[1] == '+' || u[1] == '-' || '0' <= u[1] <= '9') && LooseParts(u[2..], u[2..], [], [])
  {
    if whole != [] {
      assert u[1..] == whole[1..] + fraction + power;
    } else if fraction != [] {
      assert u[1..] == fraction[1..] + [] + power;
    } else {
      assert u == power;
      JustDigits(u[2..]);
    }
  }

  lemma {:induction false} HexRead(t: Bytes) returns (u: Bytes)
    ensures HexDigits(u) && t == u + SkipHex(t)
  {
    u := [];
    if t != [] && IsHex(t[0]) {
      IsHexExactly(t[0]);
      u := HexRead(t[1..]);
      OneInFront(t, u, SkipHex(t));
      u := [t[0]] + u;
    }
  }

  lemma HexAccepted(u: Bytes, rest: Bytes)
    requires HexDigits(u) && Delimited(rest)
    ensures SkipHex(u + rest) == rest
  {
    forall c: Octet ensures IsHex(c) <==> c in "0123456789abcdefABCDEF" { IsHexExactly(c); }
    HexSkipped(u, rest);
  }

  lemma FrontIs(t: Bytes, k: nat, u: Bytes, rest: Bytes) returns (w: Bytes)
    requires k <= |t| && t[k..] == u + rest
    ensures w == t[..k] + u && t == w + rest && w[k..] == u
  {
    w := t[..k] + u;
    assert t == t[..k] + t[k..];
  }

  lemma NumberRead(t: Bytes) returns (w: Bytes)
    requires ValidNumber(t).Accept?
    ensures LooseNumber(w) && t == w + ValidNumber(t).rest
  {
    hide LooseParts, NumberRest, LooseZero;
    if t[0] == '0' {
      w := ZeroRead(t);
    } else {
      var u, a, b, c := RestRead(t[1..], t[0] == '.', false);
      w := FrontIs(t, 1, u, ValidNumber(t).rest);
      assert LooseParts(w[1..], a, b, c);
    }
  }

  lemma ZeroRead(t: Bytes) returns (w: Bytes)
    requires ValidNumber(t).Accept? && t[0] == '0'
    ensures LooseNumber(w) && t == w + ValidNumber(t).rest
  {
    hide LooseParts, NumberRest;
    var u := t[1..];
    if u != [] && (u[0] == '.' || IsDigit(u[0])) {
      var v, a, b, c := RestRead(u[1..], u[0] == '.', false);
      assert t[2..] == u[1..];
      w := FrontIs(t, 2, v, ValidNumber(t).rest);
      assert LooseParts(w[1..][1..], a, b, c) by { assert w[1..][1..] == w[2..]; }
    } else if u != [] && (u[0] == 'e' || u[0] == 'E') {
      var v, a, b, c := RestRead(u[2..], false, true);
      PowerRead(u[0], u[1], v, a);
      assert t[3..] == u[2..];
      w := FrontIs(t, 3, v, ValidNumber(t).rest);
      assert w[1..] == [u[0], u[1]] + v;
    } else if u != [] && u[0] == 'x' {
      var v := HexRead(u[1..]);
      assert t[2..] == u[1..];
      w := FrontIs(t, 2, v, ValidNumber(t).rest);
      assert w[1..][1..] == v;
    } else {
      w := t[..1];
    }
  }

  lemma LooseNumberAccepted(w: Bytes, rest: Bytes)
    requires LooseNumber(w) && Delimited(rest)
    ensures ValidNumber(w + rest) == Accept(rest)
  {
    hide LooseParts, NumberRest, LooseZero;
    var t := w + rest;
    assert t[0] == w[0] && t[1..] == w[1..] + rest;
    if w[0] == '.' {
      var a, c :| LooseParts(w[1..], a, [], c);
      RestAccepted(w[1..], a, [], c, true, false, rest);
    } else if w[0] == '0' {
      LooseZeroAccepted(w, rest);
    } else {
      var a, b, c :| LooseParts(w[1..], a, b, c);
      RestAccepted(w[1..], a, b, c, false, false, rest);
    }
  }

  lemma LooseZeroAccepted(w: Bytes, rest: Bytes)
    requires LooseNumber(w) && Delimited(rest) && w[0] == '0'
    ensures ValidNumber(w + rest) == Accept(rest)
  {
    hide LooseParts, NumberRest, SkipHex;
    var u := w[1..];
    var t := u + rest;
    assert (w + rest)[0] == '0' && (w + rest)[1..] == t;
    if u == [] {
      assert t == rest;
    } else {
      assert t[0] == u[0] && t[1..] == u[1..] + rest;
      if u[0] == '.' {
        var a, c :| LooseParts(u[1..], a, [], c);
        RestAccepted(u[1..], a, [], c, true, false, rest);
      } else if u[0] == 'e' || u[0] == 'E' {
        assert t[1..][0] == u[1] && t[2..] == u[2..] + rest;
        assert LooseParts(u[2..], u[2..], [], []) by { JustDigits(u[2..]); }
        RestAccepted(u[2..], u[2..], [], [], false, true, rest);
      } else if u[0] == 'x' {
        HexAccepted(u[1..], rest);
      } else {
        var a, b, c :| LooseParts(u[1..], a, b, c);
        RestAccepted(u[1..], a, b, c, false, false, rest);
      }
    }
  }

  lemma JustDigits(u: Bytes)
    requires AllDigits(u)
    ensures LooseParts(u, u, [], [])
  {
    assert u == u + [] + [];
  }

  // ---- Literals, and scalars at large

  lemma LettersExactly(t: Bytes, lower: Bytes, upper: Bytes)
    requires |upper| == |lower| && forall i :: 0 <= i < |lower| ==> upper[i] as int + 32 == lower[i] as int
    ensures Letters(t, lower, upper) <==> |t| >= |lower| && SameLetters(t[..|lower|], lower)
  {
    if |t| >= |lower| {
      forall i | 0 <= i < |lower| ensures t[i] == upper[i] <==> t[i] as int + 32 == lower[i] as int {
      }
    }
  }

  lemma LiteralsExactly(t: Bytes)
    ensures Letters(t, TRUE, UPPER_TRUE) <==> |t| >= 4 && SameLetters(t[..4], "true")
    ensures Letters(t, FALSE, UPPER_FALSE) <==> |t| >= 5 && SameLetters(t[..5], "false")
    ensures Letters(t, NULL, UPPER_NULL) <==> |t| >= 4 && SameLetters(t[..4], "null")
  {
    LettersExactly(t, TRUE, UPPER_TRUE);
    LettersExactly(t, FALSE, UPPER_FALSE);
    LettersExactly(t, NULL, UPPER_NULL);
  }

  /** A byte at which a value begins that is neither a container nor missing. */
  predicate ScalarStart(c: Octet) {
    c != '{' && c != '[' && c != '}' && c != ']' && c != ','
  }

  lemma ScalarRead(t: Bytes, depth: nat) returns (w: Bytes)
    requires t != [] && ScalarStart(t[0]) && ValidMember(t, depth).Accept?
    ensures Scalar(w) && t == w + ValidMember(t, depth).rest
  {
    hide ValidNumber, ValidString, LooseNumber, SameLetters, Letters, StringBody;
    var rest := ValidMember(t, depth).rest;
    LiteralsExactly(t);
    if t[0] == '"' {
      StringExactly(t[1..], rest);
      var body: Bytes :| StringBody(body) && t[1..] == body + ['"'] + rest;
      w := ['"'] + body + ['"'];
      assert t == [t[0]] + t[1..] == w + rest;
    } else if t[0] in "tTnN" {
      w := t[..4];
    } else if t[0] in "fF" {
      w := t[..5];
    } else {
      w := NumberRead(t);
    }
  }

  lemma ScalarAccepted(w: Bytes, depth: nat, rest: Bytes)
    requires Scalar(w) && Delimited(rest)
    ensures w != [] && w[0] != ']' && ValidMember(w + rest, depth) == Accept(rest)
  {
    hide StringBody, ValidString, SameLetters, Letters, LooseNumber, ValidNumber;
    var t := w + rest;
    if StringText(w) {
      var body: Bytes :| StringBody(body) && w == ['"'] + body + ['"'];
      assert t[0] == '"' && t[1..] == body + ['"'] + rest;
      StringExactly(t[1..], rest);
    } else if LiteralText(w) {
      LiteralAccepted(w, depth, rest);
    } else {
      NumberStart(w);
      LooseNumberAccepted(w, rest);
      assert t[0] == w[0];
    }
  }

  lemma NumberStart(w: Bytes)
    requires LooseNumber(w)
    ensures w != [] && (w[0] == '+' || w[0] == '-' || w[0] == '.' || '0' <= w[0] <= '9')
  {
  }

  lemma LiteralAccepted(w: Bytes, depth: nat, rest: Bytes)
    requires LiteralText(w)
    ensures w != [] && w[0] != ']' && ValidMember(w + rest, depth) == Accept(rest)
  {
    hide Letters;
    var t := w + rest;
    LiteralsExactly(t);
    assert t[0] == w[0] && t[..|w|] == w && t[|w|..] == rest;
    assert w[0] as int == (if SameLetters(w, "true") then 't' else if SameLetters(w, "false") then 'f' else 'n') as int
        || w[0] as int + 32 == (if SameLetters(w, "true") then 't' else if SameLetters(w, "false") then 'f' else 'n') as int;
  }

  // ---- What is accepted is a document

  lemma {:induction false} MemberDoc(t: Bytes, depth: nat) returns (d: Doc)
    requires ValidMember(t, depth).Accept?
    ensures WellFormed(d, depth) && t == Text(d) + ValidMember(t, depth).rest
    decreases |t|, 0
  {
    hide Scalar, ValidNumber, ValidString, Letters;
    if ScalarStart(t[0]) {
      var w := ScalarRead(t, depth);
      d := Leaf(w);
    } else if t[0] == '[' {
      var items := ItemDocs(t[1..], depth + 1);
      d := List(items);
      BracketInFront(t, d, ValidMember(t, depth).rest);
    } else if t[0] == '{' {
      var members := TableDocs(t[1..], depth + 1);
      d := Table(members);
      BracketInFront(t, d, ValidMember(t, depth).rest);
    } else {
      d := Missing;
      assert t == [] + t;
    }
  }

  lemma BracketInFront(t: Bytes, d: Doc, rest: Bytes)
    requires t != [] && match d
                        case List(items) => t[0] == '[' && t[1..] == ItemsText(items) + rest
                        case Table(members) => t[0] == '{' && t[1..] == MembersText(members) + rest
                        case _ => false
    ensures t == Text(d) + rest
  {
    hide ItemsText, MembersText;
    assert t == [t[0]] + t[1..];
  }

  lemma {:induction false} ItemDocs(t: Bytes, depth: nat) returns (items: seq<Doc>)
    requires ValidArray(t, depth).Accept?
    ensures forall i :: 0 <= i < |items| ==> WellFormed(items[i], depth)
    ensures t == ItemsText(items) + ValidArray(t, depth).rest
    decreases |t|, 1
  {
    hide ValidMember, WellFormed, Text, ItemsText;
    var rest := ValidArray(t, depth).rest;
    if t[0] == ']' {
      items := [];
      NoItems(t);
    } else {
      var more := ValidMember(t, depth).rest;
      var d := MemberDoc(t, depth);
      items := [d];
      if more[0] == ',' {
        var others := ItemDocs(more[1..], depth);
        if others == [] {
          others := [Missing];
          MissingIsNothing(depth);
        }
        ItemInFront(t, d, more, others, rest);
        items := [d] + others;
      } else {
        LastItem(t, d, more);
      }
    }
  }

  lemma NoItems(t: Bytes)
    requires t != [] && t[0] == ']'
    ensures t == ItemsText([]) + t[1..]
  {
  }

  /** A comma may come just before the closing bracket: what is behind it is a missing value. */
  lemma MissingIsNothing(depth: nat)
    ensures ItemsText([Missing]) == ItemsText([]) && WellFormed(Missing, depth)
  {
  }

  lemma ItemInFront(t: Bytes, d: Doc, more: Bytes, others: seq<Doc>, rest: Bytes)
    requires t == Text(d) + more && more != [] && more[0] == ',' && others != [] && more[1..] == ItemsText(others) + rest
    ensures t == ItemsText([d] + others) + rest
  {
    hide Text, ItemsText;
    ItemsBehind(d, others);
    Regroup(Text(d), more, ItemsText(others), rest);
  }

  lemma Regroup(front: Bytes, more: Bytes, others: Bytes, rest: Bytes)
    requires more != [] && more[0] == ',' && more[1..] == others + rest
    ensures front + more == front + ([','] + others) + rest
  {
    assert more == [','] + more[1..];
  }

  lemma ItemsBehind(d: Doc, others: seq<Doc>)
    requires others != []
    ensures ItemsText([d] + others) == Text(d) + ([','] + ItemsText(others))
  {
    assert ([d] + others)[1..] == others;
  }

  lemma LastItem(t: Bytes, d: Doc, more: Bytes)
    requires t == Text(d) + more && more != [] && more[0] == ']'
    ensures t == ItemsText([d]) + more[1..]
  {
    assert more == [']'] + more[1..];
  }

  lemma {:induction false} TableDocs(t: Bytes, depth: nat) returns (members: seq<Member>)
    requires ValidObject(t, depth).Accept?
    ensures members != [] ==> members[0].lead == '"'
    ensures forall i :: 0 <= i < |members| ==> StringBody(members[i].name) && WellFormed(members[i].value, depth)
    ensures t == MembersText(members) + ValidObject(t, depth).rest
    decreases |t|, 2
  {
    hide ValidNamedObject;
    if t[0] == '}' {
      members := [];
    } else {
      members := MemberDocs(t, depth);
    }
  }

  lemma {:induction false} MemberDocs(t: Bytes, depth: nat) returns (members: seq<Member>)
    requires ValidNamedObject(t, depth).Accept?
    ensures members != [] && members[0].lead == t[0]
    ensures forall i :: 0 <= i < |members| ==> StringBody(members[i].name) && WellFormed(members[i].value, depth)
    ensures t == MembersText(members) + ValidNamedObject(t, depth).rest
    decreases |t|, 1
  {
    hide ValidMember, ValidString, WellFormed, Text, MembersText, StringBody;
    var rest := ValidNamedObject(t, depth).rest;
    var named := ValidString(t[1..]).rest;
    StringExactly(t[1..], named);
    var name: Bytes :| StringBody(name) && t[1..] == name + ['"'] + named;
    var more := ValidMember(named[1..], depth).rest;
    var d := MemberDoc(named[1..], depth);
    var member := Member(t[0], name, d);
    NameInFront(t, member, named, more);
    members := [member];
    if more[0] == ',' {
      var others := MemberDocs(more[1..], depth);
      MemberInFront(t, member, more, others, rest);
      members := [member] + others;
    } else {
      LastMember(t, member, more);
    }
  }

  function NamedText(m: Member): Bytes {
    [m.lead] + m.name + ['"', ':'] + Text(m.value)
  }

  lemma NameInFront(t: Bytes, m: Member, named: Bytes, more: Bytes)
    requires t != [] && m.lead == t[0] && t[1..] == m.name + ['"'] + named
    requires named != [] && named[0] == ':' && named[1..] == Text(m.value) + more
    ensures t == NamedText(m) + more
  {
    hide Text;
    assert t == [t[0]] + t[1..] && named == [':'] + named[1..];
    assert m.name + ['"'] + ([':'] + named[1..]) == m.name + ['"', ':'] + named[1..];
  }

  lemma MemberInFront(t: Bytes, m: Member, more: Bytes, others: seq<Member>, rest: Bytes)
    requires t == NamedText(m) + more && more != [] && more[0] == ',' && others != [] && more[1..] == MembersText(others) + rest
    ensures t == MembersText([m] + others) + rest
  {
    hide NamedText, MembersText;
    MembersBehind(m, others);
    Regroup(NamedText(m), more, MembersText(others), rest);
  }

  lemma MembersBehind(m: Member, others: seq<Member>)
    requires others != []
    ensures MembersText([m] + others) == NamedText(m) + ([','] + MembersText(others))
  {
    assert ([m] + others)[1..] == others;
  }

  lemma LastMember(t: Bytes, m: Member, more: Bytes)
    requires t == NamedText(m) + more && more != [] && more[0] == '}'
    ensures t == MembersText([m]) + more[1..]
  {
    hide Text;
    assert more == ['}'] + more[1..];
  }

  // ---- Every document is accepted

  lemma {:induction false} DocAccepted(d: Doc, depth: nat, rest: Bytes)
    requires WellFormed(d, depth) && Delimited(rest) && rest != []
    ensures ValidMember(Text(d) + rest, depth) == Accept(rest)
    ensures Text(d) != [] ==> Text(d)[0] != ']'
    decreases d, 1
  {
    hide Scalar, ValidNumber, ValidString, Letters, StringBody, ItemsText, MembersText;
    var t := Text(d) + rest;
    match d
    case Missing =>
      assert t == rest;
    case Leaf(text) =>
      ScalarAccepted(text, depth, rest);
    case List(items) =>
      ItemsAccepted(items, depth + 1, rest);
      assert t[0] == '[' && t[1..] == ItemsText(items) + rest;
    case Table(members) =>
      TableAccepted(members, depth + 1, rest);
      assert t[0] == '{' && t[1..] == MembersText(members) + rest;
  }

  lemma {:induction false} ItemsAccepted(items: seq<Doc>, depth: nat, rest: Bytes)
    requires forall i :: 0 <= i < |items| ==> WellFormed(items[i], depth)
    ensures ValidArray(ItemsText(items) + rest, depth) == Accept(rest)
    decreases items, 0
  {
    hide ValidMember, WellFormed, Text;
    var t := ItemsText(items) + rest;
    if items == [] {
      assert t[0] == ']' && t[1..] == rest;
    } else {
      var others := ItemsText(items[1..]) + rest;
      var more := if |items| == 1 then [']'] + rest else [','] + others;
      SplitItems(items, rest, more);
      DocAccepted(items[0], depth, more);
      assert t[0] == if Text(items[0]) == [] then more[0] else Text(items[0])[0];
      assert more[1..] == if |items| == 1 then rest else others;
      if |items| > 1 {
        ItemsAccepted(items[1..], depth, rest);
        ItemsEnd(items[1..]);
      } else if t[0] == ']' {
        assert Text(items[0]) == [] && t == more;
      }
    }
  }

  lemma SplitItems(items: seq<Doc>, rest: Bytes, more: Bytes)
    requires items != [] && more == if |items| == 1 then [']'] + rest else [','] + (ItemsText(items[1..]) + rest)
    ensures ItemsText(items) + rest == Text(items[0]) + more
  {
    hide Text;
  }

  lemma ItemsEnd(items: seq<Doc>)
    ensures ItemsText(items) != []
  {
  }

  lemma TableAccepted(members: seq<Member>, depth: nat, rest: Bytes)
    requires forall i :: 0 <= i < |members| ==> StringBody(members[i].name) && WellFormed(members[i].value, depth)
    requires members != [] ==> members[0].lead == '"'
    ensures ValidObject(MembersText(members) + rest, depth) == Accept(rest)
    decreases members, 1
  {
    hide ValidNamedObject, WellFormed, Text;
    var t := MembersText(members) + rest;
    if members == [] {
      assert t[0] == '}' && t[1..] == rest;
    } else {
      MembersAccepted(members, depth, rest);
      assert t[0] == '"';
    }
  }

  lemma {:induction false} MembersAccepted(members: seq<Member>, depth: nat, rest: Bytes)
    requires members != [] && forall i :: 0 <= i < |members| ==> StringBody(members[i].name) && WellFormed(members[i].value, depth)
    ensures ValidNamedObject(MembersText(members) + rest, depth) == Accept(rest)
    decreases members, 0
  {
    hide ValidMember, ValidString, WellFormed, StringBody, Text, MembersText;
    var m := members[0];
    var t := MembersText(members) + rest;
    var others := MembersText(members[1..]) + rest;
    var more := if |members| == 1 then ['}'] + rest else [','] + others;
    SplitMembers(members, rest, more);
    DocAccepted(m.value, depth, more);
    NameRead(t, m, more);
    assert more[1..] == if |members| == 1 then rest else others;
    if |members| > 1 { MembersAccepted(members[1..], depth, rest); }
  }

  lemma SplitMembers(members: seq<Member>, rest: Bytes, more: Bytes)
    requires members != [] && more == if |members| == 1 then ['}'] + rest else [','] + (MembersText(members[1..]) + rest)
    ensures MembersText(members) + rest == NamedText(members[0]) + more
  {
    hide Text;
  }

  lemma NameRead(t: Bytes, m: Member, more: Bytes)
    requires t == NamedText(m) + more && StringBody(m.name)
    ensures t != [] && ValidString(t[1..]) == Accept([':'] + (Text(m.value) + more))
  {
    hide Text, ValidString, StringBody;
    var named := [':'] + (Text(m.value) + more);
    assert t == [m.lead] + (m.name + ['"'] + named);
    assert t[1..] == m.name + ['"'] + named;
    StringExactly(t[1..], named);
  }

  // ---- Both directions

  /** isValidRoot answers true exactly on the texts of well-formed containers. */
  lemma RootExactly(json: Bytes)
    ensures ValidRoot(json) == Some(true) <==>
            exists d: Doc :: (d.List? || d.Table?) && WellFormed(d, 0) && CString(json) == Text(d)
  {
    hide ValidObject, ValidArray, WellFormed, Text;
    var t := CString(json);
    if ValidRoot(json) == Some(true) {
      var d := RootDoc(t);
    }
    if d: Doc :| (d.List? || d.Table?) && WellFormed(d, 0) && t == Text(d) {
      RootAccepted(d);
    }
  }

  lemma RootDoc(t: Bytes) returns (d: Doc)
    requires t != [] && ((t[0] == '{' && ValidObject(t[1..], 1) == Accept([])) || (t[0] == '[' && ValidArray(t[1..], 1) == Accept([])))
    ensures (d.List? || d.Table?) && WellFormed(d, 0) && t == Text(d)
  {
    hide ValidObject, ValidArray;
    if t[0] == '[' {
      var items := ItemDocs(t[1..], 1);
      d := List(items);
    } else {
      var members := TableDocs(t[1..], 1);
      d := Table(members);
    }
    BracketInFront(t, d, []);
  }

  lemma RootAccepted(d: Doc)
    requires (d.List? || d.Table?) && WellFormed(d, 0)
    ensures var t := Text(d);
            t != [] && ((t[0] == '{' && ValidObject(t[1..], 1) == Accept([])) || (t[0] == '[' && ValidArray(t[1..], 1) == Accept([])))
  {
    hide ValidObject, ValidArray, ItemsText, MembersText;
    var t := Text(d);
    match d
    case List(items) =>
      ItemsAccepted(items, 1, []);
      assert t[1..] == ItemsText(items) + [];
    case Table(members) =>
      TableAccepted(members, 1, []);
      assert t[1..] == MembersText(members) + [];
  }
}
