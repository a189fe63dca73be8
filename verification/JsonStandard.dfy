/** Documents as people write them: any escapes in strings, any numbers, any white space. Each is read as the tree
    it stands for in RFC 8259, except that an escaped code point keeps its lower eight bits only. */
module JsonStandard {
  import opened Options
  import opened JsonEscape
  import opened JsonNumber
  import opened JsonTree
  import opened JsonStrip
  import opened JsonScan
  import opened JsonParse
  import opened JsonLayout

  /** A string by its characters, each with the bytes that spell it; a number or literal; or a container. */
  datatype Doc = Spelt(chars: seq<Bytes>) | Word(text: Bytes) | Box(inArray: bool, children: seq<Child>)
  datatype Child = Child(name: seq<Bytes>, doc: Doc)

  /** A character and the byte it stands for: itself, an escape of two bytes, or four hexadecimal digits. */
  ghost predicate Means(p: Bytes, c: Octet) {
    || (|p| == 1 && p[0] == c && c as int >= 32 && c != '"' && c != '\\')
    || (|p| == 2 && p[0] == '\\' && ((p[1] == c && c in ['"', '\\', '/']) || ShortFor(p[1], c as int)))
    || (|p| == 6 && p[0] == '\\' && p[1] == 'u' && (forall i :: 2 <= i < 6 ==> exists n: nat :: IsHexDigitOf(p[i], n))
        && exists h: nat, l: nat :: IsHexDigitOf(p[4], h) && IsHexDigitOf(p[5], l) && c as int == 16 * h + l)
  }

  predicate ShortFor(letter: Octet, code: nat) {
    (letter == 'b' && code == 8) || (letter == 't' && code == 9) || (letter == 'n' && code == 10)
    || (letter == 'f' && code == 12) || (letter == 'r' && code == 13)
  }

  ghost predicate Spells(chars: seq<Bytes>, s: Bytes) {
    |chars| == |s| && forall i :: 0 <= i < |s| ==> Means(chars[i], s[i])
  }

  ghost predicate StandsFor(d: Doc, v: Value) {
    match d
    case Spelt(chars) => v.Str? && Spells(chars, v.s)
    case Word(text) =>
      || (text == "true" && v == Bool(true)) || (text == "false" && v == Bool(false)) || (text == "null" && v == Null)
      || (NumberText(text) && NUL !in text && v == Num(text))
    case Box(inArray, children) =>
      if inArray then v.Arr? && AllStandFor(children, v.items, true) else v.Obj? && AllStandFor(children, v.members, false)
  }

  ghost predicate AllStandFor(cs: seq<Child>, ns: seq<Node>, inArray: bool)
    decreases cs
  {
    |cs| == |ns| && forall i :: 0 <= i < |cs| ==>
      StandsFor(cs[i].doc, ns[i].value) && if inArray then ns[i].name == [] else Spells(cs[i].name, ns[i].name)
  }

  // ---- Texts; with mask, as they are once stripped

  function Spelling(p: Bytes, mask: bool): Bytes {
    if mask && p == ['\\', '"'] then ['\\', MASKED] else p
  }

  function Body(chars: seq<Bytes>, mask: bool): Bytes {
    if chars == [] then [] else Spelling(chars[0], mask) + Body(chars[1..], mask)
  }

  function QuotedBody(chars: seq<Bytes>, mask: bool): Bytes {
    ['"'] + Body(chars, mask) + ['"']
  }

  function DocText(d: Doc, mask: bool): Bytes
    decreases d, 1
  {
    match d
    case Spelt(chars) => QuotedBody(chars, mask)
    case Word(text) => text
    case Box(inArray, children) => [if inArray then '[' else '{'] + Commas(children, inArray, mask) + [if inArray then ']' else '}']
  }

  function Commas(cs: seq<Child>, inArray: bool, mask: bool): Bytes
    decreases cs, 0
  {
    if cs == [] then []
    else
      (if inArray then [] else QuotedBody(cs[0].name, mask) + [':']) + DocText(cs[0].doc, mask)
      + if |cs| == 1 then [] else [','] + Commas(cs[1..], inArray, mask)
  }

  /** The text token by token. */
  function DocTokens(d: Doc, mask: bool): seq<Bytes>
    decreases d, 1
  {
    match d
    case Box(inArray, children) =>
      [[if inArray then '[' else '{']] + CommaTokens(children, inArray, mask) + [[if inArray then ']' else '}']]
    case _ => [DocText(d, mask)]
  }

  function CommaTokens(cs: seq<Child>, inArray: bool, mask: bool): seq<Bytes>
    decreases cs, 0
  {
    if cs == [] then []
    else
      (if inArray then [] else [QuotedBody(cs[0].name, mask), [':']]) + DocTokens(cs[0].doc, mask)
      + if |cs| == 1 then [] else [[',']] + CommaTokens(cs[1..], inArray, mask)
  }

  // ---- Characters

  lemma CharacterRead(p: Bytes, c: Octet, rest: Bytes)
    requires Means(p, c)
    ensures Fix(Spelling(p, true) + rest) == Cons(c, Fix(rest))
  {
    hide Fix;
    if |p| == 1 {
      FixPlainByte(c, rest);
      assert p == [c];
    } else if |p| == 2 {
      ShortRead(p[1], c, rest);
      assert p == ['\\', p[1]];
    } else {
      var h: nat, l: nat :| IsHexDigitOf(p[4], h) && IsHexDigitOf(p[5], l) && c as int == 16 * h + l;
      UnicodeRead(p[2], p[3], p[4], p[5], h, l, rest);
      assert p == ['\\', 'u', p[2], p[3], p[4], p[5]];
    }
  }

  lemma ShortRead(b: Octet, c: Octet, rest: Bytes)
    requires (b == c && c in ['"', '\\', '/']) || ShortFor(b, c as int)
    ensures Fix(Spelling(['\\', b], true) + rest) == Cons(c, Fix(rest))
  {
    hide Fix;
    SimpleRead(if b == '"' then MASKED else b, rest);
  }

  lemma {:induction false} StringRead(chars: seq<Bytes>, s: Bytes)
    requires Spells(chars, s)
    ensures Fix(Body(chars, true)) == Some(s)
  {
    hide Means, Spelling;
    if chars != [] {
      CharacterRead(chars[0], s[0], Body(chars[1..], true));
      StringRead(chars[1..], s[1..]);
      assert [s[0]] + s[1..] == s;
    }
  }

  /** One byte, or a backslash, one byte, and bytes that mean nothing inside quotes. */
  lemma CharacterShape(p: Bytes, c: Octet)
    requires Means(p, c)
    ensures p != [] && forall i :: 0 <= i < |p| ==> p[i] != NUL
    ensures if |p| == 1 then p[0] != '"' && p[0] != '\\'
            else |p| >= 2 && p[0] == '\\' && (forall i :: 2 <= i < |p| ==> p[i] != '"' && p[i] != '\\') && (p[1] == '"' ==> |p| == 2)
  {
    if |p| == 6 {
      forall i | 2 <= i < 6 ensures p[i] != '"' && p[i] != '\\' && p[i] != NUL {
        var n: nat :| IsHexDigitOf(p[i], n);
        HexDigitRead(p[i], n);
        HexDigitByte(p[i], n);
      }
    }
  }

  lemma HexDigitByte(d: Octet, n: nat)
    requires IsHexDigitOf(d, n)
    ensures d as int >= 48
  {
  }

  lemma CharacterStrips(p: Bytes, c: Octet, rest: Bytes)
    requires Means(p, c)
    ensures StripQuotes(p + rest, true) == Emit(Spelling(p, true), StripQuotes(rest, true))
  {
    CharacterShape(p, c);
    hide Means, StripQuotes, Emit;
    if |p| == 1 {
      QuotesQuiet(p, true, rest);
    } else {
      var m: Bytes := ['\\', if p[1] == '"' then MASKED else p[1]];
      assert p + rest == ['\\', p[1]] + (p[2..] + rest) && p == ['\\', p[1]] + p[2..];
      QuotesPair(p[1], true, p[2..] + rest);
      QuotesQuiet(p[2..], true, rest);
      EmitTwice(m, p[2..], StripQuotes(rest, true));
      assert Spelling(p, true) == m + p[2..];
    }
  }

  lemma {:induction false} StringStrips(chars: seq<Bytes>, s: Bytes, rest: Bytes)
    requires Spells(chars, s)
    ensures StripQuotes(Body(chars, false) + (['"'] + rest), true) == Closed(Body(chars, true) + ['"'], rest)
  {
    hide Means, Spelling;
    var tail := ['"'] + rest;
    if chars == [] {
      assert Body(chars, false) + tail == tail && tail[1..] == rest;
      assert Body(chars, true) + ['"'] == ['"'];
    } else {
      var p, more := chars[0], Body(chars[1..], false);
      Unmasked(p);
      assert Body(chars, false) + tail == p + (more + tail);
      CharacterStrips(p, s[0], more + tail);
      StringStrips(chars[1..], s[1..], rest);
      assert Spelling(p, true) + (Body(chars[1..], true) + ['"']) == Body(chars, true) + ['"'];
    }
  }

  lemma Unmasked(p: Bytes)
    ensures Spelling(p, false) == p
  {
  }

  lemma QuotesStrip(chars: seq<Bytes>, s: Bytes, rest: Bytes)
    requires Spells(chars, s)
    ensures Strip(QuotedBody(chars, false) + rest, true) == Prefix(QuotedBody(chars, true), Strip(rest, true))
  {
    hide Spells;
    var t := QuotedBody(chars, false) + rest;
    assert t[0] == '"' && t[1..] == Body(chars, false) + (['"'] + rest);
    StringStrips(chars, s, rest);
    assert ['"'] + (Body(chars, true) + ['"']) == QuotedBody(chars, true);
  }

  /** Bytes the scanner does not look at inside quotes. */
  predicate Inside(w: Bytes) {
    forall i :: 0 <= i < |w| ==> w[i] != '"' && w[i] != NUL
  }

  lemma {:induction false} BodyInside(chars: seq<Bytes>, s: Bytes)
    requires Spells(chars, s)
    ensures Inside(Body(chars, true))
  {
    if chars != [] {
      BodyInside(chars[1..], s[1..]);
      CharacterShape(chars[0], s[0]);
    }
  }

  // ---- Stripping

  /** Stripping turns the token x into y, whatever follows. */
  ghost predicate Becomes(x: Bytes, y: Bytes) {
    forall rest :: Strip(x + rest, true) == Prefix(y, Strip(rest, true))
  }

  lemma VisibleBecomes(x: Bytes)
    requires forall i :: 0 <= i < |x| ==> Visible(x[i])
    ensures Becomes(x, x)
  {
    hide Strip;
    forall rest ensures Strip(x + rest, true) == Prefix(x, Strip(rest, true)) { StripVisible(x, true, rest); }
  }

  lemma QuotedBecomes(chars: seq<Bytes>, s: Bytes)
    requires Spells(chars, s)
    ensures Becomes(QuotedBody(chars, false), QuotedBody(chars, true))
  {
    hide Strip, QuotedBody;
    forall rest: Bytes ensures Strip(QuotedBody(chars, false) + rest, true) == Prefix(QuotedBody(chars, true), Strip(rest, true)) {
      QuotesStrip(chars, s, rest);
    }
  }

  lemma WordIsPlain(d: Doc, v: Value)
    requires d.Word? && StandsFor(d, v)
    ensures AllPlain(d.text) && d.text != [] && ParseValue(d.text) == Some(v)
  {
    if v.Num? {
      NumericExactly(d.text);
      NumericIsPlain(d.text);
    }
  }

  ghost predicate AllBecome(xs: seq<Bytes>, ys: seq<Bytes>) {
    |xs| == |ys| && forall i :: 0 <= i < |xs| ==> Becomes(xs[i], ys[i])
  }

  lemma {:induction false} TokensBecome(d: Doc, v: Value)
    requires StandsFor(d, v)
    ensures AllBecome(DocTokens(d, false), DocTokens(d, true))
    decreases d, 1
  {
    hide Becomes, QuotedBody, Spells;
    match d
    case Spelt(chars) =>
      QuotedBecomes(chars, v.s);
    case Word(text) =>
      WordIsPlain(d, v);
      PlainIsVisible(text);
      VisibleBecomes(text);
    case Box(inArray, children) =>
      CommaTokensBecome(children, if inArray then v.items else v.members, inArray);
      VisibleBecomes([if inArray then '[' else '{']);
      VisibleBecomes([if inArray then ']' else '}']);
  }

  lemma {:induction false} CommaTokensBecome(cs: seq<Child>, ns: seq<Node>, inArray: bool)
    requires AllStandFor(cs, ns, inArray)
    ensures AllBecome(CommaTokens(cs, inArray, false), CommaTokens(cs, inArray, true))
    decreases cs, 0
  {
    hide Becomes, QuotedBody, Spells, StandsFor, DocTokens;
    if cs != [] {
      TokensBecome(cs[0].doc, ns[0].value);
      CommaTokensBecome(cs[1..], ns[1..], inArray);
      if !inArray { QuotedBecomes(cs[0].name, ns[0].name); }
      VisibleBecomes([':']);
      VisibleBecomes([',']);
    }
  }

  lemma {:induction false} StripPieces(ps: seq<Piece>, ys: seq<Bytes>, last: Bytes)
    requires WhitePads(ps) && AllWhite(last) && AllBecome(TokensIn(ps), ys)
    ensures Strip(JsonLayout.Spelled(ps) + last, true) == Some(Joined(ys))
  {
    hide Strip, AllWhite, Becomes;
    if ps == [] {
      assert JsonLayout.Spelled(ps) + last == last + [];
      WhiteGoes(last, [], true);
      StripNothing();
    } else {
      var p, rest := ps[0], ps[1..];
      assert TokensIn(ps)[0] == p.token && TokensIn(ps)[1..] == TokensIn(rest);
      StripPieces(rest, ys[1..], last);
      assert JsonLayout.Spelled(ps) + last == p.pad + (p.token + (JsonLayout.Spelled(rest) + last));
      WhiteGoes(p.pad, p.token + (JsonLayout.Spelled(rest) + last), true);
      BecomesOnce(p.token, ys[0], JsonLayout.Spelled(rest) + last);
    }
  }

  lemma StripNothing()
    ensures Strip([], true) == Some([])
  {
  }

  lemma BecomesOnce(x: Bytes, y: Bytes, rest: Bytes)
    requires Becomes(x, y)
    ensures Strip(x + rest, true) == Prefix(y, Strip(rest, true))
  {
  }

  /** The tokens make the text. */
  lemma {:induction false} DocTokensJoin(d: Doc, mask: bool)
    ensures Joined(DocTokens(d, mask)) == DocText(d, mask)
    decreases d, 1
  {
    hide Joined;
    match d
    case Box(inArray, children) =>
      CommaTokensJoin(children, inArray, mask);
      Bracketed(if inArray then '[' else '{', CommaTokens(children, inArray, mask), if inArray then ']' else '}');
    case _ => JoinedOne(DocText(d, mask));
  }

  lemma {:induction false} CommaTokensJoin(cs: seq<Child>, inArray: bool, mask: bool)
    ensures Joined(CommaTokens(cs, inArray, mask)) == Commas(cs, inArray, mask)
    decreases cs, 0
  {
    hide DocText, DocTokens, QuotedBody;
    if cs != [] {
      DocTokensJoin(cs[0].doc, mask);
      CommaTokensJoin(cs[1..], inArray, mask);
      var q, t, more := QuotedBody(cs[0].name, mask), DocTokens(cs[0].doc, mask), CommaTokens(cs[1..], inArray, mask);
      ChildJoin(q, t);
      var c := if inArray then t else [q, [':']] + t;
      assert CommaTokens(cs, inArray, mask) == c + if |cs| == 1 then [] else [[',']] + more by { assert [] + t == t; }
      assert Commas(cs, inArray, mask) == Joined(c) + if |cs| == 1 then [] else [','] + Joined(more) by {
        assert [] + DocText(cs[0].doc, mask) == DocText(cs[0].doc, mask);
      }
      CommaJoin(c, more);
    }
  }

  lemma CommaJoin(c: seq<Bytes>, more: seq<Bytes>)
    ensures Joined(c + ([[',']] + more)) == Joined(c) + ([','] + Joined(more))
    ensures Joined(c + []) == Joined(c) + []
  {
    hide Joined;
    JoinedConcat(c, [[',']] + more);
    JoinedConcat([[',']], more);
    JoinedOne([',']);
    assert c + [] == c;
  }

  // ---- Scanning

  lemma {:induction false} InsidePassesQuote(w: Bytes, rest: Bytes)
    requires Inside(w)
    ensures AfterQuote(w + (['"'] + rest)) == Some(rest)
  {
    var t := w + (['"'] + rest);
    if w == [] {
      assert t == ['"'] + rest && t[1..] == rest;
    } else {
      assert t[1..] == w[1..] + (['"'] + rest) && t[0] == w[0];
      InsidePassesQuote(w[1..], rest);
    }
  }

  lemma QuotedBodyPasses(chars: seq<Bytes>, s: Bytes, rest: Bytes)
    requires Spells(chars, s)
    ensures var t := QuotedBody(chars, true) + rest; t[0] == '"' && AfterQuote(t[1..]) == Some(rest)
  {
    hide Spells, Body, Inside;
    var t := QuotedBody(chars, true) + rest;
    BodyInside(chars, s);
    assert t[1..] == Body(chars, true) + (['"'] + rest);
    InsidePassesQuote(Body(chars, true), rest);
  }

  lemma QuotedBodyInBracket(chars: seq<Bytes>, s: Bytes, l: Octet, r: Octet, depth: nat, rest: Bytes)
    requires Spells(chars, s) && Pair(l, r) && depth >= 1
    ensures AfterBracket(QuotedBody(chars, true) + rest, l, r, depth) == AfterBracket(rest, l, r, depth)
  {
    hide Spells, QuotedBody;
    QuotedBodyPasses(chars, s, rest);
  }

  lemma FindPassesQuotedBody(ch: Octet, chars: seq<Bytes>, s: Bytes, rest: Bytes)
    requires Spells(chars, s) && Separator(ch)
    ensures Find(ch, QuotedBody(chars, true) + rest) == Find(ch, rest)
  {
    hide Spells, QuotedBody;
    QuotedBodyPasses(chars, s, rest);
  }

  function Open(inArray: bool): Octet { if inArray then '[' else '{' }
  function Close(inArray: bool): Octet { if inArray then ']' else '}' }

  lemma {:induction false} DocInBracket(d: Doc, v: Value, l: Octet, r: Octet, depth: nat, rest: Bytes)
    requires StandsFor(d, v) && Pair(l, r) && depth >= 1
    ensures AfterBracket(DocText(d, true) + rest, l, r, depth) == AfterBracket(rest, l, r, depth)
    decreases d, 1
  {
    hide AfterBracket, QuotedBody, Spells, Commas, ParseValue;
    match d
    case Spelt(chars) => QuotedBodyInBracket(chars, v.s, l, r, depth, rest);
    case Word(text) => WordIsPlain(d, v); PlainInBracket(text, l, r, depth, rest);
    case Box(inArray, children) =>
      BoxInBracket(children, if inArray then v.items else v.members, inArray, l, r, depth, rest);
  }

  lemma {:induction false} BoxInBracket(cs: seq<Child>, ns: seq<Node>, inArray: bool, l: Octet, r: Octet, depth: nat, rest: Bytes)
    requires AllStandFor(cs, ns, inArray) && Pair(l, r) && depth >= 1
    ensures AfterBracket([Open(inArray)] + Commas(cs, inArray, true) + [Close(inArray)] + rest, l, r, depth)
            == AfterBracket(rest, l, r, depth)
    decreases cs, 1
  {
    hide AfterBracket, Commas, AllStandFor;
    var a, b, j := Open(inArray), Close(inArray), Commas(cs, inArray, true);
    var tail := [b] + rest;
    assert [a] + j + [b] + rest == [a] + (j + tail);
    var inner := if a == l then depth + 1 else depth;
    BracketStep(a, l, r, depth, j + tail);
    CommasInBracket(cs, ns, inArray, l, r, inner, tail);
    BracketStep(b, l, r, inner, rest);
  }

  /** The first child with what separates it from the others. */
  lemma FrontOfCommas(cs: seq<Child>, inArray: bool, rest: Bytes)
    requires cs != []
    ensures var e, q := DocText(cs[0].doc, true), QuotedBody(cs[0].name, true);
            var after := if |cs| == 1 then rest else [','] + (Commas(cs[1..], inArray, true) + rest);
            Commas(cs, inArray, true) + rest == if inArray then e + after else q + ([':'] + (e + after))
  {
    hide DocText, QuotedBody;
    assert forall e: Bytes :: [] + e == e;
  }

  lemma {:induction false} CommasInBracket(cs: seq<Child>, ns: seq<Node>, inArray: bool, l: Octet, r: Octet, depth: nat, rest: Bytes)
    requires AllStandFor(cs, ns, inArray) && Pair(l, r) && depth >= 1
    ensures AfterBracket(Commas(cs, inArray, true) + rest, l, r, depth) == AfterBracket(rest, l, r, depth)
    decreases cs, 0
  {
    hide AfterBracket, DocText, QuotedBody, StandsFor, Spells;
    if cs == [] {
      assert Commas(cs, inArray, true) + rest == rest;
    } else {
      var more := Commas(cs[1..], inArray, true) + rest;
      var after := if |cs| == 1 then rest else [','] + more;
      var e := DocText(cs[0].doc, true);
      FrontOfCommas(cs, inArray, rest);
      hide Commas;
      DocInBracket(cs[0].doc, ns[0].value, l, r, depth, after);
      if !inArray {
        QuotedBodyInBracket(cs[0].name, ns[0].name, l, r, depth, [':'] + (e + after));
        PlainInBracket([':'], l, r, depth, e + after);
      }
      if |cs| > 1 {
        PlainInBracket([','], l, r, depth, more);
        CommasInBracket(cs[1..], ns[1..], inArray, l, r, depth, rest);
      }
    }
  }

  lemma FindPassesDoc(ch: Octet, d: Doc, v: Value, rest: Bytes)
    requires StandsFor(d, v) && Separator(ch)
    ensures Find(ch, DocText(d, true) + rest) == Find(ch, rest)
  {
    hide AfterBracket, QuotedBody, Spells, Commas, ParseValue, Find;
    match d
    case Spelt(chars) => FindPassesQuotedBody(ch, chars, v.s, rest);
    case Word(text) => WordIsPlain(d, v); FindPassesPlain(ch, text, rest);
    case Box(inArray, children) =>
      FindPassesBox(ch, children, if inArray then v.items else v.members, inArray, rest);
  }

  lemma FindPassesBox(ch: Octet, cs: seq<Child>, ns: seq<Node>, inArray: bool, rest: Bytes)
    requires AllStandFor(cs, ns, inArray) && Separator(ch)
    ensures Find(ch, [Open(inArray)] + Commas(cs, inArray, true) + [Close(inArray)] + rest) == Find(ch, rest)
  {
    hide AfterBracket, Commas, AllStandFor;
    var a, b, j := Open(inArray), Close(inArray), Commas(cs, inArray, true);
    var t := [a] + j + [b] + rest;
    assert t[0] == a && t[1..] == j + ([b] + rest);
    CommasInBracket(cs, ns, inArray, a, b, 1, [b] + rest);
    BracketStep(b, a, b, 1, rest);
  }

  // ---- Parsing

  lemma DocShape(d: Doc, v: Value)
    requires StandsFor(d, v)
    ensures var t := DocText(d, true);
            && t != [] && t[0] != ':' && t[0] != ',' && t[0] != '#' && NUL !in t
  {
    hide Commas, Body, Spells, ParseValue;
    match d
    case Spelt(chars) => BodyInside(chars, v.s);
    case Word(text) => WordIsPlain(d, v); PlainHasNoNul(text);
    case Box(inArray, children) => CommasHaveNoNul(children, if inArray then v.items else v.members, inArray);
  }

  lemma {:induction false} CommasHaveNoNul(cs: seq<Child>, ns: seq<Node>, inArray: bool)
    requires AllStandFor(cs, ns, inArray)
    ensures NUL !in Commas(cs, inArray, true) && (cs != [] ==> Commas(cs, inArray, true) != [])
    decreases cs, 0
  {
    hide DocText, Body, StandsFor, Spells;
    if cs != [] {
      DocShape(cs[0].doc, ns[0].value);
      CommasHaveNoNul(cs[1..], ns[1..], inArray);
      if !inArray { BodyInside(cs[0].name, ns[0].name); }
    }
  }

  lemma {:induction false} ParseDoc(d: Doc, v: Value)
    requires StandsFor(d, v)
    ensures ParseValue(DocText(d, true)) == Some(v)
    decreases d, 1
  {
    hide ParseValue, Body, Spells, Commas;
    match d
    case Spelt(chars) => ParseSpelt(chars, v.s);
    case Word(text) => WordIsPlain(d, v);
    case Box(inArray, children) =>
      if inArray { ParseList(children, v.items); } else { ParseTable(children, v.members); }
  }

  lemma ParseSpelt(chars: seq<Bytes>, s: Bytes)
    requires Spells(chars, s)
    ensures ParseValue(QuotedBody(chars, true)) == Some(Str(s))
  {
    hide Spells;
    var t := QuotedBody(chars, true);
    assert t[1..|t| - 1] == Body(chars, true);
    StringRead(chars, s);
  }

  lemma {:induction false} ParseList(cs: seq<Child>, ns: seq<Node>)
    requires AllStandFor(cs, ns, true)
    ensures ParseValue(['['] + Commas(cs, true, true) + [']']) == Some(Arr(ns))
    decreases cs, 1
  {
    hide Elements, Commas, StandsFor;
    var j := Commas(cs, true, true);
    var t := ['['] + j + [']'];
    assert t[1..] == j + [']'];
    if cs == [] {
      assert j == [] by { NoCommas(true); }
    } else {
      CommasHaveNoNul(cs, ns, true);
      ElementsOfDocs(cs, ns);
    }
  }

  lemma NoCommas(inArray: bool)
    ensures Commas([], inArray, true) == []
  {
  }

  lemma {:induction false} ElementsOfDocs(cs: seq<Child>, ns: seq<Node>)
    requires cs != [] && AllStandFor(cs, ns, true)
    ensures Elements(Commas(cs, true, true) + [']']) == Kids(ns)
    decreases cs, 0
  {
    hide Find, ParseValue, StandsFor, Spells, Elements, Commas, DocText;
    var d, v := cs[0].doc, ns[0].value;
    var e := DocText(d, true);
    var after := if |cs| == 1 then [']'] else [','] + (Commas(cs[1..], true, true) + [']']);
    FrontOfCommas(cs, true, [']']);
    assert after == [after[0]] + after[1..];
    FindPassesDoc(',', d, v, after);
    FindHere(',', after[0], after[1..]);
    assert e + [] == e;
    FindPassesDoc(':', d, v, []);
    FindHere(':', ']', []);
    DocShape(d, v);
    ParseDoc(d, v);
    ElementsRound(e, after, v);
    assert ns == [Node([], v)] + ns[1..];
    if |cs| > 1 {
      assert after[1..] == Commas(cs[1..], true, true) + [']'];
      ElementsOfDocs(cs[1..], ns[1..]);
    }
  }

  lemma {:induction false} ParseTable(cs: seq<Child>, ns: seq<Node>)
    requires AllStandFor(cs, ns, false)
    ensures ParseValue(['{'] + Commas(cs, false, true) + ['}']) == Some(Obj(ns))
    decreases cs, 1
  {
    hide Members, Commas, StandsFor;
    var j := Commas(cs, false, true);
    var t := ['{'] + j + ['}'];
    assert t[1..] == j + ['}'];
    if cs == [] {
      assert j == [] by { NoCommas(false); }
    } else {
      CommasHaveNoNul(cs, ns, false);
      MembersOfDocs(cs, ns);
    }
  }

  lemma NameRead(chars: seq<Bytes>, name: Bytes, colon: Bytes)
    requires Spells(chars, name) && colon != []
    ensures var q := QuotedBody(chars, true); MemberName(q + colon, |q|) == Some(name)
  {
    hide Spells;
    var q := QuotedBody(chars, true);
    var t := q + colon;
    assert t[1..|q| - 1] == Body(chars, true);
    BodyInside(chars, name);
    CStringOfText(Body(chars, true));
    StringRead(chars, name);
  }

  lemma QuotedNotEmpty(chars: seq<Bytes>)
    ensures QuotedBody(chars, true) != []
  {
  }

  /** One round of DoNode on a name in quotes and a value e. */
  lemma TableRound(t: Bytes, colon: Bytes, name: Bytes, e: Bytes, after: Bytes, v: Value)
    requires after != [] && ParseValue(e) == Some(v) && colon == [':'] + (e + after) && |colon| < |t|
    requires Find(':', t) == Some(colon) && MemberName(t, |t| - |colon|) == Some(name)
    requires if after[0] == ',' then Find(',', colon) == Some(after) else Find(',', colon) == None && |after| == 1
    ensures Members(t) == Attach(Node(name, v), if after[0] == ',' then Members(after[1..]) else Kids([]))
  {
    hide Find, ParseValue, MemberName;
    assert colon[1..|colon| - |after|] == e;
  }

  lemma {:induction false} MembersOfDocs(cs: seq<Child>, ns: seq<Node>)
    requires cs != [] && AllStandFor(cs, ns, false)
    ensures Members(Commas(cs, false, true) + ['}']) == Kids(ns)
    decreases cs, 0
  {
    hide Find, ParseValue, StandsFor, Spells, Members, Commas, DocText, QuotedBody, MemberName;
    var d, v := cs[0].doc, ns[0].value;
    var q, e := QuotedBody(cs[0].name, true), DocText(d, true);
    var after := if |cs| == 1 then ['}'] else [','] + (Commas(cs[1..], false, true) + ['}']);
    var colon := [':'] + (e + after);
    FrontOfCommas(cs, false, ['}']);
    assert after == [after[0]] + after[1..];
    FindPassesQuotedBody(':', cs[0].name, ns[0].name, colon);
    FindHere(':', ':', e + after);
    FindPassesColon(e + after);
    FindPassesDoc(',', d, v, after);
    FindHere(',', after[0], after[1..]);
    ParseDoc(d, v);
    NameRead(cs[0].name, ns[0].name, colon);
    assert |q + colon| - |colon| == |q| >= 1 by { QuotedNotEmpty(cs[0].name); }
    TableRound(q + colon, colon, ns[0].name, e, after, v);
    assert ns == [Node(ns[0].name, v)] + ns[1..];
    if |cs| > 1 {
      assert after[1..] == Commas(cs[1..], false, true) + ['}'];
      MembersOfDocs(cs[1..], ns[1..]);
    }
  }

  // ---- Whole documents

  /** An array or object written in any such way parses to the tree it stands for. */
  lemma StandardDocument(d: Doc, v: Value, ps: seq<Piece>, last: Bytes)
    requires d.Box? && StandsFor(d, v)
    requires TokensIn(ps) == DocTokens(d, false) && WhitePads(ps) && AllWhite(last)
    ensures ParseDocument(JsonLayout.Spelled(ps) + last) == Parsed(v)
  {
    hide StandsFor, ParseValue, Strip, Commas, DocTokens, WhitePads, AllWhite;
    TokensBecome(d, v);
    StripPieces(ps, DocTokens(d, true), last);
    DocTokensJoin(d, true);
    ParseDoc(d, v);
  }

  // ---- Containers that are none

  /** The elements t, put behind good ones. */
  lemma {:induction false} BadElementsBehind(cs: seq<Child>, ns: seq<Node>, t: Bytes)
    requires AllStandFor(cs, ns, true) && Elements(t) == Nullified
    ensures Elements(if cs == [] then t else Commas(cs, true, true) + ([','] + t)) == Nullified
    decreases |cs|
  {
    hide Find, ParseValue, StandsFor, Spells, Elements, Commas, DocText;
    if cs != [] {
      var d, v := cs[0].doc, ns[0].value;
      var e := DocText(d, true);
      var more := if |cs| == 1 then t else Commas(cs[1..], true, true) + ([','] + t);
      FrontOfCommas(cs, true, [','] + t);
      FindPassesDoc(',', d, v, [','] + more);
      FindHere(',', ',', more);
      assert e + [] == e;
      FindPassesDoc(':', d, v, []);
      FindHere(':', ']', []);
      DocShape(d, v);
      ParseDoc(d, v);
      ElementsRound(e, [','] + more, v);
      assert ([','] + more)[1..] == more;
      BadElementsBehind(cs[1..], ns[1..], t);
    }
  }

  /** A name and a value in an array, and then the end or more elements. */
  lemma PairIsBad(chars: seq<Bytes>, name: Bytes, d: Doc, v: Value, after: Bytes)
    requires Spells(chars, name) && StandsFor(d, v) && after != [] && (after[0] == ',' || after == [']'])
    ensures Elements(QuotedBody(chars, true) + ([':'] + (DocText(d, true) + after))) == Nullified
  {
    hide Find, ParseValue, StandsFor, Spells, DocText, QuotedBody;
    var q, e := QuotedBody(chars, true), DocText(d, true);
    var t := q + ([':'] + (e + after));
    assert after == [after[0]] + after[1..];
    FindPassesQuotedBody(',', chars, name, [':'] + (e + after));
    FindPassesColon(e + after);
    FindPassesDoc(',', d, v, after);
    FindHere(',', after[0], after[1..]);
    FindPassesQuotedBody(':', chars, name, [':'] + e);
    FindHere(':', ':', e);
    assert t == (q + ([':'] + e)) + after;
    assert t[..|t| - |after|] == q + ([':'] + e);
  }

  /** An array that holds a pair, whatever follows it, is read as null. */
  lemma PairInArray(cs: seq<Child>, ns: seq<Node>, chars: seq<Bytes>, name: Bytes, d: Doc, v: Value, after: Bytes)
    requires AllStandFor(cs, ns, true) && Spells(chars, name) && StandsFor(d, v)
    requires after != [] && after[|after| - 1] == ']' && (after[0] == ',' || after == [']'])
    ensures var pair := QuotedBody(chars, true) + ([':'] + (DocText(d, true) + after));
            ParseValue(['['] + if cs == [] then pair else Commas(cs, true, true) + ([','] + pair)) == Some(Null)
  {
    hide StandsFor, Spells, Commas, DocText, QuotedBody, Elements;
    var pair := QuotedBody(chars, true) + ([':'] + (DocText(d, true) + after));
    var t := if cs == [] then pair else Commas(cs, true, true) + ([','] + pair);
    PairIsBad(chars, name, d, v, after);
    BadElementsBehind(cs, ns, pair);
    BadArray(t);
  }

  lemma BadArray(t: Bytes)
    requires Elements(t) == Nullified && |t| >= 2 && t[|t| - 1] == ']'
    ensures ParseValue(['['] + t) == Some(Null)
  {
    hide Elements;
    assert (['['] + t)[1..] == t;
  }

  lemma {:induction false} BadMembersBehind(cs: seq<Child>, ns: seq<Node>, t: Bytes)
    requires AllStandFor(cs, ns, false) && Members(t) == Nullified
    ensures Members(if cs == [] then t else Commas(cs, false, true) + ([','] + t)) == Nullified
    decreases |cs|
  {
    hide Find, ParseValue, StandsFor, Spells, Members, Commas, DocText, QuotedBody, MemberName;
    if cs != [] {
      var d, v := cs[0].doc, ns[0].value;
      var q, e := QuotedBody(cs[0].name, true), DocText(d, true);
      var more := if |cs| == 1 then t else Commas(cs[1..], false, true) + ([','] + t);
      var colon := [':'] + (e + ([','] + more));
      FrontOfCommas(cs, false, [','] + t);
      FindPassesQuotedBody(':', cs[0].name, ns[0].name, colon);
      FindHere(':', ':', e + ([','] + more));
      FindPassesColon(e + ([','] + more));
      FindPassesDoc(',', d, v, [','] + more);
      FindHere(',', ',', more);
      ParseDoc(d, v);
      NameRead(cs[0].name, ns[0].name, colon);
      assert |q + colon| - |colon| == |q| >= 1 by { QuotedNotEmpty(cs[0].name); }
      TableRound(q + colon, colon, ns[0].name, e, [','] + more, v);
      assert ([','] + more)[1..] == more;
      BadMembersBehind(cs[1..], ns[1..], t);
    }
  }

  /** An object whose last member is no pair is read as null. */
  lemma NoPairInObject(cs: seq<Child>, ns: seq<Node>, d: Doc, v: Value)
    requires AllStandFor(cs, ns, false) && StandsFor(d, v)
    ensures var last := DocText(d, true) + ['}'];
            ParseValue(['{'] + if cs == [] then last else Commas(cs, false, true) + ([','] + last)) == Some(Null)
  {
    hide StandsFor, Commas, DocText, Find;
    var last := DocText(d, true) + ['}'];
    FindPassesDoc(':', d, v, ['}']);
    FindHere(':', '}', []);
    assert ['}'] == ['}'] + [];
    DocShape(d, v);
    BadMembersBehind(cs, ns, last);
    BadObject(if cs == [] then last else Commas(cs, false, true) + ([','] + last));
  }

  lemma BadObject(t: Bytes)
    requires Members(t) == Nullified && |t| >= 2 && t[|t| - 1] == '}'
    ensures ParseValue(['{'] + t) == Some(Null)
  {
    hide Members;
    assert (['{'] + t)[1..] == t;
  }

  /** A string, a number or a literal alone is no document, and neither is a container closed by the wrong bracket. */
  lemma NoDocument(d: Doc, v: Value, cs: seq<Child>, inArray: bool)
    requires StandsFor(d, v) && !d.Box?
    ensures ParseStripped(Some(DocText(d, true))) == NotJson
    ensures ParseStripped(Some([Open(inArray)] + Commas(cs, inArray, true) + [Close(!inArray)])) == NotJson
  {
    hide Commas, Body, Spells, ParseValue;
    if d.Word? {
      WordIsPlain(d, v);
      assert Plain(d.text[0]);
    }
  }
}
