/** White space: what the stripper makes of each byte, documents with any white space between their tokens, and the
    layout of the formatted print. */
module JsonLayout {
  import opened Options
  import opened JsonEscape
  import opened JsonNumber
  import opened JsonTree
  import opened JsonStrip
  import opened JsonParse

  // ---- Byte by byte

  /** Tab, line feed, carriage return, space. */
  predicate White(c: Octet) {
    c as int in {9, 10, 13, 32}
  }

  predicate AllWhite(w: Bytes) {
    forall i :: 0 <= i < |w| ==> White(w[i])
  }

  /** Outside quotes: white space goes; a printable byte but a quote, a slash or a number sign stays; a slash without
      a comment and any other byte ends the text. */
  lemma ByteOutside(c: Octet, t: Bytes, mask: bool)
    ensures White(c) ==> Strip([c] + t, mask) == Strip(t, mask)
    ensures 33 <= c as int <= 126 && c !in ['"', '/', '#'] ==> Strip([c] + t, mask) == Prefix([c], Strip(t, mask))
    ensures c == '/' && (t == [] || (t[0] != '/' && t[0] != '*')) ==> Strip([c] + t, mask) == Some([])
    ensures !White(c) && !(33 <= c as int <= 126) ==> Strip([c] + t, mask) == Some([])
  {
    hide Comment, StripQuotes;
    assert ([c] + t)[1..] == t && ([c] + t)[0] == c;
    if t != [] { assert ([c] + t)[1] == t[0]; }
  }

  lemma {:induction false} WhiteGoes(w: Bytes, t: Bytes, mask: bool)
    requires AllWhite(w)
    ensures Strip(w + t, mask) == Strip(t, mask)
  {
    hide Strip;
    if w == [] {
      assert w + t == t;
    } else {
      assert White(w[0]) && w + t == [w[0]] + (w[1..] + t);
      ByteOutside(w[0], w[1..] + t, mask);
      WhiteGoes(w[1..], t, mask);
    }
  }

  // ---- Tokens

  function Tokens(v: Value): seq<Bytes>
    decreases v, 1
  {
    match v
    case Arr(items) => [['[']] + TokensOfAll(items, true) + [[']']]
    case Obj(members) => [['{']] + TokensOfAll(members, false) + [['}']]
    case _ => [Text(v, false)]
  }

  function TokensOfAll(ns: seq<Node>, inArray: bool): seq<Bytes>
    decreases ns, 0
  {
    if ns == [] then []
    else
      (if inArray then [] else [Quoted(ns[0].name, false), [':']]) + Tokens(ns[0].value)
      + (if |ns| == 1 then [] else [[',']] + TokensOfAll(ns[1..], inArray))
  }

  /** White space and the token behind it. */
  datatype Piece = Piece(pad: Bytes, token: Bytes)

  function Spelled(ps: seq<Piece>): Bytes {
    if ps == [] then [] else ps[0].pad + ps[0].token + Spelled(ps[1..])
  }

  function TokensIn(ps: seq<Piece>): (r: seq<Bytes>)
    ensures |r| == |ps|
  {
    seq(|ps|, i requires 0 <= i < |ps| => ps[i].token)
  }

  predicate WhitePads(ps: seq<Piece>) {
    forall i :: 0 <= i < |ps| ==> AllWhite(ps[i].pad)
  }

  function Joined(ts: seq<Bytes>): Bytes {
    if ts == [] then [] else ts[0] + Joined(ts[1..])
  }

  lemma {:induction false} JoinedConcat(a: seq<Bytes>, b: seq<Bytes>)
    ensures Joined(a + b) == Joined(a) + Joined(b)
  {
    if a == [] {
      assert a + b == b;
    } else {
      assert (a + b)[1..] == a[1..] + b;
      JoinedConcat(a[1..], b);
    }
  }

  lemma JoinedOne(t: Bytes)
    ensures Joined([t]) == t
  {
    assert Joined([]) == [] && [t][1..] == [] && t + [] == t;
  }

  /** The tokens make the compact print. */
  lemma {:induction false} TokensJoin(v: Value)
    ensures Joined(Tokens(v)) == Text(v, false)
    decreases v, 1
  {
    hide Joined;
    match v
    case Arr(items) => AllJoin(items, true); Bracketed('[', TokensOfAll(items, true), ']');
    case Obj(members) => AllJoin(members, false); Bracketed('{', TokensOfAll(members, false), '}');
    case _ => JoinedOne(Text(v, false));
  }

  lemma Bracketed(a: Octet, ts: seq<Bytes>, b: Octet)
    ensures Joined([[a]] + ts + [[b]]) == [a] + Joined(ts) + [b]
  {
    hide Joined;
    JoinedConcat([[a]] + ts, [[b]]);
    JoinedConcat([[a]], ts);
    JoinedOne([a]);
    JoinedOne([b]);
  }

  lemma {:induction false} AllJoin(ns: seq<Node>, inArray: bool)
    ensures Joined(TokensOfAll(ns, inArray)) == Join(ns, inArray, false)
    decreases ns, 0
  {
    hide Text, Tokens, Quoted;
    if ns != [] {
      TokensJoin(ns[0].value);
      AllJoin(ns[1..], inArray);
      var q, v := Quoted(ns[0].name, false), Tokens(ns[0].value);
      var c := if inArray then v else [q, [':']] + v;
      ChildJoin(q, v);
      var more := if |ns| == 1 then [] else [[',']] + TokensOfAll(ns[1..], inArray);
      assert TokensOfAll(ns, inArray) == c + more by { assert [] + v == v; }
      JoinedConcat(c, more);
      if |ns| == 1 {
        assert Joined(more) == [];
      } else {
        JoinedConcat([[',']], TokensOfAll(ns[1..], inArray));
        JoinedOne([',']);
      }
      assert inArray ==> Child(ns[0], inArray, false) == Text(ns[0].value, false);
    }
  }

  lemma ChildJoin(q: Bytes, v: seq<Bytes>)
    ensures Joined([q, [':']] + v) == q + [':'] + Joined(v)
  {
    hide Joined;
    JoinedConcat([q, [':']], v);
    assert [q, [':']] == [q] + [[':']];
    JoinedConcat([q], [[':']]);
    JoinedOne(q);
    JoinedOne([':']);
  }

  // ---- Tokens and the stripper

  /** A quoted string, or bytes the stripper leaves alone. */
  ghost predicate IsToken(x: Bytes) {
    (exists s :: x == Quoted(s, false)) || (forall i :: 0 <= i < |x| ==> Visible(x[i]))
  }

  lemma {:induction false} TokensAre(v: Value)
    requires GoodNumbers(v)
    ensures forall x :: x in Tokens(v) ==> IsToken(x)
    decreases v, 1
  {
    hide Quoted, IsNumeric;
    match v
    case Arr(items) => AllTokensAre(items, true);
    case Obj(members) => AllTokensAre(members, false);
    case Num(text) => NumericIsPlain(text); PlainIsVisible(text);
    case Bool(b) => assert IsToken(Text(v, false));
    case _ => assert IsToken(Text(v, false));
  }

  lemma {:induction false} AllTokensAre(ns: seq<Node>, inArray: bool)
    requires forall n :: n in ns ==> GoodNumbers(n.value)
    ensures forall x :: x in TokensOfAll(ns, inArray) ==> IsToken(x)
    decreases ns, 0
  {
    hide Quoted, GoodNumbers, Tokens;
    if ns != [] {
      TokensAre(ns[0].value);
      assert forall n :: n in ns[1..] ==> n in ns;
      AllTokensAre(ns[1..], inArray);
      assert IsToken(Quoted(ns[0].name, false)) && IsToken([':']) && IsToken([',']);
    }
  }

  lemma StripToken(x: Bytes, a: Bytes, b: Bytes, mask: bool)
    requires IsToken(x) && Strip(a, mask) == Strip(b, mask)
    ensures Strip(x + a, mask) == Strip(x + b, mask)
  {
    hide Strip, Visible, Quoted;
    if s :| x == Quoted(s, false) {
      StripQuoted(s, mask, a);
      StripQuoted(s, mask, b);
    } else {
      StripVisible(x, mask, a);
      StripVisible(x, mask, b);
    }
  }

  /** White space between tokens makes no difference to the stripper. */
  lemma {:induction false} StripSpelled(ps: seq<Piece>, last: Bytes, mask: bool)
    requires WhitePads(ps) && AllWhite(last) && forall x :: x in TokensIn(ps) ==> IsToken(x)
    ensures Strip(Spelled(ps) + last, mask) == Strip(Joined(TokensIn(ps)), mask)
  {
    hide Strip, AllWhite, IsToken;
    if ps == [] {
      assert Spelled(ps) + last == last + [];
      WhiteGoes(last, [], mask);
    } else {
      var p, rest := ps[0], ps[1..];
      assert TokensIn(ps)[0] == p.token && TokensIn(ps)[1..] == TokensIn(rest);
      assert forall x :: x in TokensIn(rest) ==> x in TokensIn(ps);
      StripSpelled(rest, last, mask);
      assert Spelled(ps) + last == p.pad + (p.token + (Spelled(rest) + last));
      WhiteGoes(p.pad, p.token + (Spelled(rest) + last), mask);
      StripToken(p.token, Spelled(rest) + last, Joined(TokensIn(rest)), mask);
    }
  }

  /** A document parses to the same tree whatever white space is between its tokens and behind them. */
  lemma SpacedDocument(v: Value, ps: seq<Piece>, last: Bytes)
    requires IsContainer(v) && GoodNumbers(v)
    requires TokensIn(ps) == Tokens(v) && WhitePads(ps) && AllWhite(last)
    ensures ParseDocument(Spelled(ps) + last) == Parsed(Erase(v))
  {
    hide Strip, ParseStripped, SkipComments, GoodNumbers, Tokens, Text, Erase;
    TokensAre(v);
    StripSpelled(ps, last, true);
    TokensJoin(v);
    ParseUndoesWrite(Node([], v));
    assert Compact(Node([], v)) == Text(v, false);
  }

  // ---- The layout of the formatted print

  /** A line feed and n tabs. */
  function Line(n: nat): Bytes {
    [10 as char] + seq(n, _ => 9 as char)
  }

  lemma {:induction false} TabsAre(n: nat)
    ensures NewLine(n) == Line(n)
  {
    if n == 0 {
      assert Tabs(0) == [];
    } else {
      TabsAre(n - 1);
      assert Tabs(n) == [9 as char] + Tabs(n - 1);
      assert Tabs(n - 1) == NewLine(n - 1)[1..] == Line(n - 1)[1..] == seq(n - 1, _ => 9 as char);
    }
  }

  /** Each child on a line of its own, a tab further in than its container; the closing bracket back on the level of
      the container; spaces around a colon, none before a comma, nothing inside an empty container. */
  function Pieces(v: Value, indent: nat, lead: Bytes): seq<Piece>
    decreases v, 1
  {
    match v
    case Arr(items) =>
      [Piece(lead, ['['])] + ChildPieces(items, true, indent + 1) + [Piece(if items == [] then [] else Line(indent), [']'])]
    case Obj(members) =>
      [Piece(lead, ['{'])] + ChildPieces(members, false, indent + 1) + [Piece(if members == [] then [] else Line(indent), ['}'])]
    case _ => [Piece(lead, Text(v, false))]
  }

  function ChildPieces(ns: seq<Node>, inArray: bool, indent: nat): seq<Piece>
    decreases ns, 0
  {
    if ns == [] then []
    else
      (if inArray then Pieces(ns[0].value, indent, Line(indent))
       else [Piece(Line(indent), Quoted(ns[0].name, false)), Piece([' '], [':'])] + Pieces(ns[0].value, indent, [' ']))
      + (if |ns| == 1 then [] else [Piece([], [','])] + ChildPieces(ns[1..], inArray, indent))
  }

  lemma {:induction false} SpelledConcat(a: seq<Piece>, b: seq<Piece>)
    ensures Spelled(a + b) == Spelled(a) + Spelled(b)
  {
    if a == [] {
      assert a + b == b;
    } else {
      assert (a + b)[1..] == a[1..] + b;
      SpelledConcat(a[1..], b);
    }
  }

  lemma SpelledOne(p: Piece)
    ensures Spelled([p]) == p.pad + p.token
  {
    assert Spelled([]) == [] && [p][1..] == [];
  }

  lemma TokensInConcat(a: seq<Piece>, b: seq<Piece>)
    ensures TokensIn(a + b) == TokensIn(a) + TokensIn(b)
  {
  }

  lemma WhiteConcat(a: seq<Piece>, b: seq<Piece>)
    requires WhitePads(a) && WhitePads(b)
    ensures WhitePads(a + b)
  {
    hide AllWhite;
  }

  lemma WhiteLine(n: nat)
    ensures AllWhite(Line(n)) && AllWhite([]) && AllWhite([' '])
  {
  }

  /** The formatted print is laid out like that, and its tokens are those of the compact one. */
  lemma {:induction false} FormattedLayout(v: Value, indent: nat, lead: Bytes)
    requires AllWhite(lead)
    ensures Spelled(Pieces(v, indent, lead)) == lead + FormattedText(v, indent)
    ensures TokensIn(Pieces(v, indent, lead)) == Tokens(v) && WhitePads(Pieces(v, indent, lead))
    decreases v, 1
  {
    hide Spelled, TokensIn, AllWhite, Line, Text, WhitePads;
    match v
    case Arr(items) => ChildrenLayout(items, true, indent + 1); ContainerLayout('[', items, true, ']', indent, lead);
    case Obj(members) => ChildrenLayout(members, false, indent + 1); ContainerLayout('{', members, false, '}', indent, lead);
    case _ => OnePiece(Piece(lead, Text(v, false)));
  }

  lemma OnePiece(p: Piece)
    requires AllWhite(p.pad)
    ensures Spelled([p]) == p.pad + p.token && TokensIn([p]) == [p.token] && WhitePads([p])
  {
    SpelledOne(p);
  }

  lemma Appended(a: seq<Piece>, b: seq<Piece>)
    requires WhitePads(a) && WhitePads(b)
    ensures Spelled(a + b) == Spelled(a) + Spelled(b) && TokensIn(a + b) == TokensIn(a) + TokensIn(b) && WhitePads(a + b)
  {
    hide Spelled, TokensIn, WhitePads;
    SpelledConcat(a, b);
    TokensInConcat(a, b);
    WhiteConcat(a, b);
  }

  lemma ContainerLayout(l: Octet, ns: seq<Node>, inArray: bool, r: Octet, indent: nat, lead: Bytes)
    requires AllWhite(lead)
    requires var k := ChildPieces(ns, inArray, indent + 1);
             Spelled(k) == FormattedJoin(ns, inArray, indent + 1) && TokensIn(k) == TokensOfAll(ns, inArray) && WhitePads(k)
    ensures var ps := [Piece(lead, [l])] + ChildPieces(ns, inArray, indent + 1) + [Piece(if ns == [] then [] else Line(indent), [r])];
            && Spelled(ps) == lead + ([l] + FormattedAll(ns, inArray, indent) + [r])
            && TokensIn(ps) == [[l]] + TokensOfAll(ns, inArray) + [[r]]
            && WhitePads(ps)
  {
    hide Spelled, TokensIn, AllWhite, Line, WhitePads, FormattedJoin, ChildPieces, TokensOfAll;
    var a, k, b := [Piece(lead, [l])], ChildPieces(ns, inArray, indent + 1), [Piece(if ns == [] then [] else Line(indent), [r])];
    WhiteLine(indent);
    TabsAre(indent);
    OnePiece(a[0]);
    OnePiece(b[0]);
    Appended(a, k);
    Appended(a + k, b);
    var j, line := FormattedJoin(ns, inArray, indent + 1), if ns == [] then [] else Line(indent);
    if ns == [] { NothingJoined(inArray, indent + 1); }
    assert FormattedAll(ns, inArray, indent) == j + line;
    BracketsRegrouped(lead, [l], j, line, [r]);
  }

  lemma BracketsRegrouped(lead: Bytes, l: Bytes, j: Bytes, line: Bytes, r: Bytes)
    ensures lead + l + j + (line + r) == lead + (l + (j + line) + r)
  {
  }

  lemma NothingJoined(inArray: bool, indent: nat)
    ensures FormattedJoin([], inArray, indent) == []
  {
  }

  lemma {:induction false} ChildrenLayout(ns: seq<Node>, inArray: bool, indent: nat)
    ensures Spelled(ChildPieces(ns, inArray, indent)) == FormattedJoin(ns, inArray, indent)
    ensures TokensIn(ChildPieces(ns, inArray, indent)) == TokensOfAll(ns, inArray) && WhitePads(ChildPieces(ns, inArray, indent))
    decreases ns, 0
  {
    hide AllWhite, Line, Text, Pieces, Tokens, FormattedText, Quoted;
    if ns != [] {
      hide Spelled, TokensIn, WhitePads;
      var v, c := ns[0].value, FirstPieces(ns[0], inArray, indent);
      var more := if |ns| == 1 then [] else [Piece([], [','])] + ChildPieces(ns[1..], inArray, indent);
      FirstLayout(ns[0], inArray, indent);
      ChildrenLayout(ns[1..], inArray, indent);
      CommaLayout(ns, inArray, indent);
      Appended(c, more);
    }
  }

  function FirstPieces(n: Node, inArray: bool, indent: nat): seq<Piece> {
    if inArray then Pieces(n.value, indent, Line(indent))
    else [Piece(Line(indent), Quoted(n.name, false)), Piece([' '], [':'])] + Pieces(n.value, indent, [' '])
  }

  lemma {:induction false} FirstLayout(n: Node, inArray: bool, indent: nat)
    ensures Spelled(FirstPieces(n, inArray, indent)) == NewLine(indent) + FormattedChild(n, inArray, indent)
    ensures TokensIn(FirstPieces(n, inArray, indent)) == (if inArray then [] else [Quoted(n.name, false), [':']]) + Tokens(n.value)
    ensures WhitePads(FirstPieces(n, inArray, indent))
    decreases n, 2
  {
    hide Spelled, TokensIn, AllWhite, Line, Text, Pieces, Tokens, FormattedText, Quoted, WhitePads, NewLine;
    WhiteLine(indent);
    TabsAre(indent);
    if inArray {
      FormattedLayout(n.value, indent, Line(indent));
    } else {
      var a, b := Piece(Line(indent), Quoted(n.name, false)), Piece([' '], [':']);
      FormattedLayout(n.value, indent, [' ']);
      OnePiece(a);
      OnePiece(b);
      Appended([a], [b]);
      Appended([a] + [b], Pieces(n.value, indent, [' ']));
      assert [a] + [b] == [a, b];
      assert Line(indent) + Quoted(n.name, false) + ([' '] + [':']) + ([' '] + FormattedText(n.value, indent))
          == Line(indent) + (Quoted(n.name, false) + [' ', ':', ' '] + FormattedText(n.value, indent));
    }
  }

  lemma CommaLayout(ns: seq<Node>, inArray: bool, indent: nat)
    requires ns != []
    requires var k := ChildPieces(ns[1..], inArray, indent);
             Spelled(k) == FormattedJoin(ns[1..], inArray, indent) && TokensIn(k) == TokensOfAll(ns[1..], inArray) && WhitePads(k)
    ensures var more := if |ns| == 1 then [] else [Piece([], [','])] + ChildPieces(ns[1..], inArray, indent);
            && Spelled(more) == (if |ns| == 1 then [] else [','] + FormattedJoin(ns[1..], inArray, indent))
            && TokensIn(more) == (if |ns| == 1 then [] else [[',']] + TokensOfAll(ns[1..], inArray))
            && WhitePads(more)
  {
    hide ChildPieces, FormattedJoin, TokensOfAll;
    if |ns| > 1 {
      WhiteLine(0);
      OnePiece(Piece([], [',']));
      Appended([Piece([], [','])], ChildPieces(ns[1..], inArray, indent));
      assert [] + [','] == [','];
    }
  }

  // ---- Line ends of CR and LF

  /** Every line feed with a carriage return before it. */
  function WithCr(t: Bytes): Bytes {
    if t == [] then [] else (if t[0] as int == 10 then [13 as char, 10 as char] else [t[0]]) + WithCr(t[1..])
  }

  lemma {:induction false} WithCrConcat(a: Bytes, b: Bytes)
    ensures WithCr(a + b) == WithCr(a) + WithCr(b)
  {
    if a == [] {
      assert a + b == b;
    } else {
      assert (a + b)[1..] == a[1..] + b;
      WithCrConcat(a[1..], b);
    }
  }

  lemma {:induction false} WithCrAlone(t: Bytes)
    requires forall i :: 0 <= i < |t| ==> t[i] as int != 10
    ensures WithCr(t) == t
  {
    if t != [] { WithCrAlone(t[1..]); assert t == [t[0]] + t[1..]; }
  }

  lemma {:induction false} WithCrWhite(w: Bytes)
    requires AllWhite(w)
    ensures AllWhite(WithCr(w))
  {
    if w != [] {
      forall i | 0 <= i < |w[1..]| ensures White(w[1..][i]) { assert White(w[i + 1]); }
      WithCrWhite(w[1..]);
      assert White(w[0]);
    }
  }

  function WithCrPads(ps: seq<Piece>): (r: seq<Piece>)
    ensures |r| == |ps|
  {
    seq(|ps|, i requires 0 <= i < |ps| => Piece(WithCr(ps[i].pad), ps[i].token))
  }

  lemma TokenHasNoLf(x: Bytes)
    requires IsToken(x)
    ensures WithCr(x) == x
  {
    hide Quoted;
    if s :| x == Quoted(s, false) {
      QuotedHasNoLf(s);
    }
    WithCrAlone(x);
  }

  lemma {:induction false} EscapeHasNoLf(s: Bytes)
    ensures forall i :: 0 <= i < |Escape(s, false)| ==> Escape(s, false)[i] as int != 10
  {
    if s != [] { EscapeHasNoLf(s[1..]); }
  }

  lemma QuotedHasNoLf(s: Bytes)
    ensures forall i :: 0 <= i < |Quoted(s, false)| ==> Quoted(s, false)[i] as int != 10
  {
    EscapeHasNoLf(s);
  }

  lemma {:induction false} WithCrSpelled(ps: seq<Piece>)
    requires forall x :: x in TokensIn(ps) ==> IsToken(x)
    ensures WithCr(Spelled(ps)) == Spelled(WithCrPads(ps))
  {
    hide IsToken, WithCr;
    if ps == [] {
      assert Spelled(ps) == [] && WithCr([]) == [] by { WithCrAlone([]); }
    } else {
      var p, rest := ps[0], ps[1..];
      assert TokensIn(ps)[0] == p.token;
      assert forall x :: x in TokensIn(rest) ==> x in TokensIn(ps) by { assert TokensIn(ps)[1..] == TokensIn(rest); }
      WithCrSpelled(rest);
      assert WithCrPads(ps)[1..] == WithCrPads(rest);
      WithCrConcat(p.pad + p.token, Spelled(rest));
      WithCrConcat(p.pad, p.token);
      TokenHasNoLf(p.token);
    }
  }

  /** The formatted print with line ends of CR and LF parses to the same tree as with LF. */
  lemma FormattedWithCr(n: Node)
    requires IsContainer(n.value) && GoodNumbers(n.value)
    ensures ParseDocument(WithCr(Formatted(n))) == Parsed(Erase(n.value))
  {
    hide ParseDocument, Pieces, Tokens, AllWhite, IsToken, Spelled, GoodNumbers, Erase, FormattedText, WithCr;
    var ps := Pieces(n.value, 0, []);
    assert AllWhite([]) by { WhiteLine(0); }
    FormattedLayout(n.value, 0, []);
    assert Formatted(n) == Spelled(ps);
    TokensAre(n.value);
    WithCrSpelled(ps);
    var cr := WithCrPads(ps);
    assert TokensIn(cr) == TokensIn(ps);
    forall i | 0 <= i < |cr| ensures AllWhite(cr[i].pad) { WithCrWhite(ps[i].pad); }
    SpacedDocument(n.value, cr, []);
    assert Spelled(cr) + [] == Spelled(cr);
  }
}
