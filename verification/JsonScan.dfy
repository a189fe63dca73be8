/** FindNextRelevant: the scanner that steps over quotes and brackets. What it finds is described by the
    rest of the text from there on. */
module JsonScan {
  import opened Options
  import opened JsonEscape
  import opened JsonNumber
  import opened JsonTree

  /** The byte at index i, or the terminating NUL. */
  function ByteAt(t: Bytes, i: nat): Octet {
    if i < |t| then t[i] else NUL
  }

  /** Past the next quote; None at a NUL or at the end. */
  function AfterQuote(t: Bytes): (r: Option<Bytes>)
    ensures r.Some? ==> |r.value| < |t|
    decreases |t|
  {
    if t == [] || t[0] == NUL then None
    else if t[0] == '"' then Some(t[1..])
    else AfterQuote(t[1..])
  }

  /** BRACKET: past the bracket r that closes depth open ones. Quotes are stepped over; only l and r count. */
  function AfterBracket(t: Bytes, l: Octet, r: Octet, depth: nat): (q: Option<Bytes>)
    requires depth >= 1
    ensures q.Some? ==> |q.value| < |t|
    decreases |t|
  {
    if t == [] || t[0] == NUL then None
    else if t[0] == r then (if depth == 1 then Some(t[1..]) else AfterBracket(t[1..], l, r, depth - 1))
    else if t[0] == l then AfterBracket(t[1..], l, r, depth + 1)
    else if t[0] == '"' then
      var q := AfterQuote(t[1..]);
      if q.None? then None else AfterBracket(q.value, l, r, depth)
    else AfterBracket(t[1..], l, r, depth)
  }

  /** FindNextRelevant from the start of t: the rest that starts with ch. */
  function Find(ch: Octet, t: Bytes): (r: Option<Bytes>)
    ensures r.Some? ==> |r.value| <= |t| && r.value != [] && r.value[0] == ch
    decreases |t|
  {
    if t == [] then None
    else if t[0] == ch then Some(t)
    else if t[0] == '[' then
      var q := AfterBracket(t[1..], '[', ']', 1);
      if q.None? then None else Find(ch, q.value)
    else if t[0] == '{' then
      var q := AfterBracket(t[1..], '{', '}', 1);
      if q.None? then None else Find(ch, q.value)
    else if t[0] == ']' || t[0] == '}' then None
    else if t[0] == '"' then
      var q := AfterQuote(t[1..]);
      if q.None? then None else Find(ch, q.value)
    else Find(ch, t[1..])
  }

  const NPOS: int := -1

  /** The position a rest stands for. */
  function PosOf(t: Bytes, r: Option<Bytes>): int {
    match r case None => NPOS case Some(rest) => |t| - |rest|
  }

  // ---- The loops of the code

  /** QUOTECASE: from a quote at p to the next one. */
  method SkipQuotes(t: Bytes, start: nat) returns (p: int)
    requires start < |t|
    ensures match AfterQuote(t[start + 1..])
            case None => p == NPOS
            case Some(rest) => start < p < |t| && rest == t[p + 1..]
  {
    p := start + 1;
    while ByteAt(t, p) != '"'
      invariant start < p <= |t|
      invariant AfterQuote(t[start + 1..]) == AfterQuote(t[p..])
      decreases |t| - p
    {
      if ByteAt(t, p) == NUL {
        return NPOS;
      }
      assert t[p..][1..] == t[p + 1..];
      p := p + 1;
    }
    assert t[p..][1..] == t[p + 1..];
  }

  /** BRACKET: from the bracket l at p to the one that closes it. */
  method SkipBracket(t: Bytes, start: nat, l: Octet, r: Octet) returns (p: int)
    requires start < |t| && l != r && l != '"' && r != '"' && l != NUL && r != NUL
    ensures match AfterBracket(t[start + 1..], l, r, 1)
            case None => p == NPOS
            case Some(rest) => start < p < |t| && rest == t[p + 1..]
  {
    p := start;
    var brac := 1;
    assert |t[start + 1..]| == |t| - start - 1;
    while brac != 0
      invariant start <= p < |t| && brac >= 0
      invariant brac > 0 ==> AfterBracket(t[start + 1..], l, r, 1) == AfterBracket(t[p + 1..], l, r, brac)
      invariant brac == 0 ==> start < p && AfterBracket(t[start + 1..], l, r, 1) == Some(t[p + 1..])
      decreases |t| - p, brac
    {
      p := p + 1;
      var c := ByteAt(t, p);
      if c == NUL {
        return NPOS;
      }
      assert t[p..][1..] == t[p + 1..];
      if c == r {
        brac := brac - 1;
      } else if c == l {
        brac := brac + 1;
      } else if c == '"' {
        p := SkipQuotes(t, p);
        if p == NPOS {
          return;
        }
      }
    }
  }

  method FindNextRelevant(ch: Octet, value: Bytes, pos: nat) returns (p: int)
    requires pos <= |value|
    ensures p == PosOf(value, Find(ch, value[pos..]))
    ensures p == NPOS || (pos <= p < |value| && value[p..] == Find(ch, value[pos..]).value)
  {
    p := pos;
    while p < |value|
      invariant pos <= p <= |value|
      invariant Find(ch, value[pos..]) == Find(ch, value[p..])
    {
      var c := value[p];
      assert value[p..][1..] == value[p + 1..];
      if c == ch {
        return;
      }
      if c == '[' {
        p := SkipBracket(value, p, '[', ']');
        if p == NPOS { return; }
      } else if c == '{' {
        p := SkipBracket(value, p, '{', '}');
        if p == NPOS { return; }
      } else if c == ']' || c == '}' {
        return NPOS;
      } else if c == '"' {
        p := SkipQuotes(value, p);
        if p == NPOS { return; }
      }
      p := p + 1;
    }
    p := NPOS;
  }

  // ---- The scanner on printed text

  lemma {:induction false} QuietPassesQuote(w: Bytes, rest: Bytes)
    requires AllQuiet(w)
    ensures AfterQuote(w + (['"'] + rest)) == Some(rest)
  {
    var t := w + (['"'] + rest);
    if w == [] {
      assert t == ['"'] + rest && t[1..] == rest;
    } else {
      assert t[1..] == w[1..] + (['"'] + rest) && t[0] == w[0] && Quiet(w[0]);
      forall i | 0 <= i < |w[1..]| ensures Quiet(w[1..][i]) { assert Quiet(w[i + 1]); }
      QuietPassesQuote(w[1..], rest);
    }
  }

  /** A quoted string is stepped over as a whole. */
  lemma QuotedPasses(s: Bytes, rest: Bytes)
    ensures var t := Quoted(s, true) + rest; t[0] == '"' && AfterQuote(t[1..]) == Some(rest)
  {
    var t := Quoted(s, true) + rest;
    EscapedIsQuiet(s);
    assert t[1..] == Escape(s, true) + (['"'] + rest);
    QuietPassesQuote(Escape(s, true), rest);
  }

  /** A bracket pair of the scanner. */
  predicate Pair(l: Octet, r: Octet) {
    (l == '[' && r == ']') || (l == '{' && r == '}')
  }

  lemma {:induction false} PlainInBracket(w: Bytes, l: Octet, r: Octet, depth: nat, rest: Bytes)
    requires (forall i :: 0 <= i < |w| ==> Plain(w[i]) || w[i] == ',' || w[i] == ':') && Pair(l, r) && depth >= 1
    ensures AfterBracket(w + rest, l, r, depth) == AfterBracket(rest, l, r, depth)
  {
    if w == [] {
      assert w + rest == rest;
    } else {
      assert (w + rest)[1..] == w[1..] + rest && (w + rest)[0] == w[0];
      forall i | 0 <= i < |w[1..]| ensures Plain(w[1..][i]) || w[1..][i] == ',' || w[1..][i] == ':' {
        assert w[1..][i] == w[i + 1];
      }
      PlainInBracket(w[1..], l, r, depth, rest);
    }
  }

  lemma QuotedInBracket(s: Bytes, l: Octet, r: Octet, depth: nat, rest: Bytes)
    requires Pair(l, r) && depth >= 1
    ensures AfterBracket(Quoted(s, true) + rest, l, r, depth) == AfterBracket(rest, l, r, depth)
  {
    QuotedPasses(s, rest);
  }

  /** Inside brackets the print of a whole value leaves the depth as it was. */
  lemma {:induction false} TextInBracket(v: Value, l: Octet, r: Octet, depth: nat, rest: Bytes)
    requires GoodNumbers(v) && Pair(l, r) && depth >= 1
    ensures AfterBracket(Text(v, true) + rest, l, r, depth) == AfterBracket(rest, l, r, depth)
    decreases v, 1
  {
    match v
    case Str(s) => QuotedInBracket(s, l, r, depth, rest);
    case Num(text) => NumericIsPlain(text); PlainInBracket(text, l, r, depth, rest);
    case Bool(b) => PlainInBracket(Text(v, true), l, r, depth, rest);
    case Null => PlainInBracket(NULL, l, r, depth, rest);
    case Arr(items) => NestedInBracket(items, true, '[', ']', l, r, depth, rest);
    case Obj(members) => NestedInBracket(members, false, '{', '}', l, r, depth, rest);
  }

  /** One byte that is a bracket. */
  lemma BracketStep(c: Octet, l: Octet, r: Octet, depth: nat, rest: Bytes)
    requires Pair(l, r) && depth >= 1 && (c == '[' || c == ']' || c == '{' || c == '}')
    ensures AfterBracket([c] + rest, l, r, depth)
            == if c == l then AfterBracket(rest, l, r, depth + 1)
               else if c == r then (if depth == 1 then Some(rest) else AfterBracket(rest, l, r, depth - 1))
               else AfterBracket(rest, l, r, depth)
  {
    assert ([c] + rest)[1..] == rest;
  }

  lemma {:induction false} NestedInBracket(ns: seq<Node>, inArray: bool, a: Octet, b: Octet, l: Octet, r: Octet, depth: nat, rest: Bytes)
    requires (forall n :: n in ns ==> GoodNumbers(n.value)) && Pair(a, b) && Pair(l, r) && depth >= 1
    ensures AfterBracket([a] + Join(ns, inArray, true) + [b] + rest, l, r, depth) == AfterBracket(rest, l, r, depth)
    decreases ns, 1
  {
    hide AfterBracket, Join;
    var j, tail := Join(ns, inArray, true), [b] + rest;
    assert [a] + j + [b] + rest == [a] + (j + tail);
    var inner := if a == l then depth + 1 else depth;
    BracketStep(a, l, r, depth, j + tail);
    JoinInBracket(ns, inArray, l, r, inner, tail);
    BracketStep(b, l, r, inner, rest);
  }

  lemma {:induction false} JoinInBracket(ns: seq<Node>, inArray: bool, l: Octet, r: Octet, depth: nat, rest: Bytes)
    requires (forall n :: n in ns ==> GoodNumbers(n.value)) && Pair(l, r) && depth >= 1
    ensures AfterBracket(Join(ns, inArray, true) + rest, l, r, depth) == AfterBracket(rest, l, r, depth)
    decreases ns, 0
  {
    hide AfterBracket, Child, GoodNumbers;
    if ns == [] {
      assert Join(ns, inArray, true) + rest == rest;
    } else {
      assert forall n :: n in ns[1..] ==> n in ns;
      var c, j := Child(ns[0], inArray, true), Join(ns[1..], inArray, true);
      if |ns| == 1 {
        assert Join(ns, inArray, true) + rest == c + rest;
        ChildInBracket(ns[0], inArray, l, r, depth, rest);
      } else {
        assert Join(ns, inArray, true) + rest == c + ([','] + (j + rest));
        ChildInBracket(ns[0], inArray, l, r, depth, [','] + (j + rest));
        PlainInBracket([','], l, r, depth, j + rest);
        JoinInBracket(ns[1..], inArray, l, r, depth, rest);
      }
    }
  }

  lemma {:induction false} ChildInBracket(n: Node, inArray: bool, l: Octet, r: Octet, depth: nat, rest: Bytes)
    requires GoodNumbers(n.value) && Pair(l, r) && depth >= 1
    ensures AfterBracket(Child(n, inArray, true) + rest, l, r, depth) == AfterBracket(rest, l, r, depth)
    decreases n, 2
  {
    hide AfterBracket, Quoted, Text;
    var t := Text(n.value, true);
    TextInBracket(n.value, l, r, depth, rest);
    if inArray {
      assert Child(n, inArray, true) + rest == t + rest;
    } else {
      assert Child(n, inArray, true) + rest == Quoted(n.name, true) + ([':'] + (t + rest));
      QuotedInBracket(n.name, l, r, depth, [':'] + (t + rest));
      PlainInBracket([':'], l, r, depth, t + rest);
    }
  }

  lemma {:induction false} FindPassesPlain(ch: Octet, w: Bytes, rest: Bytes)
    requires AllPlain(w) && !Plain(ch)
    ensures Find(ch, w + rest) == Find(ch, rest)
  {
    if w == [] {
      assert w + rest == rest;
    } else {
      assert (w + rest)[1..] == w[1..] + rest && (w + rest)[0] == w[0];
      forall i | 0 <= i < |w[1..]| ensures Plain(w[1..][i]) { assert Plain(w[i + 1]); }
      FindPassesPlain(ch, w[1..], rest);
    }
  }

  predicate Separator(ch: Octet) { ch == ',' || ch == ':' }

  lemma FindPassesQuoted(ch: Octet, s: Bytes, rest: Bytes)
    requires Separator(ch)
    ensures Find(ch, Quoted(s, true) + rest) == Find(ch, rest)
  {
    QuotedPasses(s, rest);
  }

  /** The scanner steps over a whole value: it lands on the first separator after it, never inside. */
  lemma FindPassesText(ch: Octet, v: Value, rest: Bytes)
    requires GoodNumbers(v) && Separator(ch)
    ensures Find(ch, Text(v, true) + rest) == Find(ch, rest)
  {
    match v
    case Str(s) => FindPassesQuoted(ch, s, rest);
    case Num(text) => NumericIsPlain(text); FindPassesPlain(ch, text, rest);
    case Bool(b) => FindPassesPlain(ch, Text(v, true), rest);
    case Null => FindPassesPlain(ch, NULL, rest);
    case Arr(items) => FindPassesNested(ch, items, true, '[', ']', rest);
    case Obj(members) => FindPassesNested(ch, members, false, '{', '}', rest);
  }

  lemma FindPassesNested(ch: Octet, ns: seq<Node>, inArray: bool, a: Octet, b: Octet, rest: Bytes)
    requires (forall n :: n in ns ==> GoodNumbers(n.value)) && Pair(a, b) && Separator(ch)
    ensures Find(ch, [a] + Join(ns, inArray, true) + [b] + rest) == Find(ch, rest)
  {
    var t, j := [a] + Join(ns, inArray, true) + [b] + rest, Join(ns, inArray, true);
    assert t[0] == a && t[1..] == j + ([b] + rest);
    JoinInBracket(ns, inArray, a, b, 1, [b] + rest);
    BracketStep(b, a, b, 1, rest);
  }

  /** At a separator, and at the end of a container. */
  lemma FindHere(ch: Octet, c: Octet, rest: Bytes)
    requires Separator(ch)
    ensures c == ch ==> Find(ch, [c] + rest) == Some([c] + rest)
    ensures c == ']' || c == '}' ==> Find(ch, [c] + rest) == None
    ensures Find(ch, []) == None
  {
  }
}
