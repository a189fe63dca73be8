/** private_RemoveWhiteSpace, and what it makes of the two prints. */
module JsonStrip {
  import opened Options
  import opened JsonEscape
  import opened JsonNumber
  import opened JsonTree

  predicate IsSpace(c: Octet) { c == ' ' || c == '\t' || c == '\n' || c == '\r' }

  /** The text inside quotes, up to and with the closing quote: output and what follows.
      None when the code would read past the end. A text that ends inside quotes is cut off there. */
  datatype InQuotes = Closed(output: Bytes, rest: Bytes) | Cut(output: Bytes) | PastEnd

  function Emit(out: Bytes, q: InQuotes): InQuotes {
    match q
    case Closed(o, r) => Closed(out + o, r)
    case Cut(o) => Cut(out + o)
    case PastEnd => PastEnd
  }

  function StripQuotes(t: Bytes, mask: bool): (q: InQuotes)
    ensures q.Closed? ==> |q.rest| < |t|
    decreases |t|
  {
    if t == [] then Cut([])
    else if t[0] == '"' then Closed(['"'], t[1..])
    else if t[0] == '\\' then
      if |t| < 2 then PastEnd
      else Emit(['\\', if mask && t[1] == '"' then MASKED else t[1]], StripQuotes(t[2..], mask))
    else Emit([t[0]], StripQuotes(t[1..], mask))
  }

  const COMMENT_MARK: Octet := '#'

  /** A comment to the end of its line, with the mark put behind it. At the end of the text the code would
      step over the end. */
  function LineComment(t: Bytes): (q: InQuotes)
    ensures q.Closed? ==> |q.rest| < |t|
    ensures !q.Cut?
    decreases |t|
  {
    if t == [] then PastEnd
    else if t[0] == '\n' then Closed([COMMENT_MARK], t[1..])
    else Emit([t[0]], LineComment(t[1..]))
  }

  /** A comment to the next star and slash; one that is not closed ends the text. */
  function BlockComment(t: Bytes): (q: InQuotes)
    ensures q.Closed? ==> |q.rest| < |t|
    decreases |t|
  {
    if t == [] then Cut([COMMENT_MARK])
    else if t[0] == '*' && |t| > 1 && t[1] == '/' then Closed([COMMENT_MARK], t[2..])
    else Emit([t[0]], BlockComment(t[1..]))
  }

  predicate StartsComment(t: Bytes) {
    t != [] && (t[0] == '#' || (t[0] == '/' && |t| > 1 && (t[1] == '*' || t[1] == '/')))
  }

  /** The comment at the start of t. */
  function Comment(t: Bytes): (q: InQuotes)
    requires StartsComment(t)
    ensures q.Closed? ==> |q.rest| < |t|
  {
    if t[0] == '#' then LineComment(t[1..])
    else if t[1] == '*' then BlockComment(t[2..])
    else LineComment(t[2..])
  }

  /** Text opened by c, given what the rest strips to. */
  function Opened(c: Octet, q: InQuotes, tail: Option<Bytes>): Option<Bytes> {
    match q
    case Closed(o, _) => Prefix([c] + o, tail)
    case Cut(o) => Some([c] + o)
    case PastEnd => None
  }

  /** Outside quotes. Comments are kept between marks. None: the code would read past the end. A byte that is
      not allowed outside quotes, or a slash that starts no comment, ends the text there. */
  function Strip(t: Bytes, mask: bool): Option<Bytes>
    decreases |t|
  {
    if t == [] then Some([])
    else if IsSpace(t[0]) then Strip(t[1..], mask)
    else if t[0] == '/' || t[0] == '#' then
      if !StartsComment(t) then Some([])
      else
        var q := Comment(t);
        Opened(COMMENT_MARK, q, if q.Closed? then Strip(q.rest, mask) else None)
    else if t[0] == '"' then
      var q := StripQuotes(t[1..], mask);
      Opened('"', q, if q.Closed? then Strip(q.rest, mask) else None)
    else if 32 <= t[0] as int <= 126 then Prefix([t[0]], Strip(t[1..], mask))
    else Some([])
  }

  /** SingleLineComment: from the last byte of what starts the comment to the end of the line; p is |value| if
      there is none. */
  method SingleLineComment(value: Bytes, start: nat, output: Bytes) returns (p: nat, out: Bytes)
    requires start < |value|
    ensures start < p <= |value|
    ensures match LineComment(value[start + 1..])
            case PastEnd => p == |value|
            case Closed(o, rest) => p < |value| && out == output + ([COMMENT_MARK] + o) && rest == value[p + 1..]
            case Cut(_) => false
  {
    ghost var q, o: Bytes := LineComment(value[start + 1..]), [];
    out := output + [COMMENT_MARK];
    assert [COMMENT_MARK] + o == [COMMENT_MARK];
    EmitTwice([], [], q);
    p := start + 1;
    while p < |value| && value[p] != '\n'
      invariant start < p <= |value| && out == output + ([COMMENT_MARK] + o)
      invariant q == Emit(o, LineComment(value[p..]))
    {
      assert value[p..][1..] == value[p + 1..];
      EmitTwice(o, [value[p]], LineComment(value[p + 1..]));
      out, o := out + [value[p]], o + [value[p]];
      p := p + 1;
    }
    out := out + [COMMENT_MARK];
    if p < |value| { assert value[p..][1..] == value[p + 1..]; }
  }

  /** The loop for a comment between slashes and stars, from its first star; p is |value| if it is not closed,
      and else is at its last byte. */
  method MultiLineComment(value: Bytes, start: nat, output: Bytes) returns (p: nat, out: Bytes)
    requires start < |value|
    ensures start < p <= |value|
    ensures match BlockComment(value[start + 1..])
            case PastEnd => false
            case Closed(o, rest) => p < |value| && out == output + ([COMMENT_MARK] + o) && rest == value[p + 1..]
            case Cut(o) => p == |value| && out == output + ([COMMENT_MARK] + o)
  {
    ghost var q, o: Bytes := BlockComment(value[start + 1..]), [];
    out := output + [COMMENT_MARK];
    assert [COMMENT_MARK] + o == [COMMENT_MARK];
    EmitTwice([], [], q);
    p := start + 1;
    while p < |value| && !(value[p] == '*' && p + 1 < |value| && value[p + 1] == '/')
      invariant start < p <= |value| && out == output + ([COMMENT_MARK] + o)
      invariant q == Emit(o, BlockComment(value[p..]))
    {
      assert value[p..][1..] == value[p + 1..];
      EmitTwice(o, [value[p]], BlockComment(value[p + 1..]));
      out, o := out + [value[p]], o + [value[p]];
      p := p + 1;
    }
    out := out + [COMMENT_MARK];
    if p < |value| {
      assert value[p..][2..] == value[p + 2..];
      p := p + 1;
    }
  }

  /** The cases of a slash and of a number sign. ends: the text ends here. */
  method CommentText(value: Bytes, start: nat, output: Bytes) returns (p: nat, out: Bytes, ends: bool)
    requires start < |value| && (value[start] == '/' || value[start] == '#')
    ensures if !StartsComment(value[start..]) then ends && out == output
            else match Comment(value[start..])
                 case PastEnd => !ends && p == |value|
                 case Closed(o, rest) =>
                   !ends && start < p < |value| && out == output + ([COMMENT_MARK] + o) && rest == value[p + 1..]
                 case Cut(o) => ends && out == output + ([COMMENT_MARK] + o)
  {
    hide LineComment, BlockComment;
    CommentAt(value, start);
    p, out, ends := start, output, false;
    if value[p] == '#' {
      p, out := SingleLineComment(value, p, out);
    } else if p + 1 < |value| && value[p + 1] == '*' {
      p, out := MultiLineComment(value, p + 1, out);
      ends := p == |value|;
    } else if p + 1 < |value| && value[p + 1] == '/' {
      p, out := SingleLineComment(value, p + 1, out);
    } else {
      ends := true;
    }
  }

  /** The loop for quoted text; p is beyond |value| if the code would read past the end. */
  method QuotedText(value: Bytes, start: nat, escapeQuotes: bool, output: Bytes) returns (p: nat, out: Bytes)
    requires start < |value|
    ensures start < p
    ensures match StripQuotes(value[start + 1..], escapeQuotes)
            case PastEnd => p > |value|
            case Closed(o, rest) => p < |value| && out == output + (['"'] + o) && rest == value[p + 1..]
            case Cut(o) => p == |value| && out == output + (['"'] + o)
  {
    hide StripQuotes;
    ghost var q, o: Bytes := StripQuotes(value[start + 1..], escapeQuotes), [];
    out := output + ['"'];
    assert ['"'] + o == ['"'];
    EmitTwice([], [], q);
    p := start + 1;
    while p < |value| && value[p] != '"'
      invariant start < p <= |value| && out == output + (['"'] + o)
      invariant q == Emit(o, StripQuotes(value[p..], escapeQuotes))
    {
      QuotesAt(value, p, escapeQuotes);
      if value[p] == '\\' {
        p := p + 1;
        if p == |value| {
          return p + 1, out;
        }
        var e := if escapeQuotes && value[p] == '"' then MASKED else value[p];
        EmitTwice(o, ['\\', e], StripQuotes(value[p + 1..], escapeQuotes));
        out, o := out + ['\\', e], o + ['\\', e];
      } else {
        EmitTwice(o, [value[p]], StripQuotes(value[p + 1..], escapeQuotes));
        out, o := out + [value[p]], o + [value[p]];
      }
      p := p + 1;
    }
    QuotesEnd(value, p, escapeQuotes);
    assert o + [] == o;
    if p < |value| {
      out := out + ['"'];
      assert out == output + (['"'] + (o + ['"']));
    }
  }

  /** private_RemoveWhiteSpace: a moving pointer and an output buffer. */
  method RemoveWhiteSpace(value: Bytes, escapeQuotes: bool) returns (result: Option<Bytes>)
    ensures result == Strip(value, escapeQuotes)
  {
    hide Strip, StripQuotes, Comment, StartsComment;
    var out: Bytes := [];
    var p := 0;
    assert value[0..] == value;
    PrefixTwice([], [], Strip(value, escapeQuotes));
    while p < |value|
      invariant p <= |value|
      invariant Strip(value, escapeQuotes) == Prefix(out, Strip(value[p..], escapeQuotes))
    {
      StripAt(value, p, escapeQuotes, out);
      ghost var at, out0 := p, out;
      var c := value[p];
      if c == ' ' || c == '\t' || c == '\n' || c == '\r' {
        p := p + 1;
      } else if c == '/' || c == '#' {
        var ends;
        p, out, ends := CommentText(value, p, out);
        assert out0 + [] == out0;
        if ends {
          return Some(out);
        }
        if p == |value| {
          return None;
        }
        PrefixTwice(out0, [COMMENT_MARK] + Comment(value[at..]).output, Strip(value[p + 1..], escapeQuotes));
        p := p + 1;
      } else if c == '"' {
        p, out := QuotedText(value, p, escapeQuotes, out);
        if p > |value| {
          return None;
        }
        if p == |value| {
          return Some(out);
        }
        PrefixTwice(out0, ['"'] + StripQuotes(value[at + 1..], escapeQuotes).output, Strip(value[p + 1..], escapeQuotes));
        p := p + 1;
      } else if 32 <= c as int <= 126 {
        PrefixTwice(out, [c], Strip(value[p + 1..], escapeQuotes));
        out := out + [c];
        p := p + 1;
      } else {
        assert out + [] == out;
        return Some(out);
      }
    }
    StripEnd(value, escapeQuotes);
    assert out + [] == out;
    result := Some(out);
  }

  lemma EmitTwice(a: Bytes, b: Bytes, q: InQuotes)
    ensures Emit(a, Emit(b, q)) == Emit(a + b, q) && Emit([], q) == q
  {
    match q
    case Closed(o, r) => assert a + (b + o) == a + b + o && [] + o == o;
    case Cut(o) => assert a + (b + o) == a + b + o && [] + o == o;
    case PastEnd =>
  }

  lemma StripEnd(t: Bytes, mask: bool)
    ensures Strip(t[|t|..], mask) == Some([])
  {
  }

  lemma StripAt(t: Bytes, p: nat, mask: bool, out: Bytes)
    requires p < |t|
    ensures var c, s := t[p], Strip(t[p..], mask);
            if IsSpace(c) then s == Strip(t[p + 1..], mask)
            else if c == '/' || c == '#' then
              if !StartsComment(t[p..]) then s == Some([])
              else
                var q := Comment(t[p..]);
                s == Opened(COMMENT_MARK, q, if q.Closed? then Strip(q.rest, mask) else None)
            else if c == '"' then
              var q := StripQuotes(t[p + 1..], mask);
              s == Opened('"', q, if q.Closed? then Strip(q.rest, mask) else None)
            else if 32 <= c as int <= 126 then s == Prefix([c], Strip(t[p + 1..], mask))
            else s == Some([])
  {
    assert t[p..][1..] == t[p + 1..];
  }

  lemma CommentAt(t: Bytes, p: nat)
    requires p < |t|
    ensures StartsComment(t[p..])
       <==> t[p] == '#' || (t[p] == '/' && p + 1 < |t| && (t[p + 1] == '*' || t[p + 1] == '/'))
    ensures StartsComment(t[p..]) ==>
              Comment(t[p..]) == (if t[p] == '#' then LineComment(t[p + 1..])
                                  else if t[p + 1] == '*' then BlockComment(t[p + 2..])
                                  else LineComment(t[p + 2..]))
  {
    assert t[p..][1..] == t[p + 1..];
    if p + 1 < |t| { assert t[p..][2..] == t[p + 2..]; }
  }

  lemma QuotesAt(t: Bytes, p: nat, mask: bool)
    requires p < |t| && t[p] != '"'
    ensures var q := StripQuotes(t[p..], mask);
            if t[p] != '\\' then q == Emit([t[p]], StripQuotes(t[p + 1..], mask))
            else if p + 1 == |t| then q == PastEnd
            else q == Emit(['\\', if mask && t[p + 1] == '"' then MASKED else t[p + 1]], StripQuotes(t[p + 2..], mask))
  {
    assert t[p..][1..] == t[p + 1..];
    if p + 1 < |t| { assert t[p..][2..] == t[p + 2..]; }
  }

  lemma QuotesEnd(t: Bytes, p: nat, mask: bool)
    requires p <= |t| && (p < |t| ==> t[p] == '"')
    ensures StripQuotes(t[p..], mask) == if p == |t| then Cut([]) else Closed(['"'], t[p + 1..])
  {
    if p < |t| { assert t[p..][1..] == t[p + 1..]; }
  }

  // ---- Tokens

  lemma {:induction false} StripSpaces(w: Bytes, mask: bool, rest: Bytes)
    requires forall i :: 0 <= i < |w| ==> IsSpace(w[i])
    ensures Strip(w + rest, mask) == Strip(rest, mask)
  {
    if w == [] {
      assert w + rest == rest;
    } else {
      assert (w + rest)[1..] == w[1..] + rest && (w + rest)[0] == w[0];
      StripSpaces(w[1..], mask, rest);
    }
  }

  /** Bytes that pass the stripper unchanged outside quotes. */
  predicate Visible(c: Octet) {
    33 <= c as int <= 126 && c != '"' && c != '/' && c != '#'
  }

  lemma {:induction false} StripVisible(w: Bytes, mask: bool, rest: Bytes)
    requires forall i :: 0 <= i < |w| ==> Visible(w[i])
    ensures Strip(w + rest, mask) == Prefix(w, Strip(rest, mask))
  {
    if w == [] {
      assert w + rest == rest;
      PrefixTwice([], [], Strip(rest, mask));
    } else {
      assert (w + rest)[1..] == w[1..] + rest && (w + rest)[0] == w[0];
      forall i | 0 <= i < |w[1..]| ensures Visible(w[1..][i]) { assert Visible(w[i + 1]); }
      StripVisible(w[1..], mask, rest);
      PrefixTwice([w[0]], w[1..], Strip(rest, mask));
      assert [w[0]] + w[1..] == w;
    }
  }

  lemma PlainIsVisible(w: Bytes)
    requires AllPlain(w)
    ensures forall i :: 0 <= i < |w| ==> Visible(w[i])
  {
    forall i | 0 <= i < |w| ensures Visible(w[i]) { assert Plain(w[i]); }
  }

  lemma {:induction false} QuotesQuiet(w: Bytes, mask: bool, rest: Bytes)
    requires forall i :: 0 <= i < |w| ==> w[i] != '"' && w[i] != '\\'
    ensures StripQuotes(w + rest, mask) == Emit(w, StripQuotes(rest, mask))
  {
    if w == [] {
      assert w + rest == rest;
      EmitTwice([], [], StripQuotes(rest, mask));
    } else {
      assert (w + rest)[1..] == w[1..] + rest && (w + rest)[0] == w[0];
      QuotesQuiet(w[1..], mask, rest);
      EmitTwice([w[0]], w[1..], StripQuotes(rest, mask));
      assert [w[0]] + w[1..] == w;
    }
  }

  lemma QuotesPair(b: Octet, mask: bool, rest: Bytes)
    ensures StripQuotes(['\\', b] + rest, mask) == Emit(['\\', if mask && b == '"' then MASKED else b], StripQuotes(rest, mask))
  {
    assert (['\\', b] + rest)[2..] == rest;
  }

  /** An escape is one byte, or a backslash, one byte, and bytes that mean nothing inside quotes. */
  lemma EscapeShape(c: Octet, mask: bool)
    ensures var e := EscapeChar(c, false);
            if |e| == 1 then EscapeChar(c, mask) == e && e[0] != '"' && e[0] != '\\'
            else
              && |e| >= 2 && e[0] == '\\' && (forall i :: 0 <= i < |e[2..]| ==> e[2..][i] != '"' && e[2..][i] != '\\')
              && EscapeChar(c, mask) == ['\\', if mask && e[1] == '"' then MASKED else e[1]] + e[2..]
  {
  }

  /** One escaped byte inside quotes: exactly the quote is masked. */
  lemma StripEscapeChar(c: Octet, mask: bool, rest: Bytes)
    ensures StripQuotes(EscapeChar(c, false) + rest, mask) == Emit(EscapeChar(c, mask), StripQuotes(rest, mask))
  {
    hide EscapeChar, StripQuotes, Emit;
    EscapeShape(c, mask);
    var e := EscapeChar(c, false);
    if |e| == 1 {
      QuotesQuiet(e, mask, rest);
    } else {
      var m: Bytes := ['\\', if mask && e[1] == '"' then MASKED else e[1]];
      assert e + rest == ['\\', e[1]] + (e[2..] + rest);
      QuotesPair(e[1], mask, e[2..] + rest);
      QuotesQuiet(e[2..], mask, rest);
      EmitTwice(m, e[2..], StripQuotes(rest, mask));
    }
  }

  lemma {:induction false} StripEscape(s: Bytes, mask: bool, rest: Bytes)
    ensures StripQuotes(Escape(s, false) + (['"'] + rest), mask) == Closed(Escape(s, mask) + ['"'], rest)
  {
    hide EscapeChar;
    var tail := ['"'] + rest;
    if s == [] {
      assert Escape(s, false) + tail == tail && tail[1..] == rest;
      assert Escape(s, mask) + ['"'] == ['"'];
    } else {
      var e, r := EscapeChar(s[0], false), Escape(s[1..], false);
      assert Escape(s, false) + tail == e + (r + tail);
      StripEscapeChar(s[0], mask, r + tail);
      StripEscape(s[1..], mask, rest);
      assert EscapeChar(s[0], mask) + (Escape(s[1..], mask) + ['"']) == Escape(s, mask) + ['"'];
    }
  }

  lemma StripQuoted(s: Bytes, mask: bool, rest: Bytes)
    ensures Strip(Quoted(s, false) + rest, mask) == Prefix(Quoted(s, mask), Strip(rest, mask))
  {
    var t := Quoted(s, false) + rest;
    assert t[0] == '"' && t[1..] == Escape(s, false) + (['"'] + rest);
    StripEscape(s, mask, rest);
    assert ['"'] + (Escape(s, mask) + ['"']) == Quoted(s, mask);
  }

  // ---- Whole prints

  lemma {:induction false} TabsAreSpaces(n: nat)
    ensures forall i :: 0 <= i < |Tabs(n)| ==> IsSpace(Tabs(n)[i])
  {
    if n > 0 { TabsAreSpaces(n - 1); }
  }

  lemma StripNewLine(n: nat, mask: bool, rest: Bytes)
    ensures Strip(NewLine(n) + rest, mask) == Strip(rest, mask)
  {
    TabsAreSpaces(n);
    StripSpaces(NewLine(n), mask, rest);
  }

  lemma StripByte(c: Octet, mask: bool, rest: Bytes)
    requires Visible(c)
    ensures Strip([c] + rest, mask) == Prefix([c], Strip(rest, mask))
  {
    StripVisible([c], mask, rest);
  }

  /** The children of a container, without their last line break. */
  function JoinText(ns: seq<Node>, inArray: bool, indent: int): Bytes
    requires indent >= COMPACT
  {
    if indent == COMPACT then Join(ns, inArray, false) else FormattedJoin(ns, inArray, indent)
  }

  lemma {:induction false} StripText(v: Value, indent: int, mask: bool, rest: Bytes)
    requires indent >= COMPACT && GoodNumbers(v)
    ensures Strip(NodeText(v, indent) + rest, mask) == Prefix(Text(v, mask), Strip(rest, mask))
    decreases v, 1
  {
    match v
    case Str(s) => StripQuoted(s, mask, rest);
    case Num(text) => NumericIsPlain(text); PlainIsVisible(text); StripVisible(text, mask, rest);
    case Bool(b) => StripVisible(Text(v, mask), mask, rest);
    case Null => StripVisible(NULL, mask, rest);
    case Arr(items) => StripChildren(items, true, '[', ']', indent, mask, rest);
    case Obj(members) => StripChildren(members, false, '{', '}', indent, mask, rest);
  }

  lemma {:induction false} StripChildren(ns: seq<Node>, inArray: bool, l: Octet, r: Octet, indent: int, mask: bool, rest: Bytes)
    requires indent >= COMPACT && (forall n :: n in ns ==> GoodNumbers(n.value)) && Visible(l) && Visible(r)
    ensures Strip([l] + ChildrenText(ns, inArray, indent) + [r] + rest, mask)
            == Prefix([l] + Join(ns, inArray, mask) + [r], Strip(rest, mask))
    decreases ns, 1
  {
    hide Join, FormattedJoin, NewLine, Strip, Prefix;
    var c, j := ChildrenText(ns, inArray, indent), Join(ns, inArray, mask);
    var tail := [r] + rest;
    assert [l] + c + [r] + rest == [l] + (c + tail);
    StripByte(l, mask, c + tail);
    StripByte(r, mask, rest);
    if ns == [] {
      NoChildren(inArray, indent);
      assert c + tail == tail;
      assert j == [] by { JoinNothing(inArray, mask); }
      PrefixTwice([l], [r], Strip(rest, mask));
      assert [l] + j + [r] == [l] + [r];
    } else {
      var inner := if indent == COMPACT then COMPACT else indent + 1;
      var nl := if indent == COMPACT then [] else NewLine(indent);
      assert c + tail == JoinText(ns, inArray, inner) + (nl + tail) by { ChildrenSplit(ns, inArray, indent); }
      StripJoin(ns, inArray, inner, mask, nl + tail);
      if indent == COMPACT { assert nl + tail == tail; } else { StripNewLine(indent, mask, tail); }
      PrefixTwice(j, [r], Strip(rest, mask));
      PrefixTwice([l], j + [r], Strip(rest, mask));
      assert [l] + (j + [r]) == [l] + j + [r];
    }
  }

  lemma JoinNothing(inArray: bool, mask: bool)
    ensures Join([], inArray, mask) == []
  {
  }

  lemma ChildrenSplit(ns: seq<Node>, inArray: bool, indent: int)
    requires indent >= COMPACT && ns != []
    ensures ChildrenText(ns, inArray, indent)
            == JoinText(ns, inArray, if indent == COMPACT then COMPACT else indent + 1)
               + (if indent == COMPACT then [] else NewLine(indent))
  {
  }

  /** A list of children, taken apart at its first comma. */
  lemma JoinSplit(ns: seq<Node>, inArray: bool, indent: int, mask: bool, rest: Bytes)
    requires indent >= COMPACT && ns != []
    ensures var nl := if indent == COMPACT then [] else NewLine(indent);
            var c := ChildText(ns[0], inArray, indent);
            JoinText(ns, inArray, indent) + rest
            == if |ns| == 1 then nl + (c + rest) else nl + (c + ([','] + (JoinText(ns[1..], inArray, indent) + rest)))
    ensures var c := Child(ns[0], inArray, mask);
            Join(ns, inArray, mask) == if |ns| == 1 then c else c + ([','] + Join(ns[1..], inArray, mask))
  {
    hide NewLine, Child, FormattedChild;
  }

  /** A child on its own line, or not. */
  lemma {:induction false} StripPiece(n: Node, inArray: bool, indent: int, mask: bool, rest: Bytes)
    requires indent >= COMPACT && GoodNumbers(n.value)
    ensures Strip((if indent == COMPACT then [] else NewLine(indent)) + (ChildText(n, inArray, indent) + rest), mask)
            == Prefix(Child(n, inArray, mask), Strip(rest, mask))
    decreases n, 3
  {
    hide Strip, Prefix, NewLine, ChildText, Child, GoodNumbers;
    var t := ChildText(n, inArray, indent) + rest;
    StripChild(n, inArray, indent, mask, rest);
    if indent == COMPACT { assert [] + t == t; } else { StripNewLine(indent, mask, t); }
  }

  lemma PrefixTriple(c: Bytes, j: Bytes, s: Option<Bytes>)
    ensures Prefix(c, Prefix([','], Prefix(j, s))) == Prefix(c + ([','] + j), s)
  {
    hide Prefix;
    PrefixTwice([','], j, s);
    PrefixTwice(c, [','] + j, s);
  }

  lemma {:induction false} StripJoin(ns: seq<Node>, inArray: bool, indent: int, mask: bool, rest: Bytes)
    requires indent >= COMPACT && forall n :: n in ns ==> GoodNumbers(n.value)
    ensures Strip(JoinText(ns, inArray, indent) + rest, mask) == Prefix(Join(ns, inArray, mask), Strip(rest, mask))
    decreases ns, 0
  {
    if ns == [] {
      assert JoinText(ns, inArray, indent) + rest == rest;
      PrefixTwice([], [], Strip(rest, mask));
    } else {
      hide Strip, Prefix, NewLine, JoinText, Join, ChildText, Child, GoodNumbers;
      assert forall n :: n in ns[1..] ==> n in ns;
      JoinSplit(ns, inArray, indent, mask, rest);
      if |ns| == 1 {
        StripPiece(ns[0], inArray, indent, mask, rest);
      } else {
        var c, j, after := Child(ns[0], inArray, mask), Join(ns[1..], inArray, mask), JoinText(ns[1..], inArray, indent) + rest;
        StripPiece(ns[0], inArray, indent, mask, [','] + after);
        StripByte(',', mask, after);
        StripJoin(ns[1..], inArray, indent, mask, rest);
        PrefixTriple(c, j, Strip(rest, mask));
      }
    }
  }

  /** A child, taken apart into name, colon and value. */
  lemma ChildSplit(n: Node, inArray: bool, indent: int, mask: bool, rest: Bytes)
    requires indent >= COMPACT
    ensures ChildText(n, inArray, indent) + rest
            == if inArray then NodeText(n.value, indent) + rest
               else Quoted(n.name, false)
                    + ((if indent == COMPACT then [':'] else [' ', ':', ' ']) + (NodeText(n.value, indent) + rest))
    ensures Child(n, inArray, mask)
            == if inArray then Text(n.value, mask) else Quoted(n.name, mask) + ([':'] + Text(n.value, mask))
  {
    hide Text, FormattedText, Quoted;
  }

  /** The colon of a member, in either print. */
  lemma StripColon(indent: int, mask: bool, rest: Bytes)
    requires indent >= COMPACT
    ensures Strip((if indent == COMPACT then [':'] else [' ', ':', ' ']) + rest, mask) == Prefix([':'], Strip(rest, mask))
  {
    hide Strip, Prefix;
    StripByte(':', mask, rest);
    if indent != COMPACT {
      StripSpaces([' '], mask, rest);
      StripByte(':', mask, [' '] + rest);
      StripSpaces([' '], mask, [':'] + ([' '] + rest));
      assert [' ', ':', ' '] + rest == [' '] + ([':'] + ([' '] + rest));
    }
  }

  lemma {:induction false} StripChild(n: Node, inArray: bool, indent: int, mask: bool, rest: Bytes)
    requires indent >= COMPACT && GoodNumbers(n.value)
    ensures Strip(ChildText(n, inArray, indent) + rest, mask) == Prefix(Child(n, inArray, mask), Strip(rest, mask))
    decreases n, 2
  {
    hide Strip, Prefix, Text, NodeText, Quoted, ChildText, Child;
    var x, t := NodeText(n.value, indent), Text(n.value, mask);
    ChildSplit(n, inArray, indent, mask, rest);
    StripText(n.value, indent, mask, rest);
    if !inArray {
      StripColon(indent, mask, x + rest);
      StripQuoted(n.name, mask, (if indent == COMPACT then [':'] else [' ', ':', ' ']) + (x + rest));
      PrefixTwice([':'], t, Strip(rest, mask));
      PrefixTwice(Quoted(n.name, mask), [':'] + t, Strip(rest, mask));
    }
  }

  /** Stripping the formatted print gives exactly the compact print. */
  lemma StripFormatted(n: Node)
    requires GoodNumbers(n.value)
    ensures Strip(Formatted(n), false) == Some(Compact(n))
  {
    StripChild(n, true, 0, false, []);
    assert Formatted(n) + [] == Formatted(n) && Compact(n) + [] == Compact(n);
  }

  /** Stripping the compact print changes nothing. */
  lemma StripCompact(n: Node)
    requires GoodNumbers(n.value)
    ensures Strip(Compact(n), false) == Some(Compact(n))
  {
    StripChild(n, true, COMPACT, false, []);
    assert Compact(n) + [] == Compact(n);
  }

  /** What the parser is handed, from either print. */
  lemma StripForParsing(n: Node)
    requires GoodNumbers(n.value)
    ensures Strip(Compact(n), true) == Some(Text(n.value, true)) == Strip(Formatted(n), true)
  {
    StripChild(n, true, COMPACT, true, []);
    StripChild(n, true, 0, true, []);
    assert Formatted(n) + [] == Formatted(n) && Compact(n) + [] == Compact(n);
    assert Child(n, true, true) + [] == Text(n.value, true);
  }
}
