/** Names that do not come back: what the parser makes of a fetched member whose name, written as it is, holds a
    backslash or a NUL. */
module JsonNames {
  import opened Options
  import opened JsonEscape
  import opened JsonNumber
  import opened JsonTree
  import opened JsonStrip
  import opened JsonScan
  import opened JsonParse
  import opened JsonLazy
  import opened JsonRewrite
  import opened JsonReparse

  // ---- Inside the quotes

  /** The last backslash has no byte behind it. */
  predicate Lone(s: Bytes)
    decreases |s|
  {
    s != [] && if s[0] != '\\' then Lone(s[1..]) else |s| == 1 || Lone(s[2..])
  }

  /** A name without a quote, its closing quote, and what follows: a lone backslash takes the quote along. */
  lemma {:induction false} StripName(s: Bytes, t: Bytes)
    requires '"' !in s
    ensures StripQuotes(s + (['"'] + t), true)
            == if Lone(s) then Emit(s + [MASKED], StripQuotes(t, true)) else Closed(s + ['"'], t)
    decreases |s|
  {
    hide Emit, StripQuotes;
    var w := s + (['"'] + t);
    assert w[0..] == w;
    if s == [] {
      assert w == ['"'] + t && s + ['"'] == ['"'] && w[1..] == t;
      QuotesEnd(w, 0, true);
    } else {
      QuotesAt(w, 0, true);
      var n := if s[0] != '\\' then 1 else 2;
      if n <= |s| {
        Dropped(s, ['"'] + t, n);
        StripName(s[n..], t);
        Emitted(s[..n], s[n..], t);
        assert s[..n] + s[n..] == s;
        assert s[..n] == if n == 1 then [s[0]] else ['\\', s[1]];
      } else {
        assert w[2..] == t && w[1] == '"';
        assert ['\\', MASKED] == s + [MASKED];
      }
    }
  }

  lemma Dropped(a: Bytes, b: Bytes, n: nat)
    requires n <= |a| + |b|
    ensures (a + b)[n..] == if n <= |a| then a[n..] + b else b[n - |a|..]
  {
  }

  lemma Emitted(a: Bytes, s: Bytes, t: Bytes)
    ensures Emit(a, Emit(s + [MASKED], StripQuotes(t, true))) == Emit(a + s + [MASKED], StripQuotes(t, true))
    ensures Emit(a, Closed(s + ['"'], t)) == Closed(a + s + ['"'], t)
  {
    hide StripQuotes;
    EmitTwice(a, s + [MASKED], StripQuotes(t, true));
    assert a + (s + [MASKED]) == a + s + [MASKED] && a + (s + ['"']) == a + s + ['"'];
  }

  // ---- What is written behind the name

  /** No backslash before the first quote. */
  predicate Calm(t: Bytes) {
    t == [] || t[0] == '"' || (t[0] != '\\' && Calm(t[1..]))
  }

  lemma {:induction false} CalmConcat(a: Bytes, b: Bytes)
    requires Calm(a) && Calm(b)
    ensures Calm(a + b)
  {
    if a == [] {
      assert a + b == b;
    } else if a[0] != '"' {
      CalmConcat(a[1..], b);
      assert (a + b)[1..] == a[1..] + b;
    }
  }

  lemma {:induction false} CalmIfNone(t: Bytes)
    requires '\\' !in t
    ensures Calm(t)
  {
    if t != [] { CalmIfNone(t[1..]); }
  }

  lemma PlainIsCalm(t: Bytes)
    requires AllPlain(t)
    ensures Calm(t)
  {
    forall c | c in t ensures c != '\\' {
      var i :| 0 <= i < |t| && t[i] == c;
      assert Plain(t[i]);
    }
    CalmIfNone(t);
  }

  lemma CalmBytes(c: Octet)
    requires c != '\\'
    ensures Calm([c])
  {
    CalmIfNone([c]);
  }

  lemma {:induction false} CalmText(v: Value)
    requires GoodNumbers(v)
    ensures Calm(Text(v, false))
    decreases v, 1
  {
    hide IsNumeric;
    match v
    case Str(s) =>
    case Num(text) => NumericIsPlain(text); PlainIsCalm(text);
    case Bool(b) => PlainIsCalm(Text(v, false));
    case Null => PlainIsCalm(NULL);
    case Arr(items) => CalmJoin(items, true); CalmBetween('[', Join(items, true, false), ']');
    case Obj(members) => CalmJoin(members, false); CalmBetween('{', Join(members, false, false), '}');
  }

  lemma CalmBetween(a: Octet, t: Bytes, b: Octet)
    requires a != '\\' && b != '\\' && Calm(t)
    ensures Calm([a] + t + [b])
  {
    CalmBytes(a);
    CalmBytes(b);
    CalmConcat([a], t);
    CalmConcat([a] + t, [b]);
  }

  lemma {:induction false} CalmJoin(ns: seq<Node>, inArray: bool)
    requires forall n :: n in ns ==> GoodNumbers(n.value)
    ensures Calm(Join(ns, inArray, false))
    decreases ns, 0
  {
    hide GoodNumbers, Text, Escape;
    if ns != [] {
      CalmText(ns[0].value);
      var c := Child(ns[0], inArray, false);
      assert Calm(c) by { if inArray { assert c == [] + Text(ns[0].value, false) == Text(ns[0].value, false); } }
      assert forall n :: n in ns[1..] ==> n in ns;
      CalmJoin(ns[1..], inArray);
      CalmSequel(c, Join(ns[1..], inArray, false));
    }
  }

  lemma CalmSequel(c: Bytes, j: Bytes)
    requires Calm(c) && Calm(j)
    ensures Calm(c + []) && Calm(c + ([','] + j))
  {
    CalmBytes(',');
    CalmConcat([','], j);
    CalmConcat(c, [','] + j);
    assert c + [] == c;
  }

  lemma {:induction false} CalmLazy(l: LValue, v: Value)
    requires Rep(l, v) && GoodNumbers(v)
    ensures Calm(LText(l))
    decreases l, 1
  {
    hide RepAll, GoodNumbers, Calm, LJoin, Text;
    match l
    case LArr(items) => KidsGood(v); CalmLJoin(items, v.items, true); CalmBetween('[', LJoin(items, true), ']');
    case LObj(members) => KidsGood(v); CalmLJoin(members, v.members, false); CalmBetween('{', LJoin(members, false), '}');
    case _ => CalmText(v); WrittenWhole(l, v);
  }

  lemma KidsGood(v: Value)
    requires GoodNumbers(v)
    ensures v.Arr? ==> forall n :: n in v.items ==> GoodNumbers(n.value)
    ensures v.Obj? ==> forall n :: n in v.members ==> GoodNumbers(n.value)
  {
  }

  lemma WrittenWhole(l: LValue, v: Value)
    requires Rep(l, v) && GoodNumbers(v) && !l.LArr? && !l.LObj?
    ensures LText(l) == Text(v, false)
  {
    hide Rep, GoodNumbers, LText, Text;
    TextOfRep(l, v);
  }

  lemma {:induction false} CalmLJoin(ls: seq<Lazy>, ns: seq<Node>, inArray: bool)
    requires RepAll(ls, ns, inArray) && forall n :: n in ns ==> GoodNumbers(n.value)
    ensures Calm(LJoin(ls, inArray))
    decreases ls, 0
  {
    hide GoodNumbers, LText, Rep;
    if ls != [] {
      assert ns[0] in ns;
      CalmLazy(ls[0].value, ns[0].value);
      var c := LChild(ls[0], inArray);
      assert Calm(c) by { if inArray { assert c == [] + LText(ls[0].value) == LText(ls[0].value); } }
      assert forall n :: n in ns[1..] ==> n in ns;
      CalmLJoin(ls[1..], ns[1..], inArray);
      CalmSequel(c, LJoin(ls[1..], inArray));
    }
  }

  /** Calm text inside quotes: up to the first quote nothing changes. */
  lemma {:induction false} CalmQuotes(t: Bytes) returns (v: Bytes)
    requires Calm(t)
    ensures '"' !in v && '\\' !in v && (t != [] && t[0] != '"' ==> v != [] && v[0] == t[0])
    ensures match StripQuotes(t, true)
            case Closed(o, _) => o == v + ['"']
            case Cut(o) => o == v
            case PastEnd => false
  {
    v := [];
    if t != [] && t[0] != '"' {
      var u := CalmQuotes(t[1..]);
      v := [t[0]] + u;
      assert [t[0]] + (u + ['"']) == v + ['"'];
    } else {
      assert v + ['"'] == ['"'];
    }
  }

  // ---- Unescaping

  lemma {:induction false} FixShrinks(t: Bytes)
    ensures Fix(t).Some? ==> |Fix(t).value| <= |t| && ('\\' in t ==> |Fix(t).value| < |t|)
    decreases |t|
  {
    hide Special;
    if t != [] {
      FixAt(t, 0);
      assert t[0..] == t;
      if t[0] != '\\' {
        FixShrinks(t[1..]);
      } else if Special(t[1..]).Some? {
        FixShrinks(t[1 + Special(t[1..]).value.1..]);
      }
    }
  }

  lemma {:induction false} FixPlain(p: Bytes, w: Bytes)
    requires '\\' !in p
    ensures Fix(p + w) == Prefix(p, Fix(w))
  {
    if p == [] {
      assert p + w == w;
      PrefixTwice([], [], Fix(w));
    } else {
      assert (p + w)[1..] == p[1..] + w;
      FixPlain(p[1..], w);
      PrefixTwice([p[0]], p[1..], Fix(w));
      assert [p[0]] + p[1..] == p;
    }
  }

  lemma Unchanged(w: Bytes)
    requires '\\' !in w
    ensures Fix(w) == Some(w) && (w != [] ==> w[|w| - 1] != '\\')
  {
    FixPlain(w, []);
    assert w + [] == w;
  }

  /** A quote behind text without a backslash stays. */
  lemma QuoteStays(p: Bytes, x: Bytes)
    requires '\\' !in p
    ensures Fix(p + (['"'] + x)).Some? ==> '"' in Fix(p + (['"'] + x)).value
  {
    FixPlain(p, ['"'] + x);
    assert (['"'] + x)[1..] == x;
    var r := Fix(['"'] + x);
    if r.Some? { assert (p + r.value)[|p|] == '"'; }
  }

  /** What of the text an escape at its start uses, and what it leaves. */
  lemma EscapeAt(t: Bytes)
    requires t != [] && t[0] == '\\' && Special(t[1..]).Some?
    ensures var n := 1 + Special(t[1..]).value.1;
            && 2 <= n <= 6 && n <= |t|
            && (n > 4 ==> t[1] == 'u') && (n > 2 ==> t[1] == 'u' || t[1] == 'x' || '0' <= t[1] <= '7')
            && (t[1] == MASKED ==> Special(t[1..]).value.0 == '"' && n == 2)
            && Fix(t) == Cons(Special(t[1..]).value.0, Fix(t[n..]))
  {
    hide Fix;
    FixAt(t, 0);
    assert t[0..] == t;
  }

  /** An unescaped text that ends in a backslash, though only its part a holds any, is shorter than a, unless
      that is a lone backslash at the end. */
  lemma {:induction false} EndsInBackslash(a: Bytes, v: Bytes, b: Bytes)
    requires '\\' !in v && Fix(a + v) == Some(b) && b != [] && b[|b| - 1] == '\\'
    ensures |b| <= |a| && (|b| == |a| ==> a[|a| - 1] == '\\' && '\\' !in a[..|a| - 1])
    decreases |a|
  {
    hide Special, Fix;
    var t := a + v;
    if a == [] {
      assert t == v;
      Unchanged(v);
    } else if a[0] != '\\' {
      Dropped(a, v, 1);
      ByteAtStart(t);
      var c := Fix(t[1..]).value;
      assert b == [a[0]] + c && c != [] && c[|c| - 1] == b[|b| - 1];
      EndsInBackslash(a[1..], v, c);
      if |b| == |a| { assert a[..|a| - 1] == [a[0]] + a[1..][..|a| - 2]; }
    } else {
      EndsInEscape(a, v, b);
    }
  }

  lemma ByteAtStart(t: Bytes)
    requires t != [] && t[0] != '\\'
    ensures Fix(t) == Cons(t[0], Fix(t[1..]))
  {
  }

  lemma NoEscapeAt(t: Bytes)
    requires t != [] && t[0] == '\\' && Special(t[1..]).None?
    ensures Fix(t) == None
  {
  }

  lemma {:induction false} EndsInEscape(a: Bytes, v: Bytes, b: Bytes)
    requires '\\' !in v && Fix(a + v) == Some(b) && b != [] && b[|b| - 1] == '\\' && a != [] && a[0] == '\\'
    ensures |b| <= |a| && (|b| == |a| ==> a[|a| - 1] == '\\' && '\\' !in a[..|a| - 1])
    decreases |a|, 0
  {
    hide Special, Fix;
    var t := a + v;
    if Special(t[1..]).None? { NoEscapeAt(t); }
    EscapeAt(t);
    var n := 1 + Special(t[1..]).value.1;
    var c := Fix(t[n..]).value;
    assert b == [Special(t[1..]).value.0] + c;
    assert c != [] ==> c[|c| - 1] == b[|b| - 1];
    Dropped(a, v, n);
    if n <= |a| {
      if c != [] { EndsInBackslash(a[n..], v, c); }
    } else {
      Unchanged(v[n - |a|..]);
      if |a| == 1 { assert a[..0] == []; }
    }
  }

  /** The name ends in an escape that would reach three bytes beyond it. */
  predicate EndsInU(s: Bytes) {
    |s| >= 3 && s[|s| - 3..] == ['\\', 'u', '\\']
  }

  /** A lone backslash masks the quote, and one further quote follows: at least one of the two is in the name. */
  lemma {:induction false} SomeQuote(s: Bytes, v: Bytes, x: Bytes)
    requires s == [] || (s[|s| - 1] == '\\' && !EndsInU(s))
    requires v != [] && '\\' !in v
    ensures var t := s + ([MASKED] + v + (['"'] + x)); Fix(t).Some? ==> '"' in Fix(t).value
    decreases |s|, 1
  {
    hide Special, Fix, EndsInU;
    var tail := [MASKED] + v + (['"'] + x);
    var t := s + tail;
    if s == [] {
      assert t == [MASKED] + v + (['"'] + x);
      QuoteStays([MASKED] + v, x);
    } else if s[0] != '\\' {
      Dropped(s, tail, 1);
      ByteAtStart(t);
      FewerBytes(s, 1);
      SomeQuote(s[1..], v, x);
    } else if Special(t[1..]).None? {
      NoEscapeAt(t);
    } else {
      EscapeInName(s, v, x);
    }
  }

  lemma {:induction false} EscapeInName(s: Bytes, v: Bytes, x: Bytes)
    requires s != [] && s[|s| - 1] == '\\' && !EndsInU(s) && s[0] == '\\' && v != [] && '\\' !in v
    requires Special((s + ([MASKED] + v + (['"'] + x)))[1..]).Some?
    ensures var t := s + ([MASKED] + v + (['"'] + x)); Fix(t).Some? ==> '"' in Fix(t).value
    decreases |s|, 0
  {
    hide Special, Fix, EndsInU;
    var tail := [MASKED] + v + (['"'] + x);
    var t := s + tail;
    EscapeAt(t);
    var n := 1 + Special(t[1..]).value.1;
    Dropped(s, tail, n);
    if |s| == 1 {
      assert t[1] == MASKED;
    } else if n <= |s| {
      FewerBytes(s, n);
      SomeQuote(s[n..], v, x);
    } else {
      assert t[1] == s[1];
      Reaches(s, n);
      Dropped([MASKED] + v, ['"'] + x, n - |s|);
      QuoteStays(([MASKED] + v)[n - |s|..], x);
    }
  }

  lemma FewerBytes(s: Bytes, n: nat)
    requires n <= |s| && s != [] && s[|s| - 1] == '\\' && !EndsInU(s)
    ensures s[n..] == [] || (s[n..][|s[n..]| - 1] == '\\' && !EndsInU(s[n..]))
  {
    if |s| - n >= 3 { assert s[n..][|s| - n - 3..] == s[|s| - 3..]; }
  }

  lemma Reaches(s: Bytes, n: nat)
    requires 2 <= |s| < n <= 6 && s[0] == '\\' && s[|s| - 1] == '\\' && !EndsInU(s)
    requires (n > 4 ==> s[1] == 'u') && (n > 2 ==> s[1] == 'u' || s[1] == 'x' || '0' <= s[1] <= '7')
    ensures n - |s| <= 2
  {
    if |s| == 3 { assert s[|s| - 3..] == ['\\', s[1], '\\']; }
  }

  lemma {:induction false} LoneLast(s: Bytes)
    requires Lone(s)
    ensures s != [] && s[|s| - 1] == '\\'
    decreases |s|
  {
    if s[0] != '\\' { LoneLast(s[1..]); } else if |s| > 1 { LoneLast(s[2..]); }
  }

  /** A name with a lone backslash is not what is read where it was written. */
  lemma LoneIsNotRead(s: Bytes, v: Bytes, x: Bytes)
    requires Lone(s) && '"' !in s && !EndsInU(s) && v != [] && '\\' !in v && (x == [] || x[0] == '"')
    ensures Fix(s + ([MASKED] + v + x)) != Some(s)
  {
    hide Fix, Lone, EndsInU;
    LoneLast(s);
    if x != [] {
      SomeQuote(s, v, x[1..]);
      assert ['"'] + x[1..] == x;
    } else {
      assert [MASKED] + v + x == [MASKED] + v;
      OnlyTheQuote(s, v);
    }
  }

  lemma OnlyTheQuote(s: Bytes, v: Bytes)
    requires s != [] && s[|s| - 1] == '\\' && '"' !in s && '\\' !in v
    ensures Fix(s + ([MASKED] + v)) != Some(s)
  {
    hide Fix;
    if Fix(s + ([MASKED] + v)) == Some(s) {
      EndsInBackslash(s, [MASKED] + v, s);
      LastByte(s, v);
      MaskedBehind(s[..|s| - 1], v);
    }
  }

  lemma LastByte(s: Bytes, v: Bytes)
    requires s != [] && s[|s| - 1] == '\\'
    ensures s + ([MASKED] + v) == s[..|s| - 1] + (['\\', MASKED] + v)
  {
  }

  lemma MaskedBehind(p: Bytes, v: Bytes)
    requires '\\' !in p
    ensures var r := Fix(p + (['\\', MASKED] + v)); r.Some? ==> '"' in r.value
  {
    hide Fix;
    FixPlain(p, ['\\', MASKED] + v);
    MaskedQuote(v);
    var r := Fix(['\\', MASKED] + v);
    if r.Some? { assert (p + r.value)[|p|] == '"'; }
  }

  lemma MaskedQuote(v: Bytes)
    ensures Fix(['\\', MASKED] + v).Some? ==> Fix(['\\', MASKED] + v).value != [] && Fix(['\\', MASKED] + v).value[0] == '"'
  {
    var t := ['\\', MASKED] + v;
    assert t[1..][0] == MASKED;
  }

  // ---- Parsing

  /** The first name DoNode finds. */
  lemma FirstName(t: Bytes)
    ensures Members(t).Kids? ==>
              && Find(':', t).Some? && Members(t).ns != []
              && MemberName(t, |t| - |Find(':', t).value|) == Some(Members(t).ns[0].name)
  {
    hide Find, ParseValue, MemberName;
  }

  /** A quote ends text without one, if there is no NUL before it. */
  lemma {:induction false} QuoteEnds(w: Bytes, e: Bytes)
    requires '"' !in w && (e == [] || e[0] == '"')
    ensures AfterQuote(w + e) == if NUL in w || e == [] then None else Some(e[1..])
  {
    var t := w + e;
    if w == [] {
      assert t == e;
    } else {
      assert t[1..] == w[1..] + e;
      if w[0] != NUL { QuoteEnds(w[1..], e); }
    }
  }

  lemma {:induction false} CStringConcat(a: Bytes, b: Bytes)
    requires NUL !in a
    ensures CString(a + b) == a + CString(b)
  {
    if a == [] {
      assert a + b == b;
    } else {
      assert (a + b)[1..] == a[1..] + b;
      CStringConcat(a[1..], b);
    }
  }

  lemma CStringFront(x: Bytes)
    ensures CString(x) == [] || CString(x)[0] == x[0]
  {
  }

  /** Quoted text w, and the first name found from there on. */
  lemma NameFound(w: Bytes, e: Bytes) returns (x: Bytes)
    requires '"' !in w && (e == [] || e[0] == '"')
    requires Members(['"'] + (w + e)).Kids?
    ensures NUL !in w && e != [] && (x == [] || x[0] == '"')
    ensures Members(['"'] + (w + e)).ns != []
    ensures Fix(w + x) == Some(Members(['"'] + (w + e)).ns[0].name)
    ensures Find(':', e[1..]) == Some(e[1..]) ==> x == []
  {
    hide Members, Fix;
    var t := ['"'] + (w + e);
    assert t[1..] == w + e;
    FirstName(t);
    QuoteEnds(w, e);
    var colon := Find(':', t).value;
    assert Find(':', e[1..]) == Some(colon);
    var k := |t| - |colon|;
    var y := e[..k - 2 - |w|];
    assert t[1..k - 1] == w + y;
    CStringConcat(w, y);
    CStringFront(y);
    x := CString(y);
  }

  /** The document does not give an object whose first member has this name. */
  predicate Missing(d: Document, name: Bytes) {
    d.Parsed? && d.value.Obj? && d.value.members != [] ==> d.value.members[0].name != name
  }

  lemma MissingFrom(t: Bytes, name: Bytes)
    requires t != [] && (Members(t).Kids? && Members(t).ns != [] ==> Members(t).ns[0].name != name)
    ensures Missing(ParseStripped(SkipComments(['{'] + t)), name)
  {
    hide Members;
    var s := ['{'] + t;
    assert s[1..] == t && s[0] == '{' && SkipComments(s) == Some(s);
    var k := if |s| <= 2 then Kids([]) else Members(t);
    assert s[|s| - 1] == '}' ==> ParseValue(s) == Container(k, false);
  }

  /** Where the name held a lone backslash. */
  lemma LoneMissing(s: Bytes, v: Bytes, e: Bytes)
    requires Lone(s) && '"' !in s && !EndsInU(s) && v != [] && '\\' !in v && '"' !in v && (e == [] || e[0] == '"')
    ensures Missing(ParseStripped(SkipComments(['{'] + (['"'] + (s + [MASKED] + v + e)))), s)
  {
    hide Members, Fix, ParseStripped, SkipComments, Lone, EndsInU;
    var w := s + [MASKED] + v;
    assert '"' !in w;
    if Members(['"'] + (w + e)).Kids? {
      var x := NameFound(w, e);
      assert w + x == s + ([MASKED] + v + x);
      LoneIsNotRead(s, v, x);
    }
    MissingFrom(['"'] + (w + e), s);
  }

  /** Where its backslashes all had a byte behind them, or there was a NUL. */
  lemma PairedMissing(s: Bytes, e: Bytes)
    requires '"' !in s && ('\\' in s || NUL in s)
    ensures Missing(ParseStripped(SkipComments(['{'] + (['"'] + (s + (['"'] + ([':'] + e)))))), s)
  {
    hide Members, Fix, ParseStripped, SkipComments;
    var q := ['"'] + ([':'] + e);
    assert q[1..] == [':'] + e;
    if Members(['"'] + (s + q)).Kids? {
      FindHere(':', ':', e);
      var x := NameFound(s, q);
      assert s + x == s;
      FixShrinks(s);
    }
    MissingFrom(['"'] + (s + q), s);
  }

  /** An object's text from its first name on. */
  lemma FirstMember(ls: seq<Lazy>) returns (y: Bytes)
    requires ls != []
    ensures LText(LObj(ls)) == ['{'] + (['"'] + (ls[0].name + (['"'] + ([':'] + y))))
    ensures y == LText(ls[0].value) + (if |ls| == 1 then [] else [','] + LJoin(ls[1..], false)) + ['}']
  {
    hide LText;
    var n, t := ls[0].name, LText(ls[0].value);
    var more := if |ls| == 1 then [] else [','] + LJoin(ls[1..], false);
    y := t + more + ['}'];
    FirstChild(ls);
    assert ['"'] + n + ['"', ':'] + t + more + ['}'] == ['"'] + (n + (['"'] + ([':'] + (t + more + ['}']))));
  }

  lemma FirstChild(ls: seq<Lazy>)
    requires ls != []
    ensures LText(LObj(ls)) == ['{'] + (['"'] + ls[0].name + ['"', ':'] + LText(ls[0].value)
                                        + (if |ls| == 1 then [] else [','] + LJoin(ls[1..], false)) + ['}'])
  {
    hide LJoin;
    LJoinFront(ls);
    assert LText(LObj(ls)) == ['{'] + LJoin(ls, false) + ['}'];
  }

  lemma LJoinFront(ls: seq<Lazy>)
    requires ls != []
    ensures LJoin(ls, false) == ['"'] + ls[0].name + ['"', ':'] + LText(ls[0].value)
                                + (if |ls| == 1 then [] else [','] + LJoin(ls[1..], false))
  {
    hide LText;
  }

  lemma StripOpen(t: Bytes)
    ensures Strip(['{'] + (['"'] + t), true)
            == Prefix(['{'], Opened('"', StripQuotes(t, true),
                                    if StripQuotes(t, true).Closed? then Strip(StripQuotes(t, true).rest, true) else None))
  {
    hide StripQuotes;
    StripByte('{', true, ['"'] + t);
    assert (['"'] + t)[1..] == t;
  }

  /** A first name without a quote, but with a backslash or a NUL, is gone whatever follows it. */
  lemma TextMissing(s: Bytes, y: Bytes)
    requires '"' !in s && ('\\' in s || NUL in s) && !EndsInU(s) && Calm([':'] + y)
    ensures Missing(ParseDocument(['{'] + (['"'] + (s + (['"'] + ([':'] + y))))), s)
  {
    hide Strip, StripQuotes, ParseStripped, SkipComments, Lone, Calm, EndsInU;
    var t := s + (['"'] + ([':'] + y));
    StripOpen(t);
    StripName(s, [':'] + y);
    if Lone(s) {
      var v := CalmQuotes([':'] + y);
      LoneText(s, y, v);
    } else {
      PairedText(s, y);
    }
  }

  lemma LoneText(s: Bytes, y: Bytes, v: Bytes)
    requires '"' !in s && !EndsInU(s) && Lone(s) && v != [] && '"' !in v && '\\' !in v
    requires match StripQuotes([':'] + y, true)
             case Closed(o, _) => o == v + ['"']
             case Cut(o) => o == v
             case PastEnd => false
    ensures var q := Emit(s + [MASKED], StripQuotes([':'] + y, true));
            var r := Prefix(['{'], Opened('"', q, if q.Closed? then Strip(q.rest, true) else None));
            r.Some? ==> Missing(ParseStripped(SkipComments(r.value)), s)
  {
    hide Strip, StripQuotes, ParseStripped, SkipComments, Lone, EndsInU, Missing;
    var q := StripQuotes([':'] + y, true);
    if q.Cut? {
      LoneMissing(s, v, []);
      assert s + [MASKED] + v + [] == s + [MASKED] + v;
    } else if Strip(q.rest, true).Some? {
      var z := Strip(q.rest, true).value;
      LoneMissing(s, v, ['"'] + z);
      assert ['{'] + (['"'] + (s + [MASKED] + (v + ['"'])) + z) == ['{'] + (['"'] + (s + [MASKED] + v + (['"'] + z)));
    }
  }

  lemma PairedText(s: Bytes, y: Bytes)
    requires '"' !in s && ('\\' in s || NUL in s)
    ensures var r := Prefix(['{'], Opened('"', Closed(s + ['"'], [':'] + y), Strip([':'] + y, true)));
            r.Some? ==> Missing(ParseStripped(SkipComments(r.value)), s)
  {
    hide Strip, ParseStripped, SkipComments, Missing;
    StripByte(':', true, y);
    if Strip(y, true).Some? {
      var z := Strip(y, true).value;
      PairedMissing(s, z);
      assert ['{'] + (['"'] + (s + ['"']) + ([':'] + z)) == ['{'] + (['"'] + (s + (['"'] + ([':'] + z))));
    }
  }

  /** A fetched object whose first member has a name without a quote, but with a backslash or a NUL, does not come
      back. Left open: a name that ends in the three bytes of EndsInU. */
  lemma UnsafeNameIsLost(l: LValue, v: Value)
    requires l.LObj? && l.members != [] && Rep(l, v) && GoodNumbers(v)
    requires var s := l.members[0].name; '"' !in s && !SafeName(s) && !EndsInU(s)
    ensures ParseDocument(LText(l)) != Parsed(Erase(v))
  {
    hide LText, ParseDocument, LJoin, EndsInU, Calm;
    var ls, s := l.members, l.members[0].name;
    var y := FirstMember(ls);
    KidsGood(v);
    CalmLazy(ls[0].value, v.members[0].value);
    CalmLJoin(ls[1..], v.members[1..], false);
    CalmTail(ls, y);
    TextMissing(s, y);
    ErasedFirst(v);
  }

  lemma CalmTail(ls: seq<Lazy>, y: Bytes)
    requires ls != [] && Calm(LText(ls[0].value)) && Calm(LJoin(ls[1..], false))
    requires y == LText(ls[0].value) + (if |ls| == 1 then [] else [','] + LJoin(ls[1..], false)) + ['}']
    ensures Calm([':'] + y)
  {
    hide LText, LJoin, Calm;
    var t, more := LText(ls[0].value), if |ls| == 1 then [] else [','] + LJoin(ls[1..], false);
    CalmSequel(t, LJoin(ls[1..], false));
    CalmBetween(':', t + more, '}');
    assert [':'] + (t + more) + ['}'] == [':'] + y;
  }

  lemma ErasedFirst(v: Value)
    requires v.Obj? && v.members != []
    ensures Erase(v).Obj? && Erase(v).members != [] && Erase(v).members[0].name == v.members[0].name
  {
  }

  /** With all other fetched names safe, and no quote in the first, the text comes back exactly if that one is safe too. */
  lemma FirstNameExactly(l: LValue, v: Value)
    requires l.LObj? && l.members != [] && Rep(l, v) && GoodNumbers(v)
    requires '"' !in l.members[0].name && !EndsInU(l.members[0].name)
    requires forall i :: 0 <= i < |l.members| ==> FetchedNamesSafe(l.members[i].value) && (i > 0 ==> SafeName(l.members[i].name))
    ensures ParseDocument(LText(l)) == Parsed(Erase(v)) <==> SafeName(l.members[0].name)
  {
    hide LText, ParseDocument, EndsInU, Rep, GoodNumbers, SafeName, Erase;
    if SafeName(l.members[0].name) {
      assert v.Obj? by { ObjectOfRep(l, v); }
      WrittenComesBack(l, v);
    } else {
      UnsafeNameIsLost(l, v);
    }
  }

  lemma ObjectOfRep(l: LValue, v: Value)
    requires l.LObj? && Rep(l, v)
    ensures v.Obj?
  {
  }
}
