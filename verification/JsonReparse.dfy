/** Parsing again what a partly fetched tree is written as, when the names of fetched members, which are
    written as they are, hold no quote, backslash or NUL. */
module JsonReparse {
  import opened Options
  import opened JsonEscape
  import opened JsonNumber
  import opened JsonTree
  import opened JsonStrip
  import opened JsonScan
  import opened JsonParse
  import opened JsonLazy
  import opened JsonRewrite

  predicate SafeName(s: Bytes) {
    forall i :: 0 <= i < |s| ==> s[i] != '"' && s[i] != '\\' && s[i] != NUL
  }

  /** No member of a fetched object has a name with a quote, a backslash or a NUL. */
  ghost predicate FetchedNamesSafe(v: LValue) {
    match v
    case LArr(items) => forall n :: n in items ==> FetchedNamesSafe(n.value)
    case LObj(members) => forall n :: n in members ==> SafeName(n.name) && FetchedNamesSafe(n.value)
    case _ => true
  }

  function RawName(s: Bytes): Bytes { ['"'] + s + ['"'] }

  /** What the stripper makes of LText. */
  function MText(v: LValue): Bytes
    decreases v, 1
  {
    match v
    case Raw(text) => text
    case Literal(text) => text
    case LStr(s, _) => Quoted(s, true)
    case LArr(items) => ['['] + MJoin(items, true) + [']']
    case LObj(members) => ['{'] + MJoin(members, false) + ['}']
  }

  function MChild(n: Lazy, inArray: bool): Bytes
    decreases n, 2
  {
    (if inArray then [] else RawName(n.name) + [':']) + MText(n.value)
  }

  function MJoin(ns: seq<Lazy>, inArray: bool): Bytes
    decreases ns, 0
  {
    if ns == [] then []
    else MChild(ns[0], inArray) + (if |ns| == 1 then [] else [','] + MJoin(ns[1..], inArray))
  }

  // ---- A partly fetched form with safe names

  ghost predicate Tame(l: LValue, v: Value) {
    Rep(l, v) && GoodNumbers(v) && FetchedNamesSafe(l)
  }

  ghost predicate AllTame(ls: seq<Lazy>, ns: seq<Node>, inArray: bool) {
    && RepAll(ls, ns, inArray)
    && (forall n :: n in ns ==> GoodNumbers(n.value))
    && forall l :: l in ls ==> (inArray || SafeName(l.name)) && FetchedNamesSafe(l.value)
  }

  lemma TameKids(l: LValue, v: Value)
    requires Tame(l, v)
    ensures l.LArr? ==> v.Arr? && AllTame(l.items, v.items, true)
    ensures l.LObj? ==> v.Obj? && AllTame(l.members, v.members, false)
    ensures !l.LArr? && !l.LObj? ==> MText(l) == Text(v, true) && LText(l) == Text(v, false)
  {
    hide SafeName, RepAll, IsNumeric;
    if !l.LArr? && !l.LObj? { TextOfRep(l, v); }
  }

  lemma AllTameParts(ls: seq<Lazy>, ns: seq<Node>, inArray: bool)
    requires AllTame(ls, ns, inArray)
    ensures |ls| == |ns|
    ensures ls != [] ==>
              && Tame(ls[0].value, ns[0].value) && AllTame(ls[1..], ns[1..], inArray)
              && ls[0].name == (if inArray then [] else ns[0].name)
              && (inArray || SafeName(ls[0].name))
  {
    hide SafeName, Rep, GoodNumbers, FetchedNamesSafe;
    if ls != [] {
      assert forall l :: l in ls[1..] ==> l in ls;
      assert forall n :: n in ns[1..] ==> n in ns;
    }
  }

  /** The children, taken apart at their first comma, as they are written and as they are stripped. */
  lemma JoinParts(ls: seq<Lazy>, inArray: bool, rest: Bytes)
    requires ls != []
    ensures LJoin(ls, inArray) + rest
            == LChild(ls[0], inArray) + (if |ls| == 1 then rest else [','] + (LJoin(ls[1..], inArray) + rest))
    ensures MJoin(ls, inArray) + rest
            == MChild(ls[0], inArray) + (if |ls| == 1 then rest else [','] + (MJoin(ls[1..], inArray) + rest))
    ensures MJoin(ls, inArray) == if |ls| == 1 then MChild(ls[0], inArray)
                                  else MChild(ls[0], inArray) + ([','] + MJoin(ls[1..], inArray))
  {
    hide LChild, MChild;
    if |ls| > 1 {
      CommaRegrouped(LChild(ls[0], inArray), LJoin(ls[1..], inArray), rest);
      CommaRegrouped(MChild(ls[0], inArray), MJoin(ls[1..], inArray), rest);
    }
  }

  lemma CommaRegrouped(c: Bytes, j: Bytes, rest: Bytes)
    ensures c + ([','] + j) + rest == c + ([','] + (j + rest))
  {
  }

  lemma ChildParts(n: Lazy, inArray: bool, rest: Bytes)
    ensures LChild(n, inArray) + rest
            == if inArray then LText(n.value) + rest else RawName(n.name) + ([':'] + (LText(n.value) + rest))
    ensures MChild(n, inArray) + rest
            == if inArray then MText(n.value) + rest else RawName(n.name) + ([':'] + (MText(n.value) + rest))
    ensures MChild(n, inArray)
            == if inArray then MText(n.value) else RawName(n.name) + ([':'] + MText(n.value))
  {
    hide LText, MText;
  }

  lemma NoJoin(inArray: bool, rest: Bytes)
    ensures LJoin([], inArray) + rest == rest == MJoin([], inArray) + rest && MJoin([], inArray) == []
  {
  }

  // ---- Stripping

  lemma SafeIsQuiet(s: Bytes)
    requires SafeName(s)
    ensures forall i :: 0 <= i < |s| ==> s[i] != '"' && s[i] != '\\'
  {
  }

  lemma StripRawName(s: Bytes, rest: Bytes)
    requires SafeName(s)
    ensures Strip(RawName(s) + rest, true) == Prefix(RawName(s), Strip(rest, true))
  {
    hide StripQuotes, SafeName;
    var t, tail := RawName(s) + rest, ['"'] + rest;
    assert t[0] == '"' && t[1..] == s + tail && tail[1..] == rest;
    assert StripQuotes(s + tail, true) == Emit(s, StripQuotes(tail, true)) by { SafeIsQuiet(s); QuotesQuiet(s, true, tail); }
    assert StripQuotes(tail, true) == Closed(['"'], rest) by { QuotesEnd(tail, 0, true); assert tail[0..] == tail; }
    assert ['"'] + (s + ['"']) == RawName(s);
  }

  lemma {:induction false} StripLazy(l: LValue, v: Value, rest: Bytes)
    requires Tame(l, v)
    ensures Strip(LText(l) + rest, true) == Prefix(MText(l), Strip(rest, true))
    decreases l, 1
  {
    hide Strip, Tame, AllTame;
    TameKids(l, v);
    match l
    case LArr(items) => StripKids(items, v.items, true, '[', ']', rest);
    case LObj(members) => StripKids(members, v.members, false, '{', '}', rest);
    case _ => StripText(v, COMPACT, true, rest) by { TameIsGood(l, v); }
  }

  lemma TameIsGood(l: LValue, v: Value)
    requires Tame(l, v)
    ensures GoodNumbers(v)
  {
  }

  lemma {:induction false} StripKids(ls: seq<Lazy>, ns: seq<Node>, inArray: bool, a: Octet, b: Octet, rest: Bytes)
    requires AllTame(ls, ns, inArray) && Visible(a) && Visible(b)
    ensures Strip([a] + LJoin(ls, inArray) + [b] + rest, true) == Prefix([a] + MJoin(ls, inArray) + [b], Strip(rest, true))
    decreases ls, 1
  {
    hide Strip, AllTame, LJoin, MJoin, Prefix;
    var j, m, tail := LJoin(ls, inArray), MJoin(ls, inArray), [b] + rest;
    assert [a] + j + [b] + rest == [a] + (j + tail);
    StripByte(a, true, j + tail);
    StripLJoin(ls, ns, inArray, tail);
    StripByte(b, true, rest);
    PrefixTwice(m, [b], Strip(rest, true));
    PrefixTwice([a], m + [b], Strip(rest, true));
    assert [a] + (m + [b]) == [a] + m + [b];
  }

  lemma {:induction false} StripLJoin(ls: seq<Lazy>, ns: seq<Node>, inArray: bool, rest: Bytes)
    requires AllTame(ls, ns, inArray)
    ensures Strip(LJoin(ls, inArray) + rest, true) == Prefix(MJoin(ls, inArray), Strip(rest, true))
    decreases ls, 0
  {
    hide Strip, AllTame, LJoin, MJoin, LChild, MChild, Prefix, SafeName, Tame;
    AllTameParts(ls, ns, inArray);
    if ls == [] {
      NoJoin(inArray, rest);
      PrefixTwice([], [], Strip(rest, true));
    } else {
      JoinParts(ls, inArray, rest);
      if |ls| == 1 {
        StripLChild(ls[0], ns[0].value, inArray, rest);
      } else {
        var c, j, after := MChild(ls[0], inArray), MJoin(ls[1..], inArray), LJoin(ls[1..], inArray) + rest;
        StripLChild(ls[0], ns[0].value, inArray, [','] + after);
        StripByte(',', true, after);
        StripLJoin(ls[1..], ns[1..], inArray, rest);
        PrefixTriple(c, j, Strip(rest, true));
      }
    }
  }

  lemma {:induction false} StripLChild(n: Lazy, v: Value, inArray: bool, rest: Bytes)
    requires Tame(n.value, v) && (inArray || SafeName(n.name))
    ensures Strip(LChild(n, inArray) + rest, true) == Prefix(MChild(n, inArray), Strip(rest, true))
    decreases n, 2
  {
    hide Strip, Tame, LText, MText, LChild, MChild, Prefix, SafeName, RawName;
    ChildParts(n, inArray, rest);
    StripLazy(n.value, v, rest);
    if !inArray {
      var after := LText(n.value) + rest;
      StripByte(':', true, after);
      StripRawName(n.name, [':'] + after);
      PrefixTwice([':'], MText(n.value), Strip(rest, true));
      PrefixTwice(RawName(n.name), [':'] + MText(n.value), Strip(rest, true));
    }
  }

  // ---- Scanning

  lemma {:induction false} SafePassesQuote(s: Bytes, rest: Bytes)
    requires SafeName(s)
    ensures AfterQuote(s + (['"'] + rest)) == Some(rest)
  {
    var t := s + (['"'] + rest);
    if s == [] {
      assert t == ['"'] + rest;
    } else {
      assert t[1..] == s[1..] + (['"'] + rest) && t[0] == s[0];
      SafePassesQuote(s[1..], rest);
    }
  }

  /** A name in quotes is stepped over as a whole, inside brackets or not. */
  lemma RawNamePasses(s: Bytes, rest: Bytes)
    requires SafeName(s)
    ensures forall l, r, depth: nat :: Pair(l, r) && depth >= 1 ==>
              AfterBracket(RawName(s) + rest, l, r, depth) == AfterBracket(rest, l, r, depth)
    ensures forall ch :: Separator(ch) ==> Find(ch, RawName(s) + rest) == Find(ch, rest)
  {
    var t := RawName(s) + rest;
    assert t[0] == '"' && t[1..] == s + (['"'] + rest);
    SafePassesQuote(s, rest);
  }

  lemma {:induction false} LazyInBracket(k: LValue, v: Value, l: Octet, r: Octet, depth: nat, rest: Bytes)
    requires Tame(k, v) && Pair(l, r) && depth >= 1
    ensures AfterBracket(MText(k) + rest, l, r, depth) == AfterBracket(rest, l, r, depth)
    decreases k, 1
  {
    hide AfterBracket, Tame, AllTame;
    TameKids(k, v);
    match k
    case LArr(items) => KidsInBracket(items, v.items, true, '[', ']', l, r, depth, rest);
    case LObj(members) => KidsInBracket(members, v.members, false, '{', '}', l, r, depth, rest);
    case _ => TextInBracket(v, l, r, depth, rest) by { TameIsGood(k, v); }
  }

  lemma {:induction false} KidsInBracket(ls: seq<Lazy>, ns: seq<Node>, inArray: bool, a: Octet, b: Octet,
                                         l: Octet, r: Octet, depth: nat, rest: Bytes)
    requires AllTame(ls, ns, inArray) && Pair(a, b) && Pair(l, r) && depth >= 1
    ensures AfterBracket([a] + MJoin(ls, inArray) + [b] + rest, l, r, depth) == AfterBracket(rest, l, r, depth)
    decreases ls, 1
  {
    hide AfterBracket, MJoin, AllTame;
    var j, tail := MJoin(ls, inArray), [b] + rest;
    assert [a] + j + [b] + rest == [a] + (j + tail);
    var inner := if a == l then depth + 1 else depth;
    BracketStep(a, l, r, depth, j + tail);
    MJoinInBracket(ls, ns, inArray, l, r, inner, tail);
    BracketStep(b, l, r, inner, rest);
  }

  lemma {:induction false} MJoinInBracket(ls: seq<Lazy>, ns: seq<Node>, inArray: bool, l: Octet, r: Octet, depth: nat, rest: Bytes)
    requires AllTame(ls, ns, inArray) && Pair(l, r) && depth >= 1
    ensures AfterBracket(MJoin(ls, inArray) + rest, l, r, depth) == AfterBracket(rest, l, r, depth)
    decreases ls, 0
  {
    hide AfterBracket, MJoin, MChild, AllTame, Tame, SafeName;
    AllTameParts(ls, ns, inArray);
    if ls == [] {
      NoJoin(inArray, rest);
    } else {
      JoinParts(ls, inArray, rest);
      if |ls| == 1 {
        MChildInBracket(ls[0], ns[0].value, inArray, l, r, depth, rest);
      } else {
        var after := MJoin(ls[1..], inArray) + rest;
        MChildInBracket(ls[0], ns[0].value, inArray, l, r, depth, [','] + after);
        PlainInBracket([','], l, r, depth, after);
        MJoinInBracket(ls[1..], ns[1..], inArray, l, r, depth, rest);
      }
    }
  }

  lemma {:induction false} MChildInBracket(n: Lazy, v: Value, inArray: bool, l: Octet, r: Octet, depth: nat, rest: Bytes)
    requires Tame(n.value, v) && (inArray || SafeName(n.name)) && Pair(l, r) && depth >= 1
    ensures AfterBracket(MChild(n, inArray) + rest, l, r, depth) == AfterBracket(rest, l, r, depth)
    decreases n, 2
  {
    hide AfterBracket, MChild, MText, Tame, SafeName, RawName;
    ChildParts(n, inArray, rest);
    LazyInBracket(n.value, v, l, r, depth, rest);
    if !inArray {
      var after := MText(n.value) + rest;
      RawNamePasses(n.name, [':'] + after);
      PlainInBracket([':'], l, r, depth, after);
    }
  }

  lemma {:induction false} FindPassesLazy(ch: Octet, l: LValue, v: Value, rest: Bytes)
    requires Tame(l, v) && Separator(ch)
    ensures Find(ch, MText(l) + rest) == Find(ch, rest)
  {
    hide Find, Tame, AllTame;
    TameKids(l, v);
    match l
    case LArr(items) => FindPassesKids(ch, items, v.items, true, '[', ']', rest);
    case LObj(members) => FindPassesKids(ch, members, v.members, false, '{', '}', rest);
    case _ => FindPassesText(ch, v, rest) by { TameIsGood(l, v); }
  }

  lemma FindPassesKids(ch: Octet, ls: seq<Lazy>, ns: seq<Node>, inArray: bool, a: Octet, b: Octet, rest: Bytes)
    requires AllTame(ls, ns, inArray) && Pair(a, b) && Separator(ch)
    ensures Find(ch, [a] + MJoin(ls, inArray) + [b] + rest) == Find(ch, rest)
  {
    hide MJoin, AllTame;
    var j := MJoin(ls, inArray);
    var t := [a] + j + [b] + rest;
    assert t[0] == a && t[1..] == j + ([b] + rest);
    MJoinInBracket(ls, ns, inArray, a, b, 1, [b] + rest);
    BracketStep(b, a, b, 1, rest);
  }

  // ---- Parsing

  lemma {:induction false} LazyHasNoNul(l: LValue, v: Value)
    requires Tame(l, v)
    ensures NUL !in MText(l)
    decreases l, 1
  {
    hide Tame, AllTame;
    TameKids(l, v);
    match l
    case LArr(items) => MJoinHasNoNul(items, v.items, true);
    case LObj(members) => MJoinHasNoNul(members, v.members, false);
    case _ => TextHasNoNul(v) by { TameIsGood(l, v); }
  }

  lemma {:induction false} MJoinHasNoNul(ls: seq<Lazy>, ns: seq<Node>, inArray: bool)
    requires AllTame(ls, ns, inArray)
    ensures NUL !in MJoin(ls, inArray)
    decreases ls, 0
  {
    hide AllTame, Tame, MText;
    AllTameParts(ls, ns, inArray);
    if ls != [] {
      LazyHasNoNul(ls[0].value, ns[0].value);
      MJoinHasNoNul(ls[1..], ns[1..], inArray);
    }
  }

  lemma LazyShape(l: LValue, v: Value)
    requires Tame(l, v)
    ensures var t := MText(l);
            && t != [] && t[0] != ':' && t[0] != ',' && t[0] != '#'
            && (v.Arr? ==> |t| >= 2 && t[0] == '[' && t[|t| - 1] == ']')
            && (v.Obj? ==> |t| >= 2 && t[0] == '{' && t[|t| - 1] == '}')
  {
    hide Text, AllTame, IsNumeric;
    TameKids(l, v);
    TextShape(v);
  }

  lemma MJoinNotEmpty(ls: seq<Lazy>, ns: seq<Node>, inArray: bool)
    requires AllTame(ls, ns, inArray) && ls != []
    ensures |MJoin(ls, inArray)| >= 1
  {
    hide AllTame, Tame, MText, RawName;
    AllTameParts(ls, ns, inArray);
    LazyShape(ls[0].value, ns[0].value);
  }

  lemma {:induction false} ParseLazy(l: LValue, v: Value)
    requires Tame(l, v)
    ensures ParseValue(MText(l)) == Some(Erase(v))
    decreases l, 1
  {
    hide ParseValue, Tame, AllTame;
    TameKids(l, v);
    match l
    case LArr(items) => ParseKids(items, v.items, true);
    case LObj(members) => ParseKids(members, v.members, false);
    case _ => ParseText(v) by { TameIsGood(l, v); }
  }

  lemma {:induction false} ParseKids(ls: seq<Lazy>, ns: seq<Node>, inArray: bool)
    requires AllTame(ls, ns, inArray)
    ensures inArray ==> ParseValue(['['] + MJoin(ls, true) + [']']) == Some(Arr(EraseAll(ns, true)))
    ensures !inArray ==> ParseValue(['{'] + MJoin(ls, false) + ['}']) == Some(Obj(EraseAll(ns, false)))
    decreases ls, 1
  {
    hide Elements, Members, AllTame, Tame, MJoin;
    AllTameParts(ls, ns, inArray);
    var j := MJoin(ls, inArray);
    assert (['['] + j + [']'])[1..] == j + [']'] && (['{'] + j + ['}'])[1..] == j + ['}'];
    if ls == [] {
      NoJoin(inArray, []);
    } else {
      MJoinNotEmpty(ls, ns, inArray);
      if inArray { ElementsOfLazy(ls, ns); } else { MembersOfLazy(ls, ns); }
    }
  }

  lemma {:induction false} ElementsOfLazy(ls: seq<Lazy>, ns: seq<Node>)
    requires AllTame(ls, ns, true) && ls != []
    ensures Elements(MJoin(ls, true) + [']']) == Kids(EraseAll(ns, true))
    decreases ls, 0
  {
    hide Find, ParseValue, AllTame, Tame, Elements, MJoin, MText, MChild, Erase;
    AllTameParts(ls, ns, true);
    var l, v := ls[0].value, ns[0].value;
    var e := MText(l);
    var after := if |ls| == 1 then [']'] else [','] + (MJoin(ls[1..], true) + [']']);
    JoinParts(ls, true, [']']);
    ChildParts(ls[0], true, after);
    assert after == [after[0]] + after[1..];
    FindPassesLazy(',', l, v, after);
    FindHere(',', after[0], after[1..]);
    assert e + [] == e;
    FindPassesLazy(':', l, v, []);
    FindHere(':', ']', []);
    LazyHasNoNul(l, v);
    LazyShape(l, v);
    ParseLazy(l, v);
    ElementsRound(e, after, Erase(v));
    if |ls| == 1 {
      assert EraseAll(ns, true) == [Node([], Erase(v))] + [];
    } else {
      assert after[1..] == MJoin(ls[1..], true) + [']'];
      ElementsOfLazy(ls[1..], ns[1..]);
    }
  }

  lemma SafeNameBeforeColon(s: Bytes, colon: Bytes)
    requires SafeName(s) && colon != []
    ensures var q := RawName(s); MemberName(q + colon, |q|) == Some(s)
  {
    hide Fix;
    var q := RawName(s);
    assert (q + colon)[1..|q| - 1] == s;
    CStringOfText(s);
    FastPathUndone(s);
  }

  /** One round of DoNode on a name that was written as it is, and a value e. */
  lemma {:induction false} RawMembersRound(name: Bytes, e: Bytes, after: Bytes, v: Value)
    requires after != [] && ParseValue(e) == Some(v) && SafeName(name)
    requires var colon := [':'] + (e + after);
             && Find(':', RawName(name) + colon) == Some(colon)
             && (if after[0] == ',' then Find(',', colon) == Some(after) else Find(',', colon) == None && |after| == 1)
    ensures Members(RawName(name) + ([':'] + (e + after)))
            == Attach(Node(name, v), if after[0] == ',' then Members(after[1..]) else Kids([]))
  {
    hide Find, ParseValue, RawName, MemberName, SafeName;
    var q, colon := RawName(name), [':'] + (e + after);
    SafeNameBeforeColon(name, colon);
    assert |q + colon| - |colon| == |q|;
    assert colon[1..|colon| - |after|] == e;
  }

  lemma {:induction false} MembersOfLazy(ls: seq<Lazy>, ns: seq<Node>)
    requires AllTame(ls, ns, false) && ls != []
    ensures Members(MJoin(ls, false) + ['}']) == Kids(EraseAll(ns, false))
    decreases ls, 0
  {
    hide Find, ParseValue, AllTame, Tame, Members, MJoin, MText, MChild, MemberName, Erase, RawName, SafeName;
    AllTameParts(ls, ns, false);
    var l, v, name := ls[0].value, ns[0].value, ls[0].name;
    var e := MText(l);
    var after := if |ls| == 1 then ['}'] else [','] + (MJoin(ls[1..], false) + ['}']);
    var colon := [':'] + (e + after);
    JoinParts(ls, false, ['}']);
    ChildParts(ls[0], false, after);
    assert after == [after[0]] + after[1..];
    RawNamePasses(name, colon);
    FindHere(':', ':', e + after);
    FindPassesColon(e + after);
    FindPassesLazy(',', l, v, after);
    FindHere(',', after[0], after[1..]);
    ParseLazy(l, v);
    RawMembersRound(name, e, after, Erase(v));
    if |ls| == 1 {
      assert EraseAll(ns, false) == [Node(name, Erase(v))] + [];
    } else {
      assert after[1..] == MJoin(ls[1..], false) + ['}'];
      MembersOfLazy(ls[1..], ns[1..]);
    }
  }

  /** A form of a container with safe names, written and parsed again. */
  lemma WrittenComesBack(l: LValue, v: Value)
    requires Tame(l, v) && IsContainer(v)
    ensures ParseDocument(LText(l)) == Parsed(Erase(v))
  {
    hide Strip, Tame, ParseValue, LText, MText;
    StripLazy(l, v, []);
    assert LText(l) + [] == LText(l) && MText(l) + [] == MText(l);
    assert Strip([], true) == Some([]) by { StripEnd([], true); }
    LazyShape(l, v);
    ParseLazy(l, v);
  }

  /** Print a tree, parse it, fetch any of its nodes in any order and write it: that parses to the same tree
      if no fetched member has a quote, a backslash or a NUL in its name. */
  lemma RewriteComesBack(n: Node, formatted: bool, paths: seq<seq<nat>>)
    requires IsContainer(n.value) && GoodNumbers(n.value)
    ensures var s := Strip(if formatted then Formatted(n) else Compact(n), true);
            && s.Some?
            && var l := FetchAll(Construct(s.value), paths);
            && l.Some?
            && (FetchedNamesSafe(l.value) ==> ParseDocument(LText(l.value)) == Parsed(Erase(n.value)))
  {
    hide Strip, FetchAll, Construct, Rep, GoodNumbers, FetchedNamesSafe, ParseDocument, Formatted, LText, Erase;
    StripForParsing(n);
    var t := Text(n.value, true);
    ConstructReps(n.value);
    FetchAllReps(Construct(t), n.value, paths);
    var l := FetchAll(Construct(t), paths).value;
    if FetchedNamesSafe(l) { WrittenComesBack(l, n.value); }
  }

  /** Plain names are safe, and a name with a slash is safe without being plain. */
  lemma PlainNamesAreSafe(s: Bytes)
    ensures PlainName(s) ==> SafeName(s)
    ensures SafeName(['/']) && !PlainName(['/'])
  {
    assert !Unescaped(['/'][0]);
    if PlainName(s) {
      forall i | 0 <= i < |s| ensures s[i] != '"' && s[i] != '\\' && s[i] != NUL { assert Unescaped(s[i]); }
    }
  }
}
