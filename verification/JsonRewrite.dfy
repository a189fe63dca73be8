/** Writing a parsed tree of which any part has been fetched. */
module JsonRewrite {
  import opened Options
  import opened JsonEscape
  import opened JsonNumber
  import opened JsonTree
  import opened JsonStrip
  import opened JsonScan
  import opened JsonParse
  import opened JsonLazy

  // ---- Fetching anywhere in the tree

  /** The children of a fetched node, and the node with other children. */
  function KidsOf(v: LValue): seq<Lazy> {
    match v case LArr(items) => items case LObj(members) => members case _ => []
  }

  function WithKid(v: LValue, i: nat, kid: LValue): LValue
    requires i < |KidsOf(v)|
  {
    match v
    case LArr(items) => LArr(items[i := Lazy(items[i].name, kid)])
    case LObj(members) => LObj(members[i := Lazy(members[i].name, kid)])
  }

  /** Fetching every node on a path from the root, the last one included; None if undefined. */
  function FetchAt(v: LValue, path: seq<nat>): Option<LValue>
    decreases |path|
  {
    var f := Fetch(v);
    if f.None? || path == [] || path[0] >= |KidsOf(f.value)| then f
    else
      var kid := FetchAt(KidsOf(f.value)[path[0]].value, path[1..]);
      if kid.None? then None else Some(WithKid(f.value, path[0], kid.value))
  }

  function FetchAll(v: LValue, paths: seq<seq<nat>>): Option<LValue>
    decreases |paths|
  {
    if paths == [] then Some(v)
    else
      var f := FetchAt(v, paths[0]);
      if f.None? then None else FetchAll(f.value, paths[1..])
  }

  /** Everything unfetched in v is as the constructor left it. */
  ghost predicate Sound(v: LValue) {
    match v
    case LArr(items) => forall n :: n in items ==> Sound(n.value)
    case LObj(members) => forall n :: n in members ==> Sound(n.value)
    case _ => Constructed(v)
  }

  lemma ConstructIsSound(text: Bytes)
    ensures Sound(Construct(text))
  {
  }

  lemma {:induction false} ElementsAreSound(t: Bytes)
    ensures LElements(t).LKids? ==> forall n :: n in LElements(t).ns ==> Sound(n.value)
    decreases |t|
  {
    hide Find, Construct, Sound;
    var next := Find(',', t);
    if next.Some? { ElementsAreSound(next.value[1..]); }
    if !(next.None? && t == []) {
      ConstructIsSound(CString(if next.None? then t[..|t| - 1] else t[..|t| - |next.value|]));
    }
  }

  lemma {:induction false} MembersAreSound(t: Bytes)
    ensures LMembers(t).LKids? ==> forall n :: n in LMembers(t).ns ==> Sound(n.value)
    decreases |t|
  {
    hide Find, Construct, MemberName, Sound;
    var colon := Find(':', t);
    if colon.Some? {
      var next := Find(',', colon.value);
      if !(next.None? && |colon.value| < 2) {
        FindLater(':', ',', colon.value);
        if next.Some? { MembersAreSound(next.value[1..]); }
        ConstructIsSound(if next.None? then colon.value[1..|colon.value| - 1]
                         else colon.value[1..|colon.value| - |next.value|]);
      }
    }
  }

  lemma FetchIsSound(v: LValue)
    requires Sound(v)
    ensures Fetch(v).Some? ==> Sound(Fetch(v).value)
  {
    hide LElements, LMembers, Fix, IsNumeric;
    if v.Raw? && v.text != [] {
      ElementsAreSound(v.text[1..]);
      MembersAreSound(v.text[1..]);
    }
  }

  lemma {:induction false} ReplaceKid(ns: seq<Lazy>, i: nat, kid: LValue)
    requires i < |ns|
    ensures Meaning(kid) == Meaning(ns[i].value) ==> Meanings(ns[i := Lazy(ns[i].name, kid)]) == Meanings(ns)
    ensures Meaning(ns[i].value).None? ==> Meanings(ns) == Undefined
  {
    var r := ns[i := Lazy(ns[i].name, kid)];
    MeaningsNotNullified(ns[1..]);
    if i == 0 {
      assert r[1..] == ns[1..];
    } else {
      assert r[1..] == ns[1..][i - 1 := Lazy(ns[i].name, kid)];
      ReplaceKid(ns[1..], i - 1, kid);
    }
  }

  lemma SoundParts(v: LValue)
    requires Sound(v)
    ensures Constructed(v)
    ensures forall i :: 0 <= i < |KidsOf(v)| ==> Sound(KidsOf(v)[i].value)
  {
  }

  lemma SoundKid(v: LValue, i: nat, kid: LValue)
    requires Sound(v) && Sound(kid) && i < |KidsOf(v)|
    ensures Sound(WithKid(v, i, kid))
  {
    var ns := KidsOf(v);
    forall n | n in ns[i := Lazy(ns[i].name, kid)] ensures Sound(n.value) {
      if n !in ns { assert n == Lazy(ns[i].name, kid); }
    }
  }

  /** Whatever the text, fetching along any path leaves the tree the node stands for as it was, and is
      undefined only where that tree is. */
  lemma {:induction false} FetchAtKeepsMeaning(v: LValue, path: seq<nat>)
    requires Sound(v)
    ensures FetchAt(v, path).Some? ==> Meaning(FetchAt(v, path).value) == Meaning(v) && Sound(FetchAt(v, path).value)
    ensures FetchAt(v, path).None? ==> Meaning(v).None?
    decreases |path|
  {
    hide Fetch, Sound;
    SoundParts(v);
    FetchKeepsMeaning(v);
    FetchIsSound(v);
    var f := Fetch(v);
    if f.Some? && path != [] && path[0] < |KidsOf(f.value)| {
      var ns, i := KidsOf(f.value), path[0];
      SoundParts(f.value);
      FetchAtKeepsMeaning(ns[i].value, path[1..]);
      var kid := FetchAt(ns[i].value, path[1..]);
      if kid.None? {
        ReplaceKid(ns, i, f.value);
      } else {
        ReplaceKid(ns, i, kid.value);
        SoundKid(f.value, i, kid.value);
      }
    }
  }

  /** In any order and any number of times. */
  lemma {:induction false} FetchAllKeepsMeaning(v: LValue, paths: seq<seq<nat>>)
    requires Sound(v)
    ensures FetchAll(v, paths).Some? ==> Meaning(FetchAll(v, paths).value) == Meaning(v) && Sound(FetchAll(v, paths).value)
    ensures FetchAll(v, paths).None? ==> Meaning(v).None?
    decreases |paths|
  {
    hide FetchAt;
    if paths != [] {
      FetchAtKeepsMeaning(v, paths[0]);
      if FetchAt(v, paths[0]).Some? { FetchAllKeepsMeaning(FetchAt(v, paths[0]).value, paths[1..]); }
    }
  }

  /** Every node on the path is fetched, as far as there are nodes. */
  predicate FetchedAlong(v: LValue, path: seq<nat>)
    decreases |path|
  {
    !v.Raw? && (path != [] && path[0] < |KidsOf(v)| ==> FetchedAlong(KidsOf(v)[path[0]].value, path[1..]))
  }

  lemma FetchLeavesNoText(v: LValue)
    ensures Fetch(v).Some? ==> !Fetch(v).value.Raw?
    ensures !v.Raw? ==> Fetch(v) == Some(v)
  {
    hide LElements, LMembers, Fix;
  }

  lemma {:induction false} FetchReaches(v: LValue, path: seq<nat>)
    ensures FetchAt(v, path).Some? ==> FetchedAlong(FetchAt(v, path).value, path)
    decreases |path|
  {
    hide Fetch;
    FetchLeavesNoText(v);
    var f := Fetch(v);
    if f.Some? && path != [] && path[0] < |KidsOf(f.value)| {
      FetchReaches(KidsOf(f.value)[path[0]].value, path[1..]);
    }
  }

  lemma {:induction false} FetchKeepsFetched(v: LValue, path: seq<nat>, other: seq<nat>)
    requires FetchedAlong(v, other)
    ensures FetchAt(v, path).Some? ==> FetchedAlong(FetchAt(v, path).value, other)
    decreases |path|
  {
    hide Fetch;
    FetchLeavesNoText(v);
    if path != [] && path[0] < |KidsOf(v)| && other != [] && other[0] == path[0] {
      FetchKeepsFetched(KidsOf(v)[path[0]].value, path[1..], other[1..]);
    }
  }

  /** Afterwards every node on each of the paths is fetched. */
  lemma {:induction false} FetchAllReaches(v: LValue, paths: seq<seq<nat>>, done: set<seq<nat>>)
    requires forall p :: p in done ==> FetchedAlong(v, p)
    ensures FetchAll(v, paths).Some? ==> forall p :: p in paths || p in done ==> FetchedAlong(FetchAll(v, paths).value, p)
    decreases |paths|
  {
    hide FetchAt, FetchedAlong;
    if paths != [] && FetchAt(v, paths[0]).Some? {
      var f := FetchAt(v, paths[0]).value;
      FetchReaches(v, paths[0]);
      forall p | p in done ensures FetchedAlong(f, p) { FetchKeepsFetched(v, paths[0], p); }
      FetchAllReaches(f, paths[1..], done + {paths[0]});
    }
  }

  /** The node at the end of a path. */
  function NodeAt(v: LValue, path: seq<nat>): Option<LValue>
    decreases |path|
  {
    if path == [] then Some(v)
    else if path[0] < |KidsOf(v)| then NodeAt(KidsOf(v)[path[0]].value, path[1..]) else None
  }

  /** What is not on the path stays unfetched. */
  lemma {:induction false} NothingElseFetched(v: LValue, path: seq<nat>, other: seq<nat>)
    requires NodeAt(v, other).Some? && NodeAt(v, other).value.Raw? && !(other <= path)
    ensures FetchAt(v, path).Some? ==> NodeAt(FetchAt(v, path).value, other) == NodeAt(v, other)
    decreases |path|
  {
    hide Fetch;
    FetchLeavesNoText(v);
    assert other != [] && !v.Raw?;
    if path != [] && path[0] < |KidsOf(v)| && other[0] == path[0] {
      assert other == [other[0]] + other[1..] && path == [path[0]] + path[1..];
      NothingElseFetched(KidsOf(v)[path[0]].value, path[1..], other[1..]);
    }
  }

  // ---- What is written

  /** DumpRawString: the masks become quotes again. */
  function Unmask(t: Bytes): (r: Bytes)
    ensures |r| == |t|
  {
    if t == [] then [] else [if t[0] == MASKED then '"' else t[0]] + Unmask(t[1..])
  }

  lemma UnmaskOne(c: Octet)
    ensures Unmask([c]) == [if c == MASKED then '"' else c]
  {
    assert [c][1..] == [] && Unmask([]) == [];
  }

  /** usedAsciiOne: whether any quote has ever been masked. If none has, the text holds no mask. */
  method DumpRawString(text: Bytes, usedAsciiOne: bool, output: Bytes) returns (res: Bytes)
    ensures usedAsciiOne || MASKED !in text ==> res == output + Unmask(text)
    ensures !usedAsciiOne ==> res == output + text
  {
    if !usedAsciiOne {
      if MASKED !in text { UnmaskQuiet(text); }
      return output + text;
    }
    hide Unmask;
    var result := text;
    ghost var done: Bytes := [];
    UnmaskStart();
    for i := 0 to |text|
      invariant |done| == i && |result| == |text| && done == Unmask(text[..i])
      invariant result[..i] == done && result[i..] == text[i..]
    {
      UnmaskNext(text, i);
      var c := result[i];
      assert c == text[i] by { assert result[i..][0] == text[i..][0]; }
      assert result[i..][1..] == result[i + 1..] && text[i..][1..] == text[i + 1..];
      done := done + [if c == MASKED then '"' else c];
      if c == MASKED {
        result := result[i := '"'];
      }
      assert result[..i + 1] == done;
    }
    assert text[..|text|] == text && result[..|text|] == result;
    res := output + result;
  }

  lemma UnmaskNext(t: Bytes, i: nat)
    requires i < |t|
    ensures Unmask(t[..i + 1]) == Unmask(t[..i]) + [if t[i] == MASKED then '"' else t[i]]
  {
    hide Unmask;
    assert t[..i + 1] == t[..i] + [t[i]];
    UnmaskConcat(t[..i], [t[i]]);
    UnmaskOne(t[i]);
  }

  lemma UnmaskStart()
    ensures Unmask([]) == []
  {
  }

  /** Write without indentation. */
  function LText(v: LValue): Bytes
    decreases v, 1
  {
    match v
    case Raw(text) => Unmask(text)
    case Literal(text) => text
    case LStr(s, encoded) => ['"'] + (if encoded then Escape(s, false) else s) + ['"']
    case LArr(items) => ['['] + LJoin(items, true) + [']']
    case LObj(members) => ['{'] + LJoin(members, false) + ['}']
  }

  /** WriteName puts the name out as it is: the flag that would have it escaped is false. */
  function LChild(n: Lazy, arrayChild: bool): Bytes
    decreases n, 2
  {
    (if arrayChild then [] else ['"'] + n.name + ['"', ':']) + LText(n.value)
  }

  function LJoin(ns: seq<Lazy>, arrayChild: bool): Bytes
    decreases ns, 0
  {
    if ns == [] then []
    else LChild(ns[0], arrayChild) + (if |ns| == 1 then [] else [','] + LJoin(ns[1..], arrayChild))
  }

  /** A string is written as it was read if it holds no backslash, whatever else it holds; otherwise it is escaped anew. */
  lemma StringRewritten(body: Bytes)
    requires Fix(body).Some?
    ensures var f := Fetch(Raw(['"'] + body + ['"']));
            f.Some? && LText(f.value) == ['"'] + (if '\\' in body then Escape(Fix(body).value, false) else body) + ['"']
  {
    hide Fix, Escape;
    var t := ['"'] + body + ['"'];
    assert t[1..|t| - 1] == body;
    if '\\' !in body { FastPathUndone(body); }
  }

  /** A byte that UnfixString leaves alone. */
  predicate Unescaped(c: Octet) {
    32 <= c as int <= 126 && c != '"' && c != '\\' && c != '/'
  }

  predicate PlainName(s: Bytes) {
    forall i :: 0 <= i < |s| ==> Unescaped(s[i])
  }

  /** No member of a fetched object has a name that needs escaping. */
  ghost predicate FetchedNamesPlain(v: LValue) {
    match v
    case LArr(items) => forall n :: n in items ==> FetchedNamesPlain(n.value)
    case LObj(members) => forall n :: n in members ==> PlainName(n.name) && FetchedNamesPlain(n.value)
    case _ => true
  }

  // ---- Partly fetched forms of a printed tree

  ghost predicate Rep(l: LValue, v: Value)
    decreases l, 1
  {
    match l
    case Raw(text) => (v.Str? || v.Num? || v.Arr? || v.Obj?) && text == Text(v, true)
    case Literal(text) => (v.Num? || v.Bool? || v.Null?) && text == Text(v, true)
    case LStr(s, encoded) => v == Str(s) && encoded == HasBackslash(Escape(s, true))
    case LArr(items) => v.Arr? && RepAll(items, v.items, true)
    case LObj(members) => v.Obj? && RepAll(members, v.members, false)
  }

  ghost predicate RepAll(ls: seq<Lazy>, ns: seq<Node>, inArray: bool)
    decreases ls, 0
  {
    |ls| == |ns|
    && (ls != [] ==> && ls[0].name == (if inArray then [] else ns[0].name)
                     && Rep(ls[0].value, ns[0].value)
                     && RepAll(ls[1..], ns[1..], inArray))
  }

  lemma ConstructReps(v: Value)
    requires GoodNumbers(v)
    ensures Rep(Construct(Text(v, true)), v)
  {
    TextShape(v);
    if v.Num? { NumericIsPlain(v.text); NumericFirst(v.text); }
  }

  lemma NoReps(inArray: bool)
    ensures RepAll([], [], inArray)
  {
  }

  lemma AttachReps(l: Lazy, rest: LChildren, ns: seq<Node>, inArray: bool)
    requires rest.LKids? && ns != [] && RepAll(rest.ns, ns[1..], inArray)
    requires l.name == (if inArray then [] else ns[0].name) && Rep(l.value, ns[0].value)
    ensures LAttach(l, rest).LKids? && RepAll(LAttach(l, rest).ns, ns, inArray)
  {
    hide Rep;
    assert ([l] + rest.ns)[1..] == rest.ns;
  }

  lemma {:induction false} RepElements(items: seq<Node>)
    requires items != [] && forall n :: n in items ==> GoodNumbers(n.value)
    ensures var k := LElements(Join(items, true, true) + [']']); k.LKids? && RepAll(k.ns, items, true)
    decreases items
  {
    hide Find, GoodNumbers, LElements, Join, Rep, Construct, RepAll, LAttach;
    var v, e := items[0].value, Text(items[0].value, true);
    assert forall n :: n in items[1..] ==> n in items;
    var after := if |items| == 1 then [']'] else [','] + (Join(items[1..], true, true) + [']']);
    assert Join(items, true, true) + [']'] == e + after by { JoinFront(items, true); }
    assert after == [after[0]] + after[1..];
    FindPassesText(',', v, after);
    FindHere(',', after[0], after[1..]);
    assert e + [] == e;
    FindPassesText(':', v, []);
    FindHere(':', ']', []);
    TextHasNoNul(v);
    TextShape(v);
    ConstructReps(v);
    LElementsRound(e, after);
    if |items| == 1 {
      NoReps(true);
      AttachReps(Lazy([], Construct(e)), LKids([]), items, true);
    } else {
      assert after[1..] == Join(items[1..], true, true) + [']'];
      RepElements(items[1..]);
      AttachReps(Lazy([], Construct(e)), LElements(after[1..]), items, true);
    }
  }

  lemma {:induction false} LElementsRound(e: Bytes, after: Bytes)
    requires e != [] && e[0] != '#' && NUL !in e && Find(':', e) == None && after != []
    requires if after[0] == ',' then Find(',', e + after) == Some(after) else Find(',', e + after) == None && |after| == 1
    ensures LElements(e + after)
            == LAttach(Lazy([], Construct(e)), if after[0] == ',' then LElements(after[1..]) else LKids([]))
  {
    hide Find, Construct;
    CStringOfText(e);
    var t := e + after;
    assert t[..|t| - |after|] == e;
  }

  lemma {:induction false} RepMembers(members: seq<Node>)
    requires members != [] && forall n :: n in members ==> GoodNumbers(n.value)
    ensures var k := LMembers(Join(members, false, true) + ['}']); k.LKids? && RepAll(k.ns, members, false)
    decreases members
  {
    hide Find, GoodNumbers, Quoted, LMembers, Join, Rep, Construct, Text, RepAll, LAttach;
    var m := members[0];
    var q, e := Quoted(m.name, true), Text(m.value, true);
    assert forall n :: n in members[1..] ==> n in members;
    var after := if |members| == 1 then ['}'] else [','] + (Join(members[1..], false, true) + ['}']);
    var colon := [':'] + (e + after);
    assert Join(members, false, true) + ['}'] == q + colon by { JoinFront(members, false); }
    assert after == [after[0]] + after[1..];
    FindPassesQuoted(':', m.name, colon);
    FindHere(':', ':', e + after);
    FindPassesColon(e + after);
    FindPassesText(',', m.value, after);
    FindHere(',', after[0], after[1..]);
    ConstructReps(m.value);
    LMembersRound(m.name, e, after);
    if |members| == 1 {
      NoReps(false);
      AttachReps(Lazy(m.name, Construct(e)), LKids([]), members, false);
    } else {
      assert after[1..] == Join(members[1..], false, true) + ['}'];
      RepMembers(members[1..]);
      AttachReps(Lazy(m.name, Construct(e)), LMembers(after[1..]), members, false);
    }
  }

  lemma {:induction false} LMembersRound(name: Bytes, e: Bytes, after: Bytes)
    requires after != []
    requires var colon := [':'] + (e + after);
             && Find(':', Quoted(name, true) + colon) == Some(colon)
             && (if after[0] == ',' then Find(',', colon) == Some(after) else Find(',', colon) == None && |after| == 1)
    ensures LMembers(Quoted(name, true) + ([':'] + (e + after)))
            == LAttach(Lazy(name, Construct(e)), if after[0] == ',' then LMembers(after[1..]) else LKids([]))
  {
    hide Find, Construct, Quoted, MemberName;
    var q, colon := Quoted(name, true), [':'] + (e + after);
    NameBeforeColon(name, colon);
    assert |q + colon| - |colon| == |q|;
    assert colon[1..|colon| - |after|] == e;
  }

  lemma FetchString(text: Bytes, s: Bytes)
    requires text == Quoted(s, true)
    ensures Fetch(Raw(text)) == Some(LStr(s, HasBackslash(Escape(s, true))))
  {
    hide Fix;
    assert text[1..|text| - 1] == Escape(s, true);
    FixUndoesUnfix(s, true);
  }

  lemma FetchContainer(ns: seq<Node>, inArray: bool)
    requires forall n :: n in ns ==> GoodNumbers(n.value)
    ensures var f := Fetch(Raw(Text(if inArray then Arr(ns) else Obj(ns), true)));
            && f.Some? && (if inArray then f.value.LArr? else f.value.LObj?)
            && RepAll(KidsOf(f.value), ns, inArray)
  {
    hide LElements, LMembers, Join, GoodNumbers, Rep, Fix, IsNumeric;
    var j := Join(ns, inArray, true);
    var text := Text(if inArray then Arr(ns) else Obj(ns), true);
    assert text[1..] == j + [text[|text| - 1]];
    if ns == [] {
      assert j == [] by { JoinOfNone(inArray); }
    } else {
      JoinNotEmpty(ns, inArray);
      if inArray { RepElements(ns); } else { RepMembers(ns); }
    }
  }

  lemma JoinOfNone(inArray: bool)
    ensures Join([], inArray, true) == []
  {
  }

  /** Fetching a node of a printed tree goes well, and gives a form of the same tree. */
  lemma FetchReps(l: LValue, v: Value)
    requires Rep(l, v) && GoodNumbers(v)
    ensures Fetch(l).Some? && Rep(Fetch(l).value, v)
  {
    hide Fetch;
    if !l.Raw? {
      FetchesOnce(l);
    } else {
      match v {
        case Str(s) => FetchString(l.text, s);
        case Num(text) => FetchNumber(text);
        case Arr(items) => FetchContainer(items, true);
        case Obj(members) => FetchContainer(members, false);
      }
    }
  }

  lemma FetchesOnce(l: LValue)
    requires !l.Raw?
    ensures Fetch(l) == Some(l)
  {
  }

  lemma FetchNumber(text: Bytes)
    requires IsNumeric(text) && NUL !in text
    ensures Fetch(Raw(text)) == Some(Literal(text))
  {
    NumericIsPlain(text);
    NumericFirst(text);
  }

  lemma {:induction false} RepKid(ls: seq<Lazy>, ns: seq<Node>, inArray: bool, i: nat, kid: LValue)
    requires RepAll(ls, ns, inArray) && i < |ls| == |ns|
    ensures Rep(ls[i].value, ns[i].value)
    ensures Rep(kid, ns[i].value) ==> RepAll(ls[i := Lazy(ls[i].name, kid)], ns, inArray)
  {
    hide Rep;
    var r := ls[i := Lazy(ls[i].name, kid)];
    if i == 0 {
      assert r[1..] == ls[1..];
    } else {
      RepKid(ls[1..], ns[1..], inArray, i - 1, kid);
      assert r[1..] == ls[1..][i - 1 := Lazy(ls[i].name, kid)];
    }
  }

  lemma {:induction false} FetchAtReps(l: LValue, v: Value, path: seq<nat>)
    requires Rep(l, v) && GoodNumbers(v)
    ensures FetchAt(l, path).Some? && Rep(FetchAt(l, path).value, v)
    decreases |path|
  {
    hide Fetch;
    FetchReps(l, v);
    var f := Fetch(l).value;
    if path != [] && path[0] < |KidsOf(f)| {
      var i, inArray := path[0], f.LArr?;
      var ns := if inArray then v.items else v.members;
      RepKid(KidsOf(f), ns, inArray, i, f);
      assert ns[i] in ns && GoodNumbers(ns[i].value);
      FetchAtReps(KidsOf(f)[i].value, ns[i].value, path[1..]);
      RepKid(KidsOf(f), ns, inArray, i, FetchAt(KidsOf(f)[i].value, path[1..]).value);
    }
  }

  lemma {:induction false} FetchAllReps(l: LValue, v: Value, paths: seq<seq<nat>>)
    requires Rep(l, v) && GoodNumbers(v)
    ensures FetchAll(l, paths).Some? && Rep(FetchAll(l, paths).value, v)
    decreases |paths|
  {
    hide FetchAt, Rep, GoodNumbers;
    if paths != [] {
      FetchAtReps(l, v, paths[0]);
      FetchAllReps(FetchAt(l, paths[0]).value, v, paths[1..]);
    }
  }

  // ---- The text of a partly fetched tree

  lemma {:induction false} UnmaskConcat(a: Bytes, b: Bytes)
    ensures Unmask(a + b) == Unmask(a) + Unmask(b)
  {
    if a == [] {
      assert a + b == b;
    } else {
      assert (a + b)[1..] == a[1..] + b;
      UnmaskConcat(a[1..], b);
    }
  }

  lemma {:induction false} UnmaskQuiet(t: Bytes)
    requires MASKED !in t
    ensures Unmask(t) == t
  {
    if t != [] { UnmaskQuiet(t[1..]); assert t == [t[0]] + t[1..]; }
  }

  lemma UnmaskChar(c: Octet)
    ensures Unmask(EscapeChar(c, true)) == EscapeChar(c, false)
  {
    var e := EscapeChar(c, true);
    if c == '"' {
      assert Unmask(e[1..]) == ['"'];
    } else {
      UnmaskQuiet(e);
    }
  }

  lemma {:induction false} UnmaskEscape(s: Bytes)
    ensures Unmask(Escape(s, true)) == Escape(s, false)
  {
    hide EscapeChar;
    if s != [] {
      UnmaskConcat(EscapeChar(s[0], true), Escape(s[1..], true));
      UnmaskChar(s[0]);
      UnmaskEscape(s[1..]);
    }
  }

  lemma UnmaskBetween(a: Octet, t: Bytes, b: Octet)
    requires a != MASKED && b != MASKED
    ensures Unmask([a] + t + [b]) == [a] + Unmask(t) + [b]
  {
    UnmaskConcat([a] + t, [b]);
    UnmaskConcat([a], t);
    UnmaskQuiet([a]);
    UnmaskQuiet([b]);
  }

  lemma UnmaskQuoted(s: Bytes)
    ensures Unmask(Quoted(s, true)) == Quoted(s, false)
  {
    UnmaskBetween('"', Escape(s, true), '"');
    UnmaskEscape(s);
  }

  lemma PlainIsUnmasked(t: Bytes)
    requires AllPlain(t)
    ensures Unmask(t) == t
  {
    UnmaskQuiet(t);
  }

  /** A raw dump is the compact print. */
  lemma {:induction false} UnmaskText(v: Value)
    requires GoodNumbers(v)
    ensures Unmask(Text(v, true)) == Text(v, false)
    decreases v, 1
  {
    hide Unmask;
    match v
    case Str(s) => UnmaskQuoted(s);
    case Num(text) => NumericIsPlain(text); PlainIsUnmasked(text);
    case Bool(b) => PlainIsUnmasked(Text(v, true));
    case Null => PlainIsUnmasked(NULL);
    case Arr(items) => UnmaskJoin(items, true); UnmaskBetween('[', Join(items, true, true), ']');
    case Obj(members) => UnmaskJoin(members, false); UnmaskBetween('{', Join(members, false, true), '}');
  }

  lemma {:induction false} UnmaskChild(n: Node, inArray: bool)
    requires GoodNumbers(n.value)
    ensures Unmask(Child(n, inArray, true)) == Child(n, inArray, false)
    decreases n, 2
  {
    hide Unmask, Quoted, Text;
    var q, t := Quoted(n.name, true), Text(n.value, true);
    UnmaskText(n.value);
    if inArray {
      assert Child(n, inArray, true) == t && Child(n, inArray, false) == Text(n.value, false);
    } else {
      UnmaskConcat(q + [':'], t);
      UnmaskConcat(q, [':']);
      UnmaskQuoted(n.name);
      UnmaskQuiet([':']);
    }
  }

  lemma {:induction false} UnmaskJoin(ns: seq<Node>, inArray: bool)
    requires forall n :: n in ns ==> GoodNumbers(n.value)
    ensures Unmask(Join(ns, inArray, true)) == Join(ns, inArray, false)
    decreases ns, 0
  {
    hide Child, GoodNumbers;
    if ns != [] {
      assert forall n :: n in ns[1..] ==> n in ns;
      var c, j := Child(ns[0], inArray, true), Join(ns[1..], inArray, true);
      UnmaskChild(ns[0], inArray);
      if |ns| > 1 {
        UnmaskJoin(ns[1..], inArray);
        UnmaskConcat(c, [','] + j);
        UnmaskConcat([','], j);
        UnmaskQuiet([',']);
      } else {
        assert c + [] == c;
        assert Child(ns[0], inArray, false) + [] == Child(ns[0], inArray, false);
      }
    }
  }

  /** Escaping a name changes nothing exactly if it is plain. */
  lemma {:induction false} PlainNameIsUnescaped(s: Bytes)
    ensures |Escape(s, false)| >= |s|
    ensures PlainName(s) ==> Escape(s, false) == s
    ensures !PlainName(s) ==> |Escape(s, false)| > |s|
  {
    if s != [] {
      PlainNameIsUnescaped(s[1..]);
      assert s == [s[0]] + s[1..];
      if PlainName(s[1..]) && Unescaped(s[0]) {
        forall i | 0 <= i < |s| ensures Unescaped(s[i]) { if i > 0 { assert s[i] == s[1..][i - 1]; } }
      }
      if PlainName(s) {
        forall i | 0 <= i < |s[1..]| ensures Unescaped(s[1..][i]) { assert s[1..][i] == s[i + 1]; }
      }
    }
  }

  /** A fetched string is written as it was printed, escaped or by the fast path. */
  lemma FetchedString(s: Bytes)
    ensures (if HasBackslash(Escape(s, true)) then Escape(s, false) else s) == Escape(s, false)
  {
    hide HasBackslash;
    UnmaskEscape(s);
    PlainOrLonger(s, true);
    PlainOrLonger(s, false);
  }

  /** A partly fetched tree is never written longer than printed, and is written as printed exactly if the
      names of fetched members are plain. */
  lemma {:induction false} TextOfRep(l: LValue, v: Value)
    requires Rep(l, v) && GoodNumbers(v)
    ensures FetchedNamesPlain(l) ==> LText(l) == Text(v, false)
    ensures |LText(l)| <= |Text(v, false)|
    ensures |LText(l)| == |Text(v, false)| ==> FetchedNamesPlain(l)
    decreases l, 1
  {
    hide Escape, HasBackslash, Unmask, IsNumeric, PlainName, Join, LJoin;
    match l
    case Raw(text) => UnmaskText(v);
    case Literal(text) => UnmaskText(v); if v.Num? { NumericIsPlain(text); } PlainIsUnmasked(text);
    case LStr(s, encoded) => FetchedString(s);
    case LArr(items) => TextOfReps(items, v.items, true);
    case LObj(members) => TextOfReps(members, v.members, false);
  }

  ghost predicate KidsPlain(ls: seq<Lazy>, inArray: bool) {
    forall l :: l in ls ==> (inArray || PlainName(l.name)) && FetchedNamesPlain(l.value)
  }

  lemma KidsPlainParts(ls: seq<Lazy>, inArray: bool)
    ensures ls == [] ==> KidsPlain(ls, inArray)
    ensures ls != [] ==> (KidsPlain(ls, inArray)
       <==> (inArray || PlainName(ls[0].name)) && FetchedNamesPlain(ls[0].value) && KidsPlain(ls[1..], inArray))
  {
    hide PlainName, FetchedNamesPlain;
    if ls != [] { assert forall l :: l in ls <==> l == ls[0] || l in ls[1..]; }
  }

  lemma {:induction false} TextOfReps(ls: seq<Lazy>, ns: seq<Node>, inArray: bool)
    requires RepAll(ls, ns, inArray) && forall n :: n in ns ==> GoodNumbers(n.value)
    ensures KidsPlain(ls, inArray) ==> LJoin(ls, inArray) == Join(ns, inArray, false)
    ensures |LJoin(ls, inArray)| <= |Join(ns, inArray, false)|
    ensures |LJoin(ls, inArray)| == |Join(ns, inArray, false)| ==> KidsPlain(ls, inArray)
    decreases ls, 0
  {
    hide KidsPlain, PlainName, FetchedNamesPlain, Escape, Text, LText, Rep, GoodNumbers;
    KidsPlainParts(ls, inArray);
    if ls != [] {
      TextOfRep(ls[0].value, ns[0].value);
      TextOfReps(ls[1..], ns[1..], inArray);
      PlainNameIsUnescaped(ns[0].name);
    }
  }

  // ---- Laziness is invisible

  /** Print a tree, parse it, fetch any of its nodes in any order: what is written then is the print again
      exactly if no fetched member has a name that needs escaping, and then parses to the same tree. */
  lemma LazinessInvisible(n: Node, formatted: bool, paths: seq<seq<nat>>)
    requires IsContainer(n.value) && GoodNumbers(n.value)
    ensures var printed := if formatted then Formatted(n) else Compact(n);
            var s := Strip(printed, true);
            && s.Some?
            && var l := FetchAll(Construct(s.value), paths);
            && l.Some?
            && Meaning(l.value) == Some(Erase(n.value))
            && (LText(l.value) == Compact(n) <==> FetchedNamesPlain(l.value))
            && (FetchedNamesPlain(l.value) ==> ParseDocument(LText(l.value)) == Parsed(Erase(n.value)))
  {
    hide ParseDocument, FetchAll, LText, FetchedNamesPlain, Strip, Rep, GoodNumbers, Construct, Erase, Meaning, Formatted, Sound;
    StripForParsing(n);
    var t := Text(n.value, true);
    ConstructReps(n.value);
    FetchAllReps(Construct(t), n.value, paths);
    TextOfRep(FetchAll(Construct(t), paths).value, n.value);
    assert Compact(n) == Text(n.value, false);
    ParseUndoesWrite(n);
    ConstructIsSound(t);
    FetchAllKeepsMeaning(Construct(t), paths);
    ConstructMeaning(t);
    ParseText(n.value);
  }

  /** Why the names matter: fetching the object {"\"":null} and writing it loses its member. */
  lemma RawNameIsLost()
    ensures var v, l := Obj([Node(['"'], Null)]), LObj([Lazy(['"'], Literal(NULL))]);
            && Fetch(Construct(Text(v, true))) == Some(l)
            && ParseDocument(LText(l)) == Parsed(Null)
  {
    var ns := [Node(['"'], Null)];
    var l := LObj([Lazy(['"'], Literal(NULL))]);
    hide Fetch, Construct, LText, ParseDocument, Text;
    FetchedQuoteName(ns);
    var w: Bytes := ['{', '"', '"', '"', ':', 'n', 'u', 'l', 'l', '}'];
    QuoteNameWritten(l, w);
    QuoteNameParsed(w);
  }

  lemma FetchedQuoteName(ns: seq<Node>)
    requires ns == [Node(['"'], Null)]
    ensures Fetch(Construct(Text(Obj(ns), true))) == Some(LObj([Lazy(['"'], Literal(NULL))]))
  {
    hide Fetch, Text;
    FetchContainer(ns, false);
    assert Construct(Text(Obj(ns), true)) == Raw(Text(Obj(ns), true)) by { TextShape(Obj(ns)); }
    var ls := KidsOf(Fetch(Raw(Text(Obj(ns), true))).value);
    assert |ls| == 1 && Rep(ls[0].value, Null);
    assert Text(Null, true) == NULL by { TextOfNull(); }
    assert ls == [ls[0]];
  }

  lemma QuoteNameWritten(l: LValue, w: Bytes)
    requires l == LObj([Lazy(['"'], Literal(NULL))])
    requires w == ['{', '"', '"', '"', ':', 'n', 'u', 'l', 'l', '}']
    ensures LText(l) == w
  {
    var c := LChild(l.members[0], false);
    assert c == ['"', '"', '"', ':'] + NULL;
    assert LJoin(l.members, false) == c + [];
  }

  lemma TextOfNull()
    ensures Text(Null, true) == NULL
  {
  }

  /** A text without quotes and backslashes, inside quotes that are not closed. */
  lemma {:induction false} CutQuotes(t: Bytes)
    requires forall i :: 0 <= i < |t| ==> t[i] != '"' && t[i] != '\\'
    ensures StripQuotes(t, true) == Cut(t) && AfterQuote(t) == None
  {
    if t != [] { CutQuotes(t[1..]); assert t == [t[0]] + t[1..]; }
  }

  lemma UnclosedQuote(t: Bytes)
    requires forall i :: 0 <= i < |t| ==> t[i] != '"' && t[i] != '\\'
    ensures Strip(['"'] + t, true) == Some(['"'] + t)
    ensures Find(':', ['"'] + t) == None
  {
    assert (['"'] + t)[1..] == t;
    CutQuotes(t);
  }

  lemma EmptyQuotes(c: Bytes)
    ensures Strip(['"', '"'] + c, true) == Prefix(['"', '"'], Strip(c, true))
    ensures Find(':', ['"', '"'] + c) == Find(':', c)
  {
    var b := ['"', '"'] + c;
    assert b[1..] == ['"'] + c && (['"'] + c)[1..] == c;
    assert ['"'] + ['"'] == ['"', '"'];
  }

  lemma QuoteNameStripped(w: Bytes)
    requires w == ['{', '"', '"', '"', ':', 'n', 'u', 'l', 'l', '}']
    ensures Strip(w, true) == Some(w) && Find(':', w[1..]) == None
  {
    hide Find, StripQuotes, Strip;
    var t: Bytes := [':', 'n', 'u', 'l', 'l', '}'];
    UnclosedQuote(t);
    EmptyQuotes(['"'] + t);
    assert w[1..] == ['"', '"'] + (['"'] + t);
    assert w == ['{'] + w[1..];
    StripByte('{', true, w[1..]);
  }

  lemma QuoteNameParsed(w: Bytes)
    requires w == ['{', '"', '"', '"', ':', 'n', 'u', 'l', 'l', '}']
    ensures ParseDocument(w) == Parsed(Null)
  {
    hide Strip, ParseValue;
    QuoteNameStripped(w);
    NoColonIsNull(w);
  }

  lemma NoColonIsNull(w: Bytes)
    requires |w| == 10 && w[0] == '{' && w[9] == '}' && Find(':', w[1..]) == None
    ensures ParseValue(w) == Some(Null)
  {
    assert Members(w[1..]) == Nullified;
  }
}
