/** The parser: from stripped and masked text to a tree, every node fetched. */
module JsonParse {
  import opened Options
  import opened JsonEscape
  import opened JsonNumber
  import opened JsonTree
  import opened JsonStrip
  import opened JsonScan

  /** The children DoNode or DoArray attaches. Nullified: the text is not what it should be and the parent
      becomes null. Undefined: the code would build a string from a negative range, read past its end,
      or has met a comment. */
  datatype Children = Kids(ns: seq<Node>) | Nullified | Undefined

  /** A C string ends at its first NUL. */
  function CString(t: Bytes): (r: Bytes)
    ensures |r| <= |t|
  {
    if t == [] || t[0] == NUL then [] else [t[0]] + CString(t[1..])
  }

  function Attach(n: Node, rest: Children): Children {
    match rest case Kids(ns) => Kids([n] + ns) case _ => rest
  }

  /** The value constructor of internalJSONNode followed by Fetch; None if undefined. */
  function ParseValue(text: Bytes): Option<Value>
    decreases |text|, 1
  {
    if text == [] then Some(Null)
    else
      var c, last := text[0], text[|text| - 1];
      if c == '"' then
        if last != '"' then Some(Null)
        else if |text| < 2 then None
        else var s := Fix(text[1..|text| - 1]); if s.None? then None else Some(Str(s.value))
      else if c == '{' then
        if last != '}' then Some(Null) else Container(DoNode(text), false)
      else if c == '[' then
        if last != ']' then Some(Null) else Container(DoArray(text), true)
      else if c == 't' || c == 'T' then Some(if text == TRUE then Bool(true) else Null)
      else if c == 'f' || c == 'F' then Some(if text == FALSE then Bool(false) else Null)
      else if c == 'n' || c == 'N' then Some(Null)
      else if IsNumeric(text) then Some(Num(text))
      else Some(Null)
  }

  function Container(k: Children, inArray: bool): Option<Value> {
    match k
    case Kids(ns) => Some(if inArray then Arr(ns) else Obj(ns))
    case Nullified => Some(Null)
    case Undefined => None
  }

  function DoArray(text: Bytes): Children
    requires text != []
    decreases |text|, 0
  {
    if |text| <= 2 then Kids([]) else Elements(text[1..])
  }

  /** The rounds of DoArray from one element to the closing bracket. */
  function Elements(t: Bytes): Children
    decreases |t|, 0
  {
    var next := Find(',', t);
    if next.None? && t == [] then Undefined
    else
      var element := if next.None? then t[..|t| - 1] else t[..|t| - |next.value|];
      if Find(':', element).Some? then Nullified
      else if element != [] && element[0] == '#' then Undefined
      else
        var rest := if next.None? then Kids([]) else Elements(next.value[1..]);
        if !rest.Kids? then rest
        else
          var v := ParseValue(CString(element));
          if v.None? then Undefined else Attach(Node([], v.value), rest)
  }

  function DoNode(text: Bytes): Children
    requires text != []
    decreases |text|, 0
  {
    if |text| <= 2 then Kids([]) else Members(text[1..])
  }

  /** The name in quotes before a colon at index k of t; None if undefined. */
  function MemberName(t: Bytes, k: nat): Option<Bytes>
    requires k < |t|
  {
    if k < 2 || t[0] == '#' then None else Fix(CString(t[1..k - 1]))
  }

  /** The rounds of DoNode from one name to the closing bracket. */
  function Members(t: Bytes): Children
    decreases |t|, 0
  {
    var colon := Find(':', t);
    if colon.None? then Nullified
    else
      var name := MemberName(t, |t| - |colon.value|);
      var next := Find(',', colon.value);
      if name.None? || (next.None? && |colon.value| < 2) then Undefined
      else
        FindLater(':', ',', colon.value);
        var text := if next.None? then colon.value[1..|colon.value| - 1]
                    else colon.value[1..|colon.value| - |next.value|];
        var rest := if next.None? then Kids([]) else Members(next.value[1..]);
        if !rest.Kids? then rest
        else
          var v := ParseValue(text);
          if v.None? then Undefined else Attach(Node(name.value, v.value), rest)
  }

  lemma FindLater(c: Octet, ch: Octet, t: Bytes)
    requires t != [] && t[0] == c && c != ch
    ensures Find(ch, t).Some? ==> |Find(ch, t).value| < |t|
  {
  }

  datatype Document = Parsed(value: Value) | NotJson | UndefinedDocument

  /** What follows the next comment mark. */
  function AfterMark(t: Bytes): (r: Option<Bytes>)
    ensures r.Some? ==> |r.value| < |t|
  {
    if t == [] then None else if t[0] == COMMENT_MARK then Some(t[1..]) else AfterMark(t[1..])
  }

  /** _parse_unformatted steps over the comments in front. None: the code would read past the end. */
  function SkipComments(t: Bytes): Option<Bytes>
    decreases |t|
  {
    if t == [] || t[0] != COMMENT_MARK then Some(t)
    else match AfterMark(t[1..]) case None => None case Some(rest) => SkipComments(rest)
  }

  /** JSONWorker::parse and the fetch of everything in its result. */
  function ParseDocument(text: Bytes): Document {
    var s := Strip(text, true);
    if s.None? then UndefinedDocument else ParseStripped(SkipComments(s.value))
  }

  function ParseStripped(s: Option<Bytes>): Document {
    if s.None? then UndefinedDocument
    else if s.value == [] then NotJson
    else
      var c, last := s.value[0], s.value[|s.value| - 1];
      if (c == '[' && last == ']') || (c == '{' && last == '}') then
        var v := ParseValue(s.value);
        if v.None? then UndefinedDocument else Parsed(v.value)
      else NotJson
  }

  // ---- The tree that comes back

  /** A tree without the names the writer does not print: those of array elements. */
  function Erase(v: Value): Value
    decreases v, 1
  {
    match v
    case Arr(items) => Arr(EraseAll(items, true))
    case Obj(members) => Obj(EraseAll(members, false))
    case _ => v
  }

  function EraseAll(ns: seq<Node>, inArray: bool): (r: seq<Node>)
    ensures |r| == |ns|
    decreases ns, 0
  {
    if ns == [] then []
    else [Node(if inArray then [] else ns[0].name, Erase(ns[0].value))] + EraseAll(ns[1..], inArray)
  }

  lemma {:induction false} CStringOfText(w: Bytes)
    requires NUL !in w
    ensures CString(w) == w
  {
    if w != [] {
      CStringOfText(w[1..]);
      assert [w[0]] + w[1..] == w;
    }
  }

  lemma QuotedHasNoNul(s: Bytes)
    ensures NUL !in Escape(s, true) && NUL !in Quoted(s, true)
  {
    EscapedIsQuiet(s);
    forall i | 0 <= i < |Escape(s, true)| ensures Escape(s, true)[i] != NUL { assert Quiet(Escape(s, true)[i]); }
  }

  lemma PlainHasNoNul(w: Bytes)
    requires AllPlain(w)
    ensures NUL !in w
  {
  }

  lemma {:induction false} TextHasNoNul(v: Value)
    requires GoodNumbers(v)
    ensures NUL !in Text(v, true)
    decreases v, 1
  {
    match v
    case Str(s) => QuotedHasNoNul(s);
    case Num(text) =>
    case Bool(b) => PlainHasNoNul(Text(v, true));
    case Null => PlainHasNoNul(NULL);
    case Arr(items) => JoinHasNoNul(items, true);
    case Obj(members) => JoinHasNoNul(members, false);
  }

  lemma {:induction false} JoinHasNoNul(ns: seq<Node>, inArray: bool)
    requires forall n :: n in ns ==> GoodNumbers(n.value)
    ensures NUL !in Join(ns, inArray, true)
    decreases ns, 0
  {
    if ns != [] {
      TextHasNoNul(ns[0].value);
      QuotedHasNoNul(ns[0].name);
      JoinHasNoNul(ns[1..], inArray);
    }
  }

  /** What a text looks like from outside: its first and last byte select the right case. */
  lemma TextShape(v: Value)
    requires GoodNumbers(v)
    ensures var t := Text(v, true);
            && t != []
            && t[0] != ':' && t[0] != ',' && t[0] != '#'
            && (v.Str? ==> |t| >= 2 && t[0] == '"' && t[|t| - 1] == '"')
            && (v.Arr? ==> |t| >= 2 && t[0] == '[' && t[|t| - 1] == ']')
            && (v.Obj? ==> |t| >= 2 && t[0] == '{' && t[|t| - 1] == '}')
  {
    if v.Num? { NumericIsPlain(v.text); }
  }

  // ---- Parsing undoes printing

  lemma {:induction false} ParseText(v: Value)
    requires GoodNumbers(v)
    ensures ParseValue(Text(v, true)) == Some(Erase(v))
    decreases v, 1
  {
    TextShape(v);
    match v
    case Str(s) => ParseQuoted(s);
    case Num(text) => NumericIsPlain(text);
    case Bool(b) =>
    case Null =>
    case Arr(items) =>
      ParseArray(items);
    case Obj(members) =>
      ParseObject(members);
  }

  lemma ParseQuoted(s: Bytes)
    ensures ParseValue(Quoted(s, true)) == Some(Str(s))
  {
    var t := Quoted(s, true);
    assert t[1..|t| - 1] == Escape(s, true);
    FixUndoesUnfix(s, true);
  }

  lemma {:induction false} ParseArray(items: seq<Node>)
    requires forall n :: n in items ==> GoodNumbers(n.value)
    ensures ParseValue(['['] + Join(items, true, true) + [']']) == Some(Arr(EraseAll(items, true)))
    decreases items, 1
  {
    hide Elements;
    var j := Join(items, true, true);
    var t := ['['] + j + [']'];
    assert t[1..] == j + [']'];
    if items == [] {
      assert j == [];
    } else {
      assert |j| >= 1 by { JoinNotEmpty(items, true); }
      ElementsOfJoin(items);
    }
  }

  lemma JoinNotEmpty(ns: seq<Node>, inArray: bool)
    requires ns != [] && GoodNumbers(ns[0].value)
    ensures |Join(ns, inArray, true)| >= 1
  {
    TextShape(ns[0].value);
  }

  /** One round of DoArray on an element e. */
  lemma {:induction false} ElementsRound(e: Bytes, after: Bytes, v: Value)
    requires e != [] && e[0] != '#' && NUL !in e && Find(':', e) == None && ParseValue(e) == Some(v) && after != []
    requires if after[0] == ',' then Find(',', e + after) == Some(after) else Find(',', e + after) == None && |after| == 1
    ensures Elements(e + after)
            == Attach(Node([], v), if after[0] == ',' then Elements(after[1..]) else Kids([]))
  {
    hide Find, ParseValue;
    CStringOfText(e);
    var t := e + after;
    assert t[..|t| - |after|] == e;
  }

  lemma {:induction false} ElementsOfJoin(items: seq<Node>)
    requires items != [] && forall n :: n in items ==> GoodNumbers(n.value)
    ensures Elements(Join(items, true, true) + [']']) == Kids(EraseAll(items, true))
    decreases items, 0
  {
    hide Find, ParseValue, GoodNumbers, Elements, Join, Text, Erase;
    var v, e := items[0].value, Text(items[0].value, true);
    assert forall n :: n in items[1..] ==> n in items;
    var after := if |items| == 1 then [']'] else [','] + (Join(items[1..], true, true) + [']']);
    assert Join(items, true, true) + [']'] == e + after by { JoinFront(items, true); }
    assert after == [after[0]] + after[1..];
    FindPassesText(',', v, after);
    FindHere(',', after[0], after[1..]);
    assert e + [] == e;
    FindPassesText(':', v, []);
    FindHere(':', ']', []);
    TextHasNoNul(v);
    TextShape(v);
    ParseText(v);
    ElementsRound(e, after, Erase(v));
    if |items| == 1 {
      assert EraseAll(items, true) == [Node([], Erase(v))] + [];
    } else {
      assert after[1..] == Join(items[1..], true, true) + [']'];
      ElementsOfJoin(items[1..]);
    }
  }

  /** The first child and what follows it. */
  lemma JoinFront(ns: seq<Node>, inArray: bool)
    requires ns != []
    ensures Join(ns, inArray, true)
            == Child(ns[0], inArray, true) + (if |ns| == 1 then [] else [','] + Join(ns[1..], inArray, true))
    ensures Child(ns[0], true, true) == Text(ns[0].value, true)
    ensures Child(ns[0], false, true) == Quoted(ns[0].name, true) + [':'] + Text(ns[0].value, true)
  {
  }

  lemma {:induction false} ParseObject(members: seq<Node>)
    requires forall n :: n in members ==> GoodNumbers(n.value)
    ensures ParseValue(['{'] + Join(members, false, true) + ['}']) == Some(Obj(EraseAll(members, false)))
    decreases members, 1
  {
    hide Members;
    var j := Join(members, false, true);
    var t := ['{'] + j + ['}'];
    assert t[1..] == j + ['}'];
    if members == [] {
      assert j == [];
    } else {
      assert |j| >= 1 by { JoinNotEmpty(members, false); }
      MembersOfJoin(members);
    }
  }

  /** One round of DoNode on a name and a value e. */
  lemma {:induction false} MembersRound(name: Bytes, e: Bytes, after: Bytes, v: Value)
    requires after != [] && ParseValue(e) == Some(v)
    requires var colon := [':'] + (e + after);
             && Find(':', Quoted(name, true) + colon) == Some(colon)
             && (if after[0] == ',' then Find(',', colon) == Some(after) else Find(',', colon) == None && |after| == 1)
    ensures Members(Quoted(name, true) + ([':'] + (e + after)))
            == Attach(Node(name, v), if after[0] == ',' then Members(after[1..]) else Kids([]))
  {
    hide Find, ParseValue, Quoted, MemberName;
    var q, colon := Quoted(name, true), [':'] + (e + after);
    NameBeforeColon(name, colon);
    assert |q + colon| - |colon| == |q|;
    assert colon[1..|colon| - |after|] == e;
  }

  lemma {:induction false} MembersOfJoin(members: seq<Node>)
    requires members != [] && forall n :: n in members ==> GoodNumbers(n.value)
    ensures Members(Join(members, false, true) + ['}']) == Kids(EraseAll(members, false))
    decreases members, 0
  {
    hide Find, ParseValue, GoodNumbers, Quoted, Members, Join, Text, MemberName, Erase;
    var m := members[0];
    var q, e := Quoted(m.name, true), Text(m.value, true);
    assert forall n :: n in members[1..] ==> n in members;
    var after := if |members| == 1 then ['}'] else [','] + (Join(members[1..], false, true) + ['}']);
    var colon := [':'] + (e + after);
    assert Join(members, false, true) + ['}'] == q + colon by { JoinFront(members, false); }
    assert after == [after[0]] + after[1..];
    FindPassesQuoted(':', m.name, colon);
    FindHere(':', ':', e + after);
    FindPassesColon(e + after);
    FindPassesText(',', m.value, after);
    FindHere(',', after[0], after[1..]);
    ParseText(m.value);
    MembersRound(m.name, e, after, Erase(m.value));
    if |members| == 1 {
      assert EraseAll(members, false) == [Node(m.name, Erase(m.value))] + [];
    } else {
      assert after[1..] == Join(members[1..], false, true) + ['}'];
      MembersOfJoin(members[1..]);
    }
  }

  lemma FindPassesColon(rest: Bytes)
    ensures Find(',', [':'] + rest) == Find(',', rest)
  {
    assert ([':'] + rest)[1..] == rest;
  }

  lemma NameBeforeColon(name: Bytes, colon: Bytes)
    requires colon != []
    ensures var q := Quoted(name, true); MemberName(q + colon, |q|) == Some(name)
  {
    var q := Quoted(name, true);
    var t := q + colon;
    assert t[1..|q| - 1] == Escape(name, true);
    QuotedHasNoNul(name);
    CStringOfText(Escape(name, true));
    FixUndoesUnfix(name, true);
  }

  /** Parsing what either writer prints gives back the tree, but for the names of array elements and of
      the root, which are not printed. */
  lemma ParseUndoesWrite(n: Node)
    requires IsContainer(n.value) && GoodNumbers(n.value)
    ensures ParseDocument(Compact(n)) == Parsed(Erase(n.value)) == ParseDocument(Formatted(n))
  {
    hide ParseValue, Strip;
    StripForParsing(n);
    TextShape(n.value);
    ParseText(n.value);
  }

  /** No element of any array has a name. */
  predicate ElementsUnnamed(v: Value) {
    match v
    case Arr(items) => forall n :: n in items ==> n.name == [] && ElementsUnnamed(n.value)
    case Obj(members) => forall n :: n in members ==> ElementsUnnamed(n.value)
    case _ => true
  }

  lemma {:induction false} EraseIsIdentity(v: Value)
    ensures Erase(v) == v <==> ElementsUnnamed(v)
    decreases v, 1
  {
    match v
    case Arr(items) => EraseAllIsIdentity(items, true);
    case Obj(members) => EraseAllIsIdentity(members, false);
    case _ =>
  }

  lemma {:induction false} EraseAllIsIdentity(ns: seq<Node>, inArray: bool)
    ensures EraseAll(ns, inArray) == ns
       <==> forall n :: n in ns ==> (inArray ==> n.name == []) && ElementsUnnamed(n.value)
    decreases ns, 0
  {
    hide Erase, ElementsUnnamed;
    if ns != [] {
      var e := EraseAll(ns, inArray);
      EraseIsIdentity(ns[0].value);
      EraseAllIsIdentity(ns[1..], inArray);
      assert e[1..] == EraseAll(ns[1..], inArray);
      assert e == ns <==> e[0] == ns[0] && e[1..] == ns[1..] by {
        assert e == [e[0]] + e[1..] && ns == [ns[0]] + ns[1..];
      }
      assert forall n :: n in ns <==> n == ns[0] || n in ns[1..];
    }
  }

  /** Exactly the trees whose array elements are unnamed come back as they were. */
  lemma RoundTripExactly(n: Node)
    requires IsContainer(n.value) && GoodNumbers(n.value)
    ensures ParseDocument(Compact(n)) == Parsed(n.value) <==> ElementsUnnamed(n.value)
  {
    hide ParseDocument, Compact, Formatted;
    ParseUndoesWrite(n);
    EraseIsIdentity(n.value);
  }

  /** Every tree the setters make comes back but for the names of array elements. */
  lemma SetterTreesComeBack(n: Node)
    requires IsContainer(n.value) && SetterBuilt(n.value)
    ensures ParseDocument(Compact(n)) == Parsed(Erase(n.value)) == ParseDocument(Formatted(n))
  {
    hide ParseDocument, Compact, Formatted, SetterBuilt, GoodNumbers, Erase;
    SettersMakeGoodNumbers(n.value);
    ParseUndoesWrite(n);
  }
}
