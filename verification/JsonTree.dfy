/** JSON trees and the two prints of JSONWriter.cpp. */
module JsonTree {
  import opened JsonEscape
  import opened JsonNumber

  /** A node carries its name; only members of objects have it printed. A number is its text. */
  datatype Node = Node(name: Bytes, value: Value)

  datatype Value =
    | Str(s: Bytes)
    | Num(text: Bytes)
    | Bool(b: bool)
    | Null
    | Arr(items: seq<Node>)
    | Obj(members: seq<Node>)

  predicate IsContainer(v: Value) { v.Arr? || v.Obj? }

  /** Set(json_int_t). */
  function Int(n: int): Value { Num(IntText(n)) }

  /** Every number text is one the reader takes for a number. */
  ghost predicate GoodNumbers(v: Value) {
    match v
    case Num(text) => IsNumeric(text) && NUL !in text
    case Arr(items) => forall n :: n in items ==> GoodNumbers(n.value)
    case Obj(members) => forall n :: n in members ==> GoodNumbers(n.value)
    case _ => true
  }

  /** A tree the setters make: its numbers are integers. */
  ghost predicate SetterBuilt(v: Value) {
    match v
    case Num(_) => exists n :: v == Int(n)
    case Arr(items) => forall n :: n in items ==> SetterBuilt(n.value)
    case Obj(members) => forall n :: n in members ==> SetterBuilt(n.value)
    case _ => true
  }

  lemma {:induction false} SettersMakeGoodNumbers(v: Value)
    requires SetterBuilt(v)
    ensures GoodNumbers(v)
  {
    match v
    case Num(text) =>
      var n :| v == Int(n);
      IntTextIsNumeric(n);
    case Arr(items) => forall n | n in items ensures GoodNumbers(n.value) { SettersMakeGoodNumbers(n.value); }
    case Obj(members) => forall n | n in members ensures GoodNumbers(n.value) { SettersMakeGoodNumbers(n.value); }
    case _ =>
  }

  // ---- The compact print; with mask, as the stripper hands it to the parser

  function Quoted(s: Bytes, mask: bool): Bytes {
    ['"'] + Escape(s, mask) + ['"']
  }

  const TRUE: Bytes := ['t', 'r', 'u', 'e']
  const FALSE: Bytes := ['f', 'a', 'l', 's', 'e']
  const NULL: Bytes := ['n', 'u', 'l', 'l']

  function Text(v: Value, mask: bool): Bytes
    decreases v, 1
  {
    match v
    case Str(s) => Quoted(s, mask)
    case Num(text) => text
    case Bool(b) => if b then TRUE else FALSE
    case Null => NULL
    case Arr(items) => ['['] + Join(items, true, mask) + [']']
    case Obj(members) => ['{'] + Join(members, false, mask) + ['}']
  }

  function Child(n: Node, arrayChild: bool, mask: bool): Bytes
    decreases n, 2
  {
    (if arrayChild then [] else Quoted(n.name, mask) + [':']) + Text(n.value, mask)
  }

  function Join(ns: seq<Node>, arrayChild: bool, mask: bool): Bytes
    decreases ns, 0
  {
    if ns == [] then []
    else Child(ns[0], arrayChild, mask) + (if |ns| == 1 then [] else [','] + Join(ns[1..], arrayChild, mask))
  }

  /** What JSONNode::write makes of a container. */
  function Compact(n: Node): Bytes {
    Child(n, true, false)
  }

  // ---- The formatted print

  function Tabs(n: nat): Bytes {
    if n == 0 then [] else ['\t'] + Tabs(n - 1)
  }

  function NewLine(indent: nat): Bytes { ['\n'] + Tabs(indent) }

  function FormattedText(v: Value, indent: nat): Bytes
    decreases v, 1
  {
    match v
    case Arr(items) => ['['] + FormattedAll(items, true, indent) + [']']
    case Obj(members) => ['{'] + FormattedAll(members, false, indent) + ['}']
    case _ => Text(v, false)
  }

  function FormattedChild(n: Node, arrayChild: bool, indent: nat): Bytes
    decreases n, 2
  {
    (if arrayChild then [] else Quoted(n.name, false) + [' ', ':', ' ']) + FormattedText(n.value, indent)
  }

  function FormattedAll(ns: seq<Node>, arrayChild: bool, indent: nat): Bytes
    decreases ns, 1
  {
    if ns == [] then [] else FormattedJoin(ns, arrayChild, indent + 1) + NewLine(indent)
  }

  function FormattedJoin(ns: seq<Node>, arrayChild: bool, indent: nat): Bytes
    decreases ns, 0
  {
    if ns == [] then []
    else NewLine(indent) + FormattedChild(ns[0], arrayChild, indent)
         + (if |ns| == 1 then [] else [','] + FormattedJoin(ns[1..], arrayChild, indent))
  }

  /** What JSONNode::write_formatted makes of a container. */
  function Formatted(n: Node): Bytes {
    FormattedChild(n, true, 0)
  }

  // ---- The writer as the code runs it

  const COMPACT: int := -1

  function NodeText(v: Value, indent: int): Bytes
    requires indent >= COMPACT
  {
    if indent == COMPACT then Text(v, false) else FormattedText(v, indent)
  }

  function ChildText(n: Node, arrayChild: bool, indent: int): Bytes
    requires indent >= COMPACT
  {
    if indent == COMPACT then Child(n, arrayChild, false) else FormattedChild(n, arrayChild, indent)
  }

  function ChildrenText(ns: seq<Node>, inArray: bool, indent: int): Bytes
    requires indent >= COMPACT
  {
    if indent == COMPACT then Join(ns, inArray, false) else FormattedAll(ns, inArray, indent)
  }

  function NameText(n: Node, arrayChild: bool, indent: int): Bytes {
    if arrayChild then [] else Quoted(n.name, false) + (if indent == COMPACT then [':'] else [' ', ':', ' '])
  }

  lemma TextCases(n: Node, arrayChild: bool, indent: int)
    requires indent >= COMPACT
    ensures ChildText(n, arrayChild, indent) == NameText(n, arrayChild, indent) + NodeText(n.value, indent)
    ensures match n.value
            case Arr(items) => NodeText(n.value, indent) == ['['] + ChildrenText(items, true, indent) + [']']
            case Obj(members) => NodeText(n.value, indent) == ['{'] + ChildrenText(members, false, indent) + ['}']
            case v => NodeText(v, indent) == Text(v, false)
  {
  }

  /** internalJSONNode::WriteName. */
  method WriteName(n: Node, indent: int, arrayChild: bool, output: Bytes) returns (res: Bytes)
    requires indent >= COMPACT
    ensures res == output + NameText(n, arrayChild, indent)
  {
    hide Escape;
    res := output;
    if !arrayChild {
      res := res + ['"'];
      res := UnfixString(n.name, true, res);
      res := res + (if indent == COMPACT then ['"', ':'] else ['"', ' ', ':', ' ']);
    }
  }

  /** internalJSONNode::Write on a fetched tree: indent is COMPACT or the depth. */
  method Write(n: Node, indent: int, arrayChild: bool, output: Bytes) returns (res: Bytes)
    requires indent >= COMPACT
    ensures res == output + ChildText(n, arrayChild, indent)
    decreases n, 1
  {
    hide ChildText, NodeText, ChildrenText, NameText, Escape;
    TextCases(n, arrayChild, indent);
    res := WriteName(n, indent, arrayChild, output);
    ghost var named := res;
    match n.value {
      case Obj(members) =>
        res := res + ['{'];
        res := WriteChildren(members, indent, false, res);
        res := res + ['}'];
      case Arr(items) =>
        res := res + ['['];
        res := WriteChildren(items, indent, true, res);
        res := res + [']'];
      case Num(text) => res := res + text;
      case Null => res := res + NULL;
      case Bool(b) => res := res + (if b then TRUE else FALSE);
      case Str(s) =>
        res := res + ['"'];
        res := UnfixString(s, true, res);
        res := res + ['"'];
    }
    assert res == named + NodeText(n.value, indent);
  }

  /** internalJSONNode::WriteChildren. */
  method WriteChildren(ns: seq<Node>, indent: int, inArray: bool, output: Bytes) returns (res: Bytes)
    requires indent >= COMPACT
    ensures res == output + ChildrenText(ns, inArray, indent)
    decreases ns, 0
  {
    hide Remaining, Piece, ChildText, ChildrenText, NewLine;
    res := output;
    if ns == [] {
      assert ChildrenText(ns, inArray, indent) == [] by { NoChildren(inArray, indent); }
      assert res + [] == res;
      return;
    }
    var inner := if indent == COMPACT then COMPACT else indent + 1;
    var i := 0;
    while i < |ns|
      invariant i <= |ns|
      invariant res + Remaining(ns, i, inArray, inner) == output + Remaining(ns, 0, inArray, inner)
    {
      NextChild(ns, i, inArray, inner);
      ghost var before := res;
      res := res + (if indent == COMPACT then [] else NewLine(inner));
      res := Write(ns[i], inner, inArray, res);
      if i < |ns| - 1 {
        res := res + [','];
      }
      assert res == before + Piece(ns, i, inArray, inner);
      i := i + 1;
    }
    AllChildren(ns, inArray, indent);
    assert res + [] == res;
    if indent != COMPACT {
      res := res + NewLine(indent);
    }
  }

  lemma NoChildren(inArray: bool, indent: int)
    requires indent >= COMPACT
    ensures ChildrenText([], inArray, indent) == []
  {
  }

  /** JSONNode::write and JSONNode::write_formatted: only a container is written, and without its name. */
  method WriteRoot(n: Node, formatted: bool) returns (res: Bytes)
    ensures res == if !IsContainer(n.value) then [] else if formatted then Formatted(n) else Compact(n)
  {
    if !IsContainer(n.value) {
      return [];
    }
    res := Write(n, if formatted then 0 else COMPACT, true, []);
  }

  /** What is still to be printed from child i on, and what one round prints. */
  function Remaining(ns: seq<Node>, i: nat, inArray: bool, indent: int): Bytes
    requires i <= |ns| && indent >= COMPACT
  {
    if indent == COMPACT then Join(ns[i..], inArray, false) else FormattedJoin(ns[i..], inArray, indent)
  }

  function Piece(ns: seq<Node>, i: nat, inArray: bool, indent: int): Bytes
    requires i < |ns| && indent >= COMPACT
  {
    (if indent == COMPACT then [] else NewLine(indent)) + ChildText(ns[i], inArray, indent)
    + (if i < |ns| - 1 then [','] else [])
  }

  lemma {:induction false} NextChild(ns: seq<Node>, i: nat, inArray: bool, indent: int)
    requires i < |ns| && indent >= COMPACT
    ensures Remaining(ns, i, inArray, indent) == Piece(ns, i, inArray, indent) + Remaining(ns, i + 1, inArray, indent)
    ensures Piece(ns, i, inArray, indent)
            == (if indent == COMPACT then [] else NewLine(indent)) + ChildText(ns[i], inArray, indent)
               + (if i < |ns| - 1 then [','] else [])
  {
    hide NewLine, Child, FormattedChild;
    assert ns[i..][1..] == ns[i + 1..] && ns[i..][0] == ns[i];
    if i == |ns| - 1 { assert ns[i + 1..] == []; }
  }

  lemma AllChildren(ns: seq<Node>, inArray: bool, indent: int)
    requires indent >= COMPACT && ns != []
    ensures var inner := if indent == COMPACT then COMPACT else indent + 1;
            && Remaining(ns, |ns|, inArray, inner) == []
            && ChildrenText(ns, inArray, indent)
               == Remaining(ns, 0, inArray, inner) + (if indent == COMPACT then [] else NewLine(indent))
  {
    assert ns[0..] == ns && ns[|ns|..] == [];
  }
}
