/** Nodes as the parser leaves them: unfetched text until somebody asks, one level at a time. */
module JsonLazy {
  import opened Options
  import opened JsonEscape
  import opened JsonNumber
  import opened JsonTree
  import opened JsonScan
  import opened JsonParse

  /** The name of a parsed node is kept unescaped, and is marked as needing no escape. */
  datatype Lazy = Lazy(name: Bytes, value: LValue)

  datatype LValue =
    | Raw(text: Bytes)                  // fetched == false; a string, number, array or object, by its first byte
    | Literal(text: Bytes)              // a fetched number, bool or null, printed as it is
    | LStr(s: Bytes, encoded: bool)
    | LArr(items: seq<Lazy>)
    | LObj(members: seq<Lazy>)

  datatype LChildren = LKids(ns: seq<Lazy>) | LNullified | LUndefined

  // ---- Construction and one-level fetching

  /** internalJSONNode(name, value), for the value part. */
  function Construct(text: Bytes): LValue {
    if text == [] then Literal([])
    else
      var c, last := text[0], text[|text| - 1];
      if c == '"' then (if last == '"' then Raw(text) else Literal(NULL))
      else if c == '{' then (if last == '}' then Raw(text) else Literal(NULL))
      else if c == '[' then (if last == ']' then Raw(text) else Literal(NULL))
      else if c == 't' || c == 'T' then Literal(if text == TRUE then TRUE else NULL)
      else if c == 'f' || c == 'F' then Literal(if text == FALSE then FALSE else NULL)
      else if c == 'n' || c == 'N' then Literal(NULL)
      else if IsNumeric(text) then Raw(text)
      else Literal(NULL)
  }

  function LAttach(n: Lazy, rest: LChildren): LChildren {
    match rest case LKids(ns) => LKids([n] + ns) case _ => rest
  }

  function LElements(t: Bytes): LChildren
    decreases |t|
  {
    var next := Find(',', t);
    if next.None? && t == [] then LUndefined
    else
      var element := if next.None? then t[..|t| - 1] else t[..|t| - |next.value|];
      if Find(':', element).Some? then LNullified
      else if element != [] && element[0] == '#' then LUndefined
      else
        var rest := if next.None? then LKids([]) else LElements(next.value[1..]);
        LAttach(Lazy([], Construct(CString(element))), rest)
  }

  function LMembers(t: Bytes): LChildren
    decreases |t|
  {
    var colon := Find(':', t);
    if colon.None? then LNullified
    else
      var name := MemberName(t, |t| - |colon.value|);
      var next := Find(',', colon.value);
      if name.None? || (next.None? && |colon.value| < 2) then LUndefined
      else
        FindLater(':', ',', colon.value);
        var text := if next.None? then colon.value[1..|colon.value| - 1]
                    else colon.value[1..|colon.value| - |next.value|];
        var rest := if next.None? then LKids([]) else LMembers(next.value[1..]);
        LAttach(Lazy(name.value, Construct(text)), rest)
  }

  function LContainer(k: LChildren, inArray: bool): Option<LValue> {
    match k
    case LKids(ns) => Some(if inArray then LArr(ns) else LObj(ns))
    case LNullified => Some(Literal([]))  // Nullify writes "null", which the caller then clears
    case LUndefined => None
  }

  /** internalJSONNode::Fetch; None if undefined. */
  function Fetch(v: LValue): Option<LValue> {
    if !v.Raw? then Some(v)
    else if v.text == [] then Some(Literal(NULL))
    else
      var c, last := v.text[0], v.text[|v.text| - 1];
      if c == '"' then
        if |v.text| < 2 then None
        else
          var inner := v.text[1..|v.text| - 1];
          var s := Fix(inner);
          if s.None? then None else Some(LStr(s.value, HasBackslash(inner)))
      else if c == '{' then LContainer(if |v.text| <= 2 then LKids([]) else LMembers(v.text[1..]), false)
      else if c == '[' then LContainer(if |v.text| <= 2 then LKids([]) else LElements(v.text[1..]), true)
      else Some(Literal(v.text))
  }

  // ---- What a partly fetched node stands for

  function LiteralValue(text: Bytes): Value {
    if text == TRUE then Bool(true) else if text == FALSE then Bool(false)
    else if text == NULL || text == [] then Null else Num(text)
  }

  /** The tree after fetching everything; None if that is undefined. */
  function Meaning(v: LValue): Option<Value>
    decreases v, 1
  {
    match v
    case Raw(text) => ParseValue(text)
    case Literal(text) => Some(LiteralValue(text))
    case LStr(s, _) => Some(Str(s))
    case LArr(items) => Container(Meanings(items), true)
    case LObj(members) => Container(Meanings(members), false)
  }

  function Meanings(ns: seq<Lazy>): Children
    decreases ns, 0
  {
    if ns == [] then Kids([])
    else
      var rest := Meanings(ns[1..]);
      if !rest.Kids? then rest
      else
        var v := Meaning(ns[0].value);
        if v.None? then Undefined else Attach(Node(ns[0].name, v.value), rest)
  }

  function LMeaning(k: LChildren): Children {
    match k case LKids(ns) => Meanings(ns) case LNullified => Nullified case LUndefined => Undefined
  }

  lemma ConstructMeaning(text: Bytes)
    ensures Meaning(Construct(text)) == ParseValue(text)
  {
    if text != [] && IsNumeric(text) { NumericFirst(text); }
  }

  lemma NumericFirst(t: Bytes)
    requires IsNumeric(t) && t != []
    ensures IsDigit(t[0]) || t[0] == '.' || t[0] == '+' || t[0] == '-'
  {
  }

  lemma {:induction false} MeaningsNotNullified(ns: seq<Lazy>)
    ensures !Meanings(ns).Nullified?
  {
    if ns != [] { MeaningsNotNullified(ns[1..]); }
  }

  lemma {:induction false} ElementsMeaning(t: Bytes)
    ensures LMeaning(LElements(t)) == Elements(t)
    decreases |t|
  {
    hide Find, ParseValue, Construct, Meaning;
    var next := Find(',', t);
    if !(next.None? && t == []) {
      var element := if next.None? then t[..|t| - 1] else t[..|t| - |next.value|];
      if Find(':', element).None? {
        if next.Some? { ElementsMeaning(next.value[1..]); }
        var rest := if next.None? then LKids([]) else LElements(next.value[1..]);
        ConstructMeaning(CString(element));
        MeaningOfAttach(Lazy([], Construct(CString(element))), rest);
      }
    }
  }

  lemma MeaningOfAttach(n: Lazy, rest: LChildren)
    ensures LMeaning(LAttach(n, rest))
            == var r := LMeaning(rest);
               if !r.Kids? then r
               else if Meaning(n.value).None? then Undefined
               else Attach(Node(n.name, Meaning(n.value).value), r)
  {
    if rest.LKids? { assert ([n] + rest.ns)[1..] == rest.ns; }
  }

  lemma {:induction false} MembersMeaning(t: Bytes)
    ensures LMeaning(LMembers(t)) == Members(t)
    decreases |t|
  {
    hide Find, ParseValue, Construct, Meaning, MemberName;
    var colon := Find(':', t);
    if colon.Some? {
      var name := MemberName(t, |t| - |colon.value|);
      var next := Find(',', colon.value);
      if !(name.None? || (next.None? && |colon.value| < 2)) {
        FindLater(':', ',', colon.value);
        var text := if next.None? then colon.value[1..|colon.value| - 1]
                    else colon.value[1..|colon.value| - |next.value|];
        if next.Some? { MembersMeaning(next.value[1..]); }
        var rest := if next.None? then LKids([]) else LMembers(next.value[1..]);
        ConstructMeaning(text);
        MeaningOfAttach(Lazy(name.value, Construct(text)), rest);
      }
    }
  }

  /** A node as the constructor leaves it: unfetched text starts and ends as its type demands. */
  predicate Constructed(v: LValue) {
    v.Raw? ==> Construct(v.text) == v
  }

  /** Fetching a node never changes the tree it stands for, whatever the text is. */
  lemma FetchKeepsMeaning(v: LValue)
    requires Constructed(v)
    ensures Meaning(v) == (if Fetch(v).Some? then Meaning(Fetch(v).value) else None)
  {
    hide LElements, LMembers, Elements, Members, Fix, IsNumeric, LContainer, Container;
    if v.Raw? && v.text != [] {
      var c := v.text[0];
      if c == '[' {
        var k := if |v.text| <= 2 then LKids([]) else LElements(v.text[1..]);
        ElementsMeaning(v.text[1..]);
        MeaningOfContainer(k, true);
        assert LMeaning(k) == DoArray(v.text);
      } else if c == '{' {
        var k := if |v.text| <= 2 then LKids([]) else LMembers(v.text[1..]);
        MembersMeaning(v.text[1..]);
        MeaningOfContainer(k, false);
        assert LMeaning(k) == DoNode(v.text);
      } else if c != '"' {
        NumericFirst(v.text);
      }
    }
  }

  lemma MeaningOfContainer(k: LChildren, inArray: bool)
    ensures Container(LMeaning(k), inArray)
            == (if LContainer(k, inArray).Some? then Meaning(LContainer(k, inArray).value) else None)
  {
  }
}
