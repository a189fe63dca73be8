/** internalJSONNode as an object: construction and fetching in place. */
module JsonNodes {
  import opened Options
  import opened JsonEscape
  import opened JsonNumber
  import opened JsonTree
  import opened JsonScan
  import opened JsonParse
  import opened JsonLazy

  datatype Kind = StringKind | NumberKind | BoolKind | NullKind | ArrayKind | NodeKind

  /** The union _value, without the floating-point member. */
  datatype Stored = Nothing | Truth(b: bool) | Integer(n: int)

  /** Children put before those still to come. */
  function Prepend(ns: seq<Lazy>, rest: LChildren): LChildren {
    match rest case LKids(more) => LKids(ns + more) case _ => rest
  }

  lemma PrependOne(ns: seq<Lazy>, n: Lazy, rest: LChildren)
    ensures Prepend(ns, LAttach(n, rest)) == Prepend(ns + [n], rest)
    ensures Prepend([], rest) == rest && Prepend(ns, LKids([])) == LKids(ns)
  {
    assert ns + [] == ns;
    if rest.LKids? { assert ns + ([n] + rest.ns) == ns + [n] + rest.ns && [] + rest.ns == rest.ns; }
  }

  lemma PrependToNone(ns: seq<Lazy>, rest: LChildren)
    requires !rest.LKids?
    ensures Prepend(ns, rest) == rest
  {
  }

  class InternalNode {
    var kind: Kind
    var name: Bytes
    var text: Bytes      // _string
    var encoded: bool    // _string_encoded
    var fetched: bool
    var children: seq<InternalNode>
    var stored: Stored   // _value

    /** The node without its children. */
    function Shallow(): LValue
      reads this
    {
      if !fetched then Raw(text)
      else match kind
        case StringKind => LStr(text, encoded)
        case ArrayKind => LArr([])
        case NodeKind => LObj([])
        case _ => Literal(text)
    }

    /** An unfetched node has the type its first byte says, and no children. What a fetched number or bool
        stores agrees with its text. */
    ghost predicate Valid()
      reads this
    {
      if !fetched then
        && Construct(text) == Raw(text)
        && children == []
        && kind == KindOf(text[0])
      else
        && (kind == NumberKind ==> stored == Integer(Atoll(text)))
        && (kind == BoolKind ==> stored == Truth(text == TRUE))
    }

    static function KindOf(c: Octet): Kind {
      if c == '"' then StringKind else if c == '{' then NodeKind else if c == '[' then ArrayKind else NumberKind
    }

    /** The children are fresh from the constructor and are those of the list. */
    ghost predicate HasKids(ns: seq<Lazy>)
      reads this`children, children
    {
      |children| == |ns|
      && forall i :: 0 <= i < |ns| ==>
           && children[i].name == ns[i].name
           && children[i].Shallow() == ns[i].value
           && children[i].children == []
           && children[i].Valid()
    }

    /** The node, with children nobody has fetched yet, is v. */
    ghost predicate Is(v: LValue)
      reads this, children
    {
      match v
      case LArr(items) => fetched && kind == ArrayKind && HasKids(items)
      case LObj(members) => fetched && kind == NodeKind && HasKids(members)
      case _ => Shallow() == v
    }

    constructor (nameText: Bytes, value: Bytes)
      requires Fix(nameText).Some?
      ensures name == Fix(nameText).value
      ensures Shallow() == Construct(value) && children == [] && Valid()
    {
      hide Fix, IsNumeric;
      kind, text, encoded, fetched, children, stored := NullKind, [], false, false, [], Nothing;
      name := [];
      new;
      var fixed, flag := FixString(nameText);
      name := fixed.value;
      if value == [] {
        fetched := true;
        return;
      }
      text := value;
      var first, last := value[0], value[|value| - 1];
      if first == '"' {
        if last != '"' { Nullify(); return; }
        kind := StringKind;
      } else if first == '{' {
        if last != '}' { Nullify(); return; }
        kind := NodeKind;
      } else if first == '[' {
        if last != ']' { Nullify(); return; }
        kind := ArrayKind;
      } else if first == 't' || first == 'T' {
        if value != TRUE { Nullify(); return; }
        kind, stored, fetched := BoolKind, Truth(true), true;
      } else if first == 'f' || first == 'F' {
        if value != FALSE { Nullify(); return; }
        kind, stored, fetched := BoolKind, Truth(false), true;
      } else if first == 'n' || first == 'N' {
        if value != NULL { Nullify(); return; }
        kind, fetched := NullKind, true;
      } else {
        if !IsNumeric(value) { Nullify(); return; }
        kind := NumberKind;
      }
    }

    method Nullify()
      modifies this`kind, this`text, this`fetched
      ensures kind == NullKind && text == NULL && fetched
    {
      kind, text, fetched := NullKind, NULL, true;
    }

    /** Set(json_string). */
    method SetString(val: Bytes)
      modifies this`kind, this`text, this`encoded, this`fetched
      ensures Valid() && Shallow() == LStr(val, true)
    {
      kind, text, encoded, fetched := StringKind, val, true, true;
    }

    /** Set(json_int_t), for integers above the least one of 64 bits. */
    method SetInt(val: int)
      requires -INT64_LIMIT < val < INT64_LIMIT
      modifies this`kind, this`text, this`fetched, this`stored
      ensures Valid() && Shallow() == Literal(IntText(val)) && kind == NumberKind && stored == Integer(val)
    {
      kind, stored := NumberKind, Integer(val);
      text := Itoa(val);
      fetched := true;
      AtollUndoesItoa(val);
    }

    /** Set(bool). */
    method SetBool(val: bool)
      modifies this`kind, this`text, this`fetched, this`stored
      ensures Valid() && Shallow() == Literal(if val then TRUE else FALSE) && kind == BoolKind && stored == Truth(val)
    {
      kind, stored, text, fetched := BoolKind, Truth(val), if val then TRUE else FALSE, true;
    }

    /** JSONWorker::NewNode. */
    method NewNode(nameText: Bytes, value: Bytes, ghost done: seq<Lazy>) returns (child: InternalNode)
      requires Fix(nameText).Some? && HasKids(done) && this !in children
      modifies this`children
      ensures fresh(child) && children == old(children) + [child]
      ensures HasKids(done + [Lazy(Fix(nameText).value, Construct(value))])
    {
      hide Fix, Construct, Valid;
      child := new InternalNode(nameText, value);
      children := children + [child];
    }

    /** JSONWorker::DoArray. False if the code is undefined on this text. */
    method DoArray(value: Bytes) returns (ok: bool)
      requires value != [] && value[0] == '[' && children == []
      modifies this`kind, this`text, this`fetched, this`children
      ensures this !in children && fresh(children)
      ensures Outcome(ok, if |value| <= 2 then LKids([]) else LElements(value[1..]), old(kind), old(fetched))
    {
      hide Find, LElements, Construct, Valid, HasKids, Shallow;
      NoKids();
      if |value| <= 2 {
        return true;
      }
      var starting := 1;
      ghost var done: seq<Lazy> := [];
      ghost var all := LElements(value[1..]);
      PrependOne([], Lazy([], Literal([])), all);
      var ending := FindNextRelevant(',', value, 1);
      while ending != NPOS
        invariant 1 <= starting <= |value|
        invariant ending == PosOf(value, Find(',', value[starting..]))
        invariant ending == NPOS || (starting <= ending < |value| && value[ending..] == Find(',', value[starting..]).value)
        invariant all == Prepend(done, LElements(value[starting..]))
        invariant this !in children && fresh(children) && HasKids(done)
        invariant kind == old(kind) && fetched == old(fetched)
        decreases |value| - starting
      {
        var newValue := value[starting..ending];
        ElementAt(value, starting, ending, done);
        var colon := FindNextRelevant(':', newValue, 0);
        assert newValue[0..] == newValue;
        if colon != NPOS {
          Nullify();
          return true;
        }
        if newValue != [] && newValue[0] == '#' {
          return false;
        }
        var _ := NewNode([], CString(newValue), done);
        done := done + [Lazy([], Construct(CString(newValue)))];
        starting := ending + 1;
        ending := FindNextRelevant(',', value, starting);
      }
      ElementAt(value, starting, ending, done);
      if starting == |value| {
        return false;
      }
      var newValue := value[starting..|value| - 1];
      var colon := FindNextRelevant(':', newValue, 0);
      assert newValue[0..] == newValue;
      if colon != NPOS {
        Nullify();
        return true;
      }
      if newValue != [] && newValue[0] == '#' {
        return false;
      }
      var _ := NewNode([], CString(newValue), done);
      PrependOne(done + [Lazy([], Construct(CString(newValue)))], Lazy([], Literal([])), LKids([]));
      return true;
    }

    /** What DoArray and DoNode leave, for the children k. */
    ghost predicate Outcome(ok: bool, k: LChildren, kind0: Kind, fetched0: bool)
      reads this, children
    {
      match k
      case LKids(ns) => ok && HasKids(ns) && kind == kind0 && fetched == fetched0
      case LNullified => ok && kind == NullKind && text == NULL && fetched
      case LUndefined => !ok
    }

    lemma NoKids()
      requires children == []
      ensures HasKids([])
    {
    }

    /** A member starts at starting, and its name is good. */
    static predicate AtMember(value: Bytes, starting: nat, nameEnding: nat, name: Bytes) {
      starting + 2 <= nameEnding < |value| && value[starting] != '#'
      && Find(':', value[starting..]) == Some(value[nameEnding..])
      && name == CString(value[starting + 1..nameEnding - 1]) && Fix(name).Some?
    }

    /** DoNode's search for the colon, and the name before it; no name if the code is undefined on it. */
    static method PullName(value: Bytes, starting: nat) returns (nameEnding: int, name: Option<Bytes>)
      requires starting <= |value|
      ensures nameEnding == NPOS ==> LMembers(value[starting..]).LNullified?
      ensures nameEnding != NPOS && name == None ==> LMembers(value[starting..]).LUndefined?
      ensures nameEnding != NPOS && name != None
              ==> starting < nameEnding < |value| && AtMember(value, starting, nameEnding, name.value)
                  && Find(',', value[nameEnding..]) != Some(value[nameEnding..])
    {
      hide Fix, CString, Construct;
      nameEnding := FindNextRelevant(':', value, starting);
      if nameEnding == NPOS {
        return nameEnding, None;
      }
      var t := value[starting..];
      assert value[nameEnding] == value[nameEnding..][0];
      if nameEnding < starting + 2 || value[starting] == '#' {
        return nameEnding, None;
      }
      assert t[1..nameEnding - starting - 1] == value[starting + 1..nameEnding - 1];
      var pulled := CString(value[starting + 1..nameEnding - 1]);
      name := if Fix(pulled) == None then None else Some(pulled);
    }

    /** The rest of that round, once the name is known to be good. */
    static lemma MemberRound(value: Bytes, starting: nat, nameEnding: nat, name: Bytes, valueEnding: int, done: seq<Lazy>)
      requires nameEnding < |value| && AtMember(value, starting, nameEnding, name)
      requires valueEnding == PosOf(value, Find(',', value[nameEnding..]))
      requires valueEnding == NPOS
               || (nameEnding < valueEnding < |value| && value[valueEnding..] == Find(',', value[nameEnding..]).value)
      ensures var k := LMembers(value[starting..]);
              && Fix(name).Some?
              && if valueEnding == NPOS && nameEnding + 1 > |value| - 1 then k.LUndefined?
              else
                var e := if valueEnding == NPOS then value[nameEnding + 1..|value| - 1] else value[nameEnding + 1..valueEnding];
                Prepend(done, k)
                == Prepend(done + [Lazy(Fix(name).value, Construct(e))],
                           if valueEnding == NPOS then LKids([]) else LMembers(value[valueEnding + 1..]))
    {
      hide Find, Construct, Fix, CString;
      var t, colon := value[starting..], value[nameEnding..];
      assert t[1..nameEnding - starting - 1] == value[starting + 1..nameEnding - 1];
      var n := Fix(name).value;
      if valueEnding == NPOS {
        if nameEnding + 1 <= |value| - 1 {
          assert colon[1..|colon| - 1] == value[nameEnding + 1..|value| - 1];
          PrependOne(done, Lazy(n, Construct(colon[1..|colon| - 1])), LKids([]));
        }
      } else {
        assert colon[1..|colon| - |value[valueEnding..]|] == value[nameEnding + 1..valueEnding];
        assert value[valueEnding..][1..] == value[valueEnding + 1..];
        PrependOne(done, Lazy(n, Construct(value[nameEnding + 1..valueEnding])), LMembers(value[valueEnding + 1..]));
      }
    }

    /** One round of DoArray from position starting. */
    static lemma ElementAt(value: Bytes, starting: nat, ending: int, done: seq<Lazy>)
      requires starting <= |value|
      requires ending == PosOf(value, Find(',', value[starting..]))
      requires ending == NPOS || (starting <= ending < |value| && value[ending..] == Find(',', value[starting..]).value)
      ensures var k := LElements(value[starting..]);
              if ending == NPOS && starting == |value| then k.LUndefined?
              else
                var e := if ending == NPOS then value[starting..|value| - 1] else value[starting..ending];
                if Find(':', e).Some? then k.LNullified?
                else if e != [] && e[0] == '#' then k.LUndefined?
                else Prepend(done, k)
                     == Prepend(done + [Lazy([], Construct(CString(e)))],
                                if ending == NPOS then LKids([]) else LElements(value[ending + 1..]))
    {
      hide Find, Construct;
      var t := value[starting..];
      if !(ending == NPOS && starting == |value|) {
        var e := if ending == NPOS then value[starting..|value| - 1] else value[starting..ending];
        if ending == NPOS {
          assert e == t[..|t| - 1];
          PrependOne(done, Lazy([], Construct(CString(e))), LKids([]));
        } else {
          assert e == t[..|t| - |value[ending..]|];
          assert value[ending..][1..] == value[ending + 1..];
          PrependOne(done, Lazy([], Construct(CString(e))), LElements(value[ending + 1..]));
        }
      }
    }

    /** JSONWorker::DoNode. False if the code is undefined on this text. */
    method DoNode(value: Bytes) returns (ok: bool)
      requires value != [] && value[0] == '{' && children == []
      modifies this`kind, this`text, this`fetched, this`children
      ensures this !in children && fresh(children)
      ensures Outcome(ok, if |value| <= 2 then LKids([]) else LMembers(value[1..]), old(kind), old(fetched))
    {
      hide Find, LMembers, Construct, Valid, Fix, CString, HasKids, Shallow, AtMember, Prepend;
      NoKids();
      if |value| <= 2 {
        return true;
      }
      ghost var done: seq<Lazy> := [];
      ghost var all := LMembers(value[1..]);
      PrependOne([], Lazy([], Literal([])), all);
      var starting := 1;
      var nameEnding, named := PullName(value, starting);
      if nameEnding == NPOS {
        Nullify();
        return true;
      }
      if named == None {
        return false;
      }
      var name := named.value;
      var valueEnding := FindNextRelevant(',', value, nameEnding);
      while valueEnding != NPOS
        invariant 1 <= starting < nameEnding < |value| && AtMember(value, starting, nameEnding, name)
        invariant valueEnding == PosOf(value, Find(',', value[nameEnding..]))
        invariant valueEnding == NPOS
                  || (nameEnding < valueEnding < |value| && value[valueEnding..] == Find(',', value[nameEnding..]).value)
        invariant all == Prepend(done, LMembers(value[starting..]))
        invariant this !in children && fresh(children) && HasKids(done)
        invariant kind == old(kind) && fetched == old(fetched)
        decreases |value| - starting
      {
        MemberRound(value, starting, nameEnding, name, valueEnding, done);
        var _ := NewNode(name, value[nameEnding + 1..valueEnding], done);
        done := done + [Lazy(Fix(name).value, Construct(value[nameEnding + 1..valueEnding]))];
        starting := valueEnding + 1;
        nameEnding, named := PullName(value, starting);
        if named == None || nameEnding == NPOS {
          PrependToNone(done, LMembers(value[starting..]));
        }
        if nameEnding == NPOS {
          Nullify();
          return true;
        }
        if named == None {
          return false;
        }
        name := named.value;
        valueEnding := FindNextRelevant(',', value, nameEnding);
      }
      MemberRound(value, starting, nameEnding, name, valueEnding, done);
      if nameEnding + 1 > |value| - 1 {
        PrependToNone(done, LMembers(value[starting..]));
        return false;
      }
      var _ := NewNode(name, value[nameEnding + 1..|value| - 1], done);
      PrependOne(done + [Lazy(Fix(name).value, Construct(value[nameEnding + 1..|value| - 1]))], Lazy([], Literal([])), LKids([]));
      return true;
    }

    /** internalJSONNode::Fetch, with FetchString, FetchNode, FetchArray and FetchNumber. */
    method Fetch() returns (ok: bool)
      requires Valid()
      modifies this
      ensures name == old(name)
      ensures old(fetched) ==> ok && children == old(children) && Shallow() == old(Shallow()) && fetched
      ensures !old(fetched) ==> fresh(children)
      ensures !old(fetched) ==> ok == JsonLazy.Fetch(old(Shallow())).Some?
      ensures !old(fetched) && ok ==> fetched && Is(JsonLazy.Fetch(old(Shallow())).value)
      ensures ok ==> Valid()
      ensures !old(fetched) && old(kind) == NumberKind ==> kind == NumberKind && stored == Integer(Atoll(old(text)))
    {
      hide LElements, LMembers, Fix, IsNumeric, HasBackslash, HasKids, Atoll;
      if fetched {
        return true;
      }
      NoKids();
      if kind == StringKind {
        if |text| < 2 {
          return false;
        }
        var fixed, flag := FixString(text[1..|text| - 1]);
        if fixed == None {
          return false;
        }
        text, encoded, ok := fixed.value, flag, true;
      } else if kind == NodeKind {
        ok := DoNode(text);
        text := [];
      } else if kind == ArrayKind {
        ok := DoArray(text);
        text := [];
      } else {
        stored := Integer(Atoll(text));
        ok := true;
      }
      fetched := true;
    }
  }
}
