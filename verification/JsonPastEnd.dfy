/** On which texts the validator reads past the end: those that a brace instead of their last comma, and
    further closing brackets, would make valid. */
module JsonPastEnd {
  import opened Options
  import opened JsonEscape
  import opened JsonNumber
  import opened JsonTree
  import opened JsonParse
  import opened JsonValidate

  /** Closing brackets only. */
  predicate Closers(k: Bytes) {
    forall i :: 0 <= i < |k| ==> k[i] == ']' || k[i] == '}'
  }

  /** The two ways u goes on: with a comma that is the end, or with a brace and k. */
  function Brace(k: Bytes): Bytes { ['}'] + k }

  const COMMA: Bytes := [',']

  predicate NoOpen(u: Bytes) {
    u == [] || u[|u| - 1] != '{'
  }

  predicate Suffix(x: Bytes, u: Bytes) {
    |x| <= |u| && u[|u| - |x|..] == x
  }

  /** The verdicts v and v' on the two texts: accepted up to the same rest x of u; or rejected, both if u does
      not end in an opening brace; or the first one past the end, and then u does not end so. */
  ghost predicate Agree(v: Verdict, v': Verdict, u: Bytes, x: Bytes, k: Bytes) {
    match v
    case Accept(rest) => Suffix(x, u) && rest == x + COMMA && v' == Accept(x + Brace(k)) && (x == [] ==> NoOpen(u))
    case Reject => NoOpen(u) ==> v' == Reject
    case PastEnd => u != [] && NoOpen(u)
  }

  /** From the verdicts on the text from i on to those on the text. */
  lemma AgreeStep(v: Verdict, v': Verdict, u: Bytes, i: nat, x: Bytes, k: Bytes)
    requires i <= |u| && Agree(v, v', u[i..], x, k) && (v.Accept? && i == |u| ==> NoOpen(u))
    ensures Agree(v, v', u, x, k)
  {
    if v.Accept? { assert u[i..][|u[i..]| - |x|..] == u[|u| - |x|..]; }
    if i < |u| { assert u[i..][|u[i..]| - 1] == u[|u| - 1]; }
  }

  /** The first bytes of the two texts. */
  lemma Starts(u: Bytes, k: Bytes, i: nat)
    requires i <= |u|
    ensures (u + COMMA)[i..] == u[i..] + COMMA && (u + Brace(k))[i..] == u[i..] + Brace(k)
    ensures i < |u| ==> (u + COMMA)[i] == u[i] == (u + Brace(k))[i]
    ensures i == |u| ==> (u + COMMA)[i] == ',' && (u + Brace(k))[i] == '}'
  {
  }

  /** An accepted rest that is there whatever follows. */
  lemma AcceptsFrom(u: Bytes, i: nat, k: Bytes)
    requires i <= |u| && (i == |u| ==> NoOpen(u))
    ensures Agree(Accept(u[i..] + COMMA), Accept(u[i..] + Brace(k)), u, u[i..], k)
  {
    assert u[|u| - |u[i..]|..] == u[i..];
  }

  lemma Rejects(u: Bytes, x: Bytes, k: Bytes)
    ensures Agree(Reject, Reject, u, x, k)
  {
  }

  // ---- Numbers, strings and literals

  lemma {:induction false} RestAgrees(u: Bytes, decimal: bool, scientific: bool, k: Bytes) returns (x: Bytes)
    ensures Agree(NumberRest(u + COMMA, decimal, scientific), NumberRest(u + Brace(k), decimal, scientific), u, x, k)
    decreases |u|, 0
  {
    hide Agree, COMMA, Brace;
    Starts(u, k, 0);
    x := u;
    if u == [] {
      AcceptsFrom(u, 0, k);
    } else {
      Starts(u, k, 1);
      if u[0] == '.' {
        if decimal || scientific { Rejects(u, x, k); } else { x := RestStep(u, 1, true, scientific, k); }
      } else if u[0] == 'e' || u[0] == 'E' {
        ExponentAgrees(u, 1, k);
        if scientific || !ExponentStart(u[1..]) {
          Rejects(u, x, k);
        } else {
          Starts(u, k, 2);
          x := RestStep(u, 2, decimal, true, k);
        }
      } else if IsDigit(u[0]) {
        x := RestStep(u, 1, decimal, scientific, k);
      } else {
        AcceptsFrom(u, 0, k);
      }
    }
  }

  lemma ExponentAgrees(u: Bytes, i: nat, k: Bytes)
    requires i <= |u|
    ensures ExponentStart((u + COMMA)[i..]) == ExponentStart(u[i..]) == ExponentStart((u + Brace(k))[i..])
  {
    Starts(u, k, i);
  }

  lemma {:induction false} RestStep(u: Bytes, i: nat, decimal: bool, scientific: bool, k: Bytes) returns (x: Bytes)
    requires 0 < i <= |u| && u[i - 1] != '{'
    ensures Agree(NumberRest(u[i..] + COMMA, decimal, scientific), NumberRest(u[i..] + Brace(k), decimal, scientific), u, x, k)
    decreases |u| - i, 1
  {
    hide Agree, NumberRest;
    x := RestAgrees(u[i..], decimal, scientific, k);
    AgreeStep(NumberRest(u[i..] + COMMA, decimal, scientific), NumberRest(u[i..] + Brace(k), decimal, scientific), u, i, x, k);
  }

  lemma {:induction false} HexAgrees(u: Bytes, k: Bytes) returns (x: Bytes)
    ensures Agree(Accept(SkipHex(u + COMMA)), Accept(SkipHex(u + Brace(k))), u, x, k)
  {
    hide Agree;
    Starts(u, k, 0);
    x := u;
    if u != [] && IsHex(u[0]) {
      Starts(u, k, 1);
      x := HexAgrees(u[1..], k);
      AgreeStep(Accept(SkipHex(u[1..] + COMMA)), Accept(SkipHex(u[1..] + Brace(k))), u, 1, x, k);
    } else {
      AcceptsFrom(u, 0, k);
    }
  }

  lemma {:induction false} NumberAgrees(u: Bytes, k: Bytes) returns (x: Bytes)
    ensures Agree(ValidNumber(u + COMMA), ValidNumber(u + Brace(k)), u, x, k)
  {
    hide Agree, NumberRest, SkipHex, COMMA, Brace, ExponentStart;
    Starts(u, k, 0);
    x := u;
    if u == [] {
      Rejects(u, x, k);
    } else {
      Starts(u, k, 1);
      if u[0] == '.' {
        x := RestStep(u, 1, true, false, k);
      } else if u[0] == '+' || u[0] == '-' || '1' <= u[0] <= '9' {
        x := RestStep(u, 1, false, false, k);
      } else if u[0] == '0' {
        x := ZeroAgrees(u, k);
      } else {
        Rejects(u, x, k);
      }
    }
  }

  lemma {:induction false} ZeroAgrees(u: Bytes, k: Bytes) returns (x: Bytes)
    requires u != [] && u[0] == '0'
    ensures Agree(ValidNumber(u + COMMA), ValidNumber(u + Brace(k)), u, x, k)
  {
    hide Agree, NumberRest, SkipHex, COMMA, Brace, ExponentStart;
    Starts(u, k, 0);
    Starts(u, k, 1);
    x := u[1..];
    Starts(u[1..], k, 0);
    if |u| == 1 {
      AcceptsFrom(u, 1, k);
    } else {
      Starts(u[1..], k, 1);
      assert u[1..][1..] == u[2..];
      if u[1] == '.' {
        x := RestStep(u, 2, true, false, k);
      } else if u[1] == 'e' || u[1] == 'E' {
        x := ZeroExponentAgrees(u, k);
      } else if u[1] == 'x' {
        x := HexAgrees(u[2..], k);
        AgreeStep(Accept(SkipHex(u[2..] + COMMA)), Accept(SkipHex(u[2..] + Brace(k))), u, 2, x, k);
      } else if IsDigit(u[1]) {
        x := RestStep(u, 2, false, false, k);
      } else {
        AcceptsFrom(u, 1, k);
      }
    }
  }

  lemma {:induction false} ZeroExponentAgrees(u: Bytes, k: Bytes) returns (x: Bytes)
    requires |u| > 1 && u[0] == '0' && (u[1] == 'e' || u[1] == 'E')
    ensures Agree(ValidNumber(u + COMMA), ValidNumber(u + Brace(k)), u, x, k)
  {
    hide Agree, NumberRest, SkipHex, COMMA, Brace, ExponentStart;
    Starts(u, k, 0);
    Starts(u, k, 1);
    Starts(u[1..], k, 0);
    Starts(u[1..], k, 1);
    assert u[1..][1..] == u[2..];
    ExponentAgrees(u[1..], 1, k);
    if ExponentStart(u[2..]) {
      SignOrDigit(u);
      Starts(u[1..], k, 2);
      assert u[1..][2..] == u[3..];
      x := RestStep(u, 3, false, true, k);
    } else {
      x := u;
      Rejects(u, x, k);
    }
  }

  lemma SignOrDigit(u: Bytes)
    requires |u| > 1 && ExponentStart(u[2..])
    ensures |u| > 2 && u[2] != '{'
  {
  }

  /** Without a quote or a backslash no string ends. */
  lemma {:induction false} NeverEnds(t: Bytes)
    requires '"' !in t && '\\' !in t
    ensures ValidString(t) == Reject
  {
    if t != [] { NeverEnds(t[1..]); }
  }

  lemma HexRunAgrees(u: Bytes, n: nat, k: Bytes)
    requires n > 0
    ensures HexRun(u + COMMA, n) == HexRun(u, n) == HexRun(u + Brace(k), n)
  {
    Starts(u, k, |u|);
    if HexRun(u, n) {
      assert forall i :: 0 <= i < n ==> (u + COMMA)[i] == u[i] == (u + Brace(k))[i];
    } else if |u| < n {
      assert !IsHex((u + COMMA)[|u|]) && !IsHex((u + Brace(k))[|u|]);
    } else {
      var i :| 0 <= i < n && !IsHex(u[i]);
      assert (u + COMMA)[i] == u[i] == (u + Brace(k))[i];
    }
  }

  lemma {:induction false} StringAgrees(u: Bytes, k: Bytes) returns (x: Bytes)
    requires Closers(k)
    ensures Agree(ValidString(u + COMMA), ValidString(u + Brace(k)), u, x, k)
    ensures u == [] ==> ValidString(u + COMMA) == Reject
    ensures !ValidString(u + COMMA).PastEnd?
    decreases |u|, 0
  {
    hide Agree, COMMA, Brace, HexRun, SimpleEscape;
    Starts(u, k, 0);
    x := u;
    if u == [] {
      NothingEnds(k);
      Rejects(u, x, k);
    } else {
      Starts(u, k, 1);
      if u[0] == '"' {
        AcceptsFrom(u, 1, k);
        x := u[1..];
      } else if u[0] != '\\' {
        x := StringStep(u, 1, k);
      } else if |u| == 1 {
        NoEscape();
        Rejects(u, x, k);
      } else {
        Starts(u, k, 2);
        if SimpleEscape(u[1]) {
          x := StringStep(u, 2, k);
        } else if u[1] == 'u' || u[1] == 'x' {
          var n := if u[1] == 'u' then 4 else 2;
          HexRunAgrees(u[2..], n, k);
          if HexRun(u[2..], n) {
            assert |u| >= 2 + n by { RunLength(u[2..], n); }
            Starts(u, k, 2 + n);
            x := StringStep(u, 2 + n, k);
          } else {
            Rejects(u, x, k);
          }
        } else {
          Rejects(u, x, k);
        }
      }
    }
  }

  lemma NothingEnds(k: Bytes)
    requires Closers(k)
    ensures ValidString([] + COMMA) == Reject == ValidString([] + Brace(k)) == ValidString(k) == ValidString([])
  {
    NeverEnds(k);
    NeverEnds([] + Brace(k));
    NeverEnds([] + COMMA);
  }

  lemma NoEscape()
    ensures !SimpleEscape(',') && !SimpleEscape('}')
  {
  }

  lemma RunLength(t: Bytes, n: nat)
    requires HexRun(t, n)
    ensures |t| >= n
  {
  }

  lemma {:induction false} StringStep(u: Bytes, i: nat, k: Bytes) returns (x: Bytes)
    requires 0 < i <= |u| && Closers(k)
    ensures Agree(ValidString(u[i..] + COMMA), ValidString(u[i..] + Brace(k)), u, x, k)
    ensures !ValidString(u[i..] + COMMA).PastEnd?
    decreases |u| - i, 1
  {
    hide Agree, ValidString;
    x := StringAgrees(u[i..], k);
    AgreeStep(ValidString(u[i..] + COMMA), ValidString(u[i..] + Brace(k)), u, i, x, k);
  }

  lemma LettersAgree(u: Bytes, lower: Bytes, upper: Bytes, k: Bytes) returns (x: Bytes)
    requires |lower| == |upper| > 0
    requires forall i :: 0 <= i < |lower| ==> lower[i] !in [',', '}', '{'] && upper[i] !in [',', '}', '{']
    ensures Agree(ValidLetters(u + COMMA, lower, upper), ValidLetters(u + Brace(k), lower, upper), u, x, k)
  {
    hide Agree;
    var n := |lower|;
    Starts(u, k, |u|);
    x := u;
    if |u| < n {
      assert lower[|u|] != ',' && upper[|u|] != ',' && lower[|u|] != '}' && upper[|u|] != '}';
      Rejects(u, x, k);
    } else {
      assert forall i :: 0 <= i < n ==> (u + COMMA)[i] == u[i] == (u + Brace(k))[i];
      if Letters(u, lower, upper) {
        Starts(u, k, n);
        assert n == |u| ==> u[n - 1] != '{';
        AcceptsFrom(u, n, k);
        x := u[n..];
      } else {
        Rejects(u, x, k);
      }
    }
  }

  // ---- Values

  lemma {:induction false} MemberAgrees(u: Bytes, depth: nat, k: Bytes) returns (x: Bytes)
    requires Closers(k)
    ensures Agree(ValidMember(u + COMMA, depth), ValidMember(u + Brace(k), depth), u, x, k)
    decreases |u|, 0
  {
    hide Agree, ValidString, ValidObject, ValidArray, ValidNumber, ValidLetters;
    Starts(u, k, 0);
    assert u[0..] == u;
    x := u;
    if u == [] {
      AcceptsFrom(u, 0, k);
    } else {
      Starts(u, k, 1);
      var c := u[0];
      if c == '"' {
        x := StringStep(u, 1, k);
      } else if c == '{' {
        if depth + 1 > MAX_NEST_LEVEL { Rejects(u, x, k); } else { x := ObjectStep(u, depth + 1, k); }
      } else if c == '[' {
        if depth + 1 > MAX_NEST_LEVEL { Rejects(u, x, k); } else { x := ArrayStep(u, 1, depth + 1, k); }
      } else if c == 't' || c == 'T' {
        x := LettersAgree(u, TRUE, UPPER_TRUE, k);
      } else if c == 'f' || c == 'F' {
        x := LettersAgree(u, FALSE, UPPER_FALSE, k);
      } else if c == 'n' || c == 'N' {
        x := LettersAgree(u, NULL, UPPER_NULL, k);
      } else if c == '}' || c == ']' || c == ',' {
        AcceptsFrom(u, 0, k);
      } else {
        x := NumberAgrees(u, k);
      }
    }
  }

  /** A member from i on. */
  lemma {:induction false} MemberStep(u: Bytes, i: nat, depth: nat, k: Bytes) returns (x: Bytes)
    requires 0 < i <= |u| && u[i - 1] != '{' && Closers(k)
    ensures Agree(ValidMember(u[i..] + COMMA, depth), ValidMember(u[i..] + Brace(k), depth), u, x, k)
    ensures ValidMember(u[i..] + COMMA, depth).Accept? ==> |x| <= |u| - i
    decreases |u| - i, 1
  {
    hide Agree, ValidMember;
    x := MemberAgrees(u[i..], depth, k);
    AgreeStep(ValidMember(u[i..] + COMMA, depth), ValidMember(u[i..] + Brace(k), depth), u, i, x, k);
    AcceptedRest(ValidMember(u[i..] + COMMA, depth), ValidMember(u[i..] + Brace(k), depth), u[i..], x, k);
  }

  /** What an accepted member leaves. */
  lemma AcceptedRest(v: Verdict, v': Verdict, u: Bytes, x: Bytes, k: Bytes)
    requires Agree(v, v', u, x, k)
    ensures v.Accept? ==> v == Accept(x + COMMA) && v' == Accept(x + Brace(k)) && |x| <= |u| && x == u[|u| - |x|..]
    ensures v.Accept? && x == [] ==> NoOpen(u)
    ensures v.Reject? && NoOpen(u) ==> v' == Reject
    ensures v.PastEnd? ==> u != [] && NoOpen(u)
  {
  }

  lemma {:induction false} ObjectStep(u: Bytes, depth: nat, k: Bytes) returns (x: Bytes)
    requires u != [] && u[0] == '{' && Closers(k)
    ensures Agree(ValidObject(u[1..] + COMMA, depth), ValidObject(u[1..] + Brace(k), depth), u, x, k)
    decreases |u| - 1, 3
  {
    hide Agree, ValidNamedObject;
    x := u;
    Starts(u[1..], k, 0);
    if |u| == 1 {
      OnlyOpen(ValidObject(u[1..] + Brace(k), depth), u, k);
    } else {
      Starts(u[1..], k, 1);
      assert u[1..][1..] == u[2..];
      if u[1] == '"' {
        x := NamedStep(u, 1, depth, k);
      } else if u[1] == '}' {
        AcceptsFrom(u, 2, k);
        x := u[2..];
      } else {
        Rejects(u, x, k);
      }
    }
  }

  lemma OnlyOpen(v': Verdict, u: Bytes, k: Bytes)
    requires u == ['{']
    ensures Agree(Reject, v', u, u, k)
  {
  }

  lemma RejectsIf(v': Verdict, u: Bytes, x: Bytes, k: Bytes)
    requires NoOpen(u) ==> v' == Reject
    ensures Agree(Reject, v', u, x, k)
  {
  }

  lemma Passes(v': Verdict, u: Bytes, x: Bytes, k: Bytes)
    requires u != [] && NoOpen(u)
    ensures Agree(PastEnd, v', u, x, k)
  {
  }

  /** The members from i on. */
  lemma {:induction false} NamedStep(u: Bytes, i: nat, depth: nat, k: Bytes) returns (x: Bytes)
    requires 0 < i <= |u| && Closers(k)
    ensures Agree(ValidNamedObject(u[i..] + COMMA, depth), ValidNamedObject(u[i..] + Brace(k), depth), u, x, k)
    decreases |u| - i, 2
  {
    hide Agree, ValidString, ValidMember;
    Starts(u[i..], k, 0);
    x := u;
    if i == |u| {
      NothingEnds(k);
      assert (u[i..] + COMMA)[1..] == [] && (u[i..] + Brace(k))[1..] == k;
      Rejects(u, x, k);
    } else {
      Starts(u[i..], k, 1);
      assert u[i..][1..] == u[i + 1..];
      var name := StringStep(u, i + 1, k);
      var s, s' := ValidString(u[i + 1..] + COMMA), ValidString(u[i + 1..] + Brace(k));
      AcceptedRest(s, s', u, name, k);
      if s.Accept? {
        x := ColonStep(u, |u| - |name|, depth, k);
        Colon(u, i, |u| - |name|, depth, COMMA);
        Colon(u, i, |u| - |name|, depth, Brace(k));
      } else {
        RejectsIf(ValidNamedObject(u[i..] + Brace(k), depth), u, x, k);
      }
    }
  }

  /** What is left of a member from its colon on. */
  function AfterName(t: Bytes, depth: nat): Verdict {
    if t == [] || t[0] != ':' then Reject
    else
      var member := ValidMember(t[1..], depth);
      if !member.Accept? then member
      else if member.rest == [] then Reject
      else if member.rest[0] == ',' then ValidNamedObject(member.rest[1..], depth)
      else if member.rest[0] == '}' then Accept(member.rest[1..])
      else Reject
  }

  lemma Colon(u: Bytes, i: nat, j: nat, depth: nat, w: Bytes)
    requires i < |u| && j <= |u| && ValidString(u[i + 1..] + w) == Accept(u[j..] + w)
    ensures ValidNamedObject(u[i..] + w, depth) == AfterName(u[j..] + w, depth)
  {
    hide ValidString, ValidMember;
    assert (u[i..] + w)[1..] == u[i + 1..] + w;
  }

  lemma NamedAtEnd(depth: nat)
    ensures ValidNamedObject([], depth) == PastEnd && ([] + COMMA)[1..] == []
  {
  }

  lemma {:induction false} ColonStep(u: Bytes, j: nat, depth: nat, k: Bytes) returns (x: Bytes)
    requires 0 < j <= |u| && Closers(k)
    ensures Agree(AfterName(u[j..] + COMMA, depth), AfterName(u[j..] + Brace(k), depth), u, x, k)
    decreases |u| - j, 3
  {
    hide Agree, ValidMember, ValidNamedObject;
    Starts(u[j..], k, 0);
    x := u;
    if j == |u| || u[j] != ':' {
      Rejects(u, x, k);
    } else {
      Starts(u[j..], k, 1);
      assert u[j..][1..] == u[j + 1..];
      x := MemberStep(u, j + 1, depth, k);
      var v, v' := ValidMember(u[j + 1..] + COMMA, depth), ValidMember(u[j + 1..] + Brace(k), depth);
      AcceptedRest(v, v', u, x, k);
      if v.Accept? {
        var m := |u| - |x|;
        Starts(u[m..], k, 0);
        if m == |u| {
          NamedAtEnd(depth);
          Passes(AfterName(u[j..] + Brace(k), depth), u, x, k);
        } else {
          Starts(u[m..], k, 1);
          assert u[m..][1..] == u[m + 1..];
          if u[m] == ',' {
            x := NamedStep(u, m + 1, depth, k);
          } else if u[m] == '}' {
            AcceptsFrom(u, m + 1, k);
            x := u[m + 1..];
          } else {
            Rejects(u, x, k);
          }
        }
      } else if v.Reject? {
        RejectsIf(AfterName(u[j..] + Brace(k), depth), u, x, k);
      } else {
        Passes(AfterName(u[j..] + Brace(k), depth), u, x, k);
      }
    }
  }

  /** What an array makes of an element that ends at m. */
  lemma Element(u: Bytes, i: nat, m: nat, depth: nat, w: Bytes, k: Bytes)
    requires i <= |u| && m <= |u| && (i < |u| ==> u[i] != ']') && (w == COMMA || w == Brace(k))
    requires ValidMember(u[i..] + w, depth) == Accept(u[m..] + w)
    ensures ValidArray(u[i..] + w, depth)
            == if m == |u| then Reject
               else if u[m] == ',' then ValidArray(u[m + 1..] + w, depth)
               else if u[m] == ']' then Accept(u[m + 1..] + w)
               else Reject
  {
    hide ValidMember;
    if m < |u| { assert (u[m..] + w)[1..] == u[m + 1..] + w; }
  }

  /** An element that is not accepted, and the empty rest of an array. */
  lemma NoElement(u: Bytes, i: nat, depth: nat, w: Bytes, k: Bytes)
    requires i <= |u| && (w == COMMA || w == Brace(k))
    ensures i < |u| && u[i] == ']' ==> ValidArray(u[i..] + w, depth) == Accept(u[i + 1..] + w)
    ensures !(i < |u| && u[i] == ']') && !ValidMember(u[i..] + w, depth).Accept? ==>
              ValidArray(u[i..] + w, depth) == ValidMember(u[i..] + w, depth)
  {
    hide ValidMember;
    if i < |u| { assert (u[i..] + w)[1..] == u[i + 1..] + w; }
  }

  /** The elements from i on. */
  lemma {:induction false} ArrayStep(u: Bytes, i: nat, depth: nat, k: Bytes) returns (x: Bytes)
    requires 0 < i <= |u| && u[i - 1] != '{' && Closers(k)
    ensures Agree(ValidArray(u[i..] + COMMA, depth), ValidArray(u[i..] + Brace(k), depth), u, x, k)
    decreases |u| - i, 2
  {
    hide Agree, ValidMember, ValidArray, Brace, COMMA;
    NoElement(u, i, depth, COMMA, k);
    NoElement(u, i, depth, Brace(k), k);
    x := u;
    if i < |u| && u[i] == ']' {
      AcceptsFrom(u, i + 1, k);
      x := u[i + 1..];
    } else {
      x := MemberStep(u, i, depth, k);
      var v, v' := ValidMember(u[i..] + COMMA, depth), ValidMember(u[i..] + Brace(k), depth);
      AcceptedRest(v, v', u, x, k);
      if v.Accept? {
        var m := |u| - |x|;
        Element(u, i, m, depth, COMMA, k);
        Element(u, i, m, depth, Brace(k), k);
        if m < |u| && u[m] == ',' {
          x := ArrayStep(u, m + 1, depth, k);
        } else if m < |u| && u[m] == ']' {
          AcceptsFrom(u, m + 1, k);
          x := u[m + 1..];
        } else {
          Rejects(u, x, k);
        }
      } else if v.Reject? {
        RejectsIf(ValidArray(u[i..] + Brace(k), depth), u, x, k);
      } else {
        Passes(ValidArray(u[i..] + Brace(k), depth), u, x, k);
      }
    }
  }

  // ---- From the past end to a text that is accepted

  lemma {:induction false} RestNotPast(t: Bytes, decimal: bool, scientific: bool)
    ensures !NumberRest(t, decimal, scientific).PastEnd?
    decreases |t|
  {
    if t != [] {
      RestNotPast(t[1..], true, scientific);
      RestNotPast(t[1..], decimal, scientific);
      if |t| > 1 { RestNotPast(t[2..], decimal, true); }
    }
  }

  lemma NumberNotPast(t: Bytes)
    ensures !ValidNumber(t).PastEnd?
  {
    hide NumberRest;
    if t != [] {
      RestNotPast(t[1..], true, false);
      RestNotPast(t[1..], false, false);
      if |t| > 1 {
        RestNotPast(t[1..][1..], true, false);
        RestNotPast(t[1..][1..], false, false);
        if |t| > 2 { RestNotPast(t[1..][2..], false, true); }
      }
    }
  }

  /** Closing brackets k1 that complete the value, k2 being what follows it. */
  lemma {:induction false} MemberCloses(u: Bytes, depth: nat, k2: Bytes) returns (k1: Bytes)
    requires ValidMember(u + COMMA, depth) == PastEnd && Closers(k2)
    ensures Closers(k1) && ValidMember(u + Brace(k1 + k2), depth) == Accept(k2)
    decreases |u|, 0
  {
    hide ValidString, ValidObject, ValidArray, ValidNumber, Closers;
    FewClosers(k2);
    NumberNotPast(u + COMMA);
    Starts(u, [], 0);
    Starts(u, [], 1);
    if u[0] == '{' {
      k1 := ObjectCloses(u, depth + 1, k2);
    } else if u[0] == '[' {
      k1 := ArrayCloses(u, 1, depth + 1, k2);
    } else {
      var _ := StringStep(u, 1, []);
    }
    Starts(u, k1 + k2, 1);
  }

  lemma FewClosers(k: Bytes)
    requires Closers(k)
    ensures Closers([]) && Closers(['}']) && Closers([']']) && Closers(['}'] + k) && Closers([']'] + k)
  {
  }

  lemma JoinedClosers(a: Bytes, b: Bytes, c: Bytes)
    requires Closers(a) && Closers(b)
    ensures Closers(a + b) && a + b + c == a + (b + c) && [] + b == b
  {
  }

  lemma {:induction false} ObjectCloses(u: Bytes, depth: nat, k2: Bytes) returns (k1: Bytes)
    requires u != [] && ValidObject(u[1..] + COMMA, depth) == PastEnd && Closers(k2)
    ensures Closers(k1) && ValidObject(u[1..] + Brace(k1 + k2), depth) == Accept(k2)
    decreases |u| - 1, 3
  {
    hide ValidNamedObject, Closers;
    Starts(u[1..], [], 0);
    k1 := NamedCloses(u, 1, depth, k2);
    Starts(u[1..], k1 + k2, 0);
  }

  lemma NamedHasName(u: Bytes, i: nat, depth: nat)
    requires i <= |u| && ValidNamedObject(u[i..] + COMMA, depth) == PastEnd
    ensures i < |u| && ValidString(u[i + 1..] + COMMA).Accept?
  {
    hide ValidString, ValidMember;
    NoneAtEnd(u, depth);
    assert i < |u| && (u[i..] + COMMA)[1..] == u[i + 1..] + COMMA;
    StringEnds(u[i + 1..] + COMMA);
  }

  lemma {:induction false} NamedCloses(u: Bytes, i: nat, depth: nat, k2: Bytes) returns (k1: Bytes)
    requires 0 < i <= |u| && ValidNamedObject(u[i..] + COMMA, depth) == PastEnd && Closers(k2)
    ensures Closers(k1) && ValidNamedObject(u[i..] + Brace(k1 + k2), depth) == Accept(k2)
    decreases |u| - i, 2
  {
    hide ValidString, ValidMember, ValidNamedObject, AfterName, Agree, Closers, Brace, COMMA;
    FewClosers(k2);
    NamedHasName(u, i, depth);
    var name := StringStep(u, i + 1, []);
    AcceptedRest(ValidString(u[i + 1..] + COMMA), ValidString(u[i + 1..] + Brace([])), u, name, []);
    var j := |u| - |name|;
    Colon(u, i, j, depth, COMMA);
    k1 := ColonCloses(u, j, depth, k2);
    JoinedClosers(k1, k2, []);
    SameRest(u, i + 1, name, k1 + k2);
    Colon(u, i, j, depth, Brace(k1 + k2));
  }

  lemma NoneAtEnd(u: Bytes, depth: nat)
    ensures ValidNamedObject(u[|u|..] + COMMA, depth) == Reject
  {
    NeverEnds([]);
    assert (u[|u|..] + COMMA)[1..] == [];
  }

  /** What a string leaves does not depend on the closing brackets. */
  lemma SameRest(u: Bytes, i: nat, name: Bytes, k: Bytes)
    requires 0 < i <= |u| && ValidString(u[i..] + COMMA) == Accept(name + COMMA) && Closers(k)
    ensures ValidString(u[i..] + Brace(k)) == Accept(name + Brace(k))
  {
    hide ValidString, Agree;
    var x := StringStep(u, i, k);
    AcceptedRest(ValidString(u[i..] + COMMA), ValidString(u[i..] + Brace(k)), u, x, k);
    assert x == (x + COMMA)[..|x|] == (name + COMMA)[..|name|] == name;
  }

  lemma SameMemberRest(u: Bytes, i: nat, depth: nat, x: Bytes, k: Bytes)
    requires 0 < i <= |u| && u[i - 1] != '{' && ValidMember(u[i..] + COMMA, depth) == Accept(x + COMMA) && Closers(k)
    ensures ValidMember(u[i..] + Brace(k), depth) == Accept(x + Brace(k))
  {
    hide ValidMember, Agree;
    var y := MemberStep(u, i, depth, k);
    AcceptedRest(ValidMember(u[i..] + COMMA, depth), ValidMember(u[i..] + Brace(k), depth), u, y, k);
    assert y == (y + COMMA)[..|y|] == (x + COMMA)[..|x|] == x;
  }

  lemma {:induction false} ColonCloses(u: Bytes, j: nat, depth: nat, k2: Bytes) returns (k1: Bytes)
    requires 0 < j <= |u| && AfterName(u[j..] + COMMA, depth) == PastEnd && Closers(k2)
    ensures Closers(k1) && AfterName(u[j..] + Brace(k1 + k2), depth) == Accept(k2)
    decreases |u| - j, 3
  {
    hide ValidMember, ValidNamedObject, Agree, Closers;
    FewClosers(k2);
    Starts(u[j..], [], 0);
    assert u[j..][1..] == u[j + 1..] && (u[j..] + COMMA)[1..] == u[j + 1..] + COMMA;
    var v := ValidMember(u[j + 1..] + COMMA, depth);
    if v.PastEnd? {
      var k' := MemberCloses(u[j + 1..], depth, ['}'] + k2);
      k1 := k' + ['}'];
      JoinedClosers(k', ['}'], k2);
    } else {
      var x := MemberStep(u, j + 1, depth, []);
      AcceptedRest(v, ValidMember(u[j + 1..] + Brace([]), depth), u, x, []);
      var m := |u| - |x|;
      Starts(u[m..], [], 0);
      if m == |u| {
        k1 := [];
        JoinedClosers([], k2, []);
      } else {
        assert u[m..][1..] == u[m + 1..] && (u[m..] + COMMA)[1..] == u[m + 1..] + COMMA;
        k1 := NamedCloses(u, m + 1, depth, k2);
        JoinedClosers(k1, k2, []);
      }
      SameMemberRest(u, j + 1, depth, x, k1 + k2);
      Starts(u[m..], k1 + k2, 0);
      if m < |u| { Starts(u[m..], k1 + k2, 1); }
    }
    Starts(u[j..], k1 + k2, 1);
    Starts(u[j..], k1 + k2, 0);
  }

  lemma {:induction false} ArrayCloses(u: Bytes, i: nat, depth: nat, k2: Bytes) returns (k1: Bytes)
    requires 0 < i <= |u| && u[i - 1] != '{' && ValidArray(u[i..] + COMMA, depth) == PastEnd && Closers(k2)
    ensures Closers(k1) && ValidArray(u[i..] + Brace(k1 + k2), depth) == Accept(k2)
    decreases |u| - i, 2
  {
    hide ValidMember, Agree, Closers;
    FewClosers(k2);
    Starts(u[i..], [], 0);
    var v := ValidMember(u[i..] + COMMA, depth);
    if v.PastEnd? {
      var k' := MemberCloses(u[i..], depth, [']'] + k2);
      k1 := k' + [']'];
      JoinedClosers(k', [']'], k2);
    } else {
      var x := MemberStep(u, i, depth, []);
      AcceptedRest(v, ValidMember(u[i..] + Brace([]), depth), u, x, []);
      var m := |u| - |x|;
      Starts(u[m..], [], 0);
      assert m < |u|;
      assert u[m..][1..] == u[m + 1..] && (u[m..] + COMMA)[1..] == u[m + 1..] + COMMA;
      k1 := ArrayCloses(u, m + 1, depth, k2);
      JoinedClosers(k1, k2, []);
      SameMemberRest(u, i, depth, x, k1 + k2);
      Starts(u[m..], k1 + k2, 0);
      Starts(u[m..], k1 + k2, 1);
    }
    Starts(u[i..], k1 + k2, 0);
  }

  // ---- The text ends in a comma

  /** What is accepted leaves a suffix; past the end only after a comma. */
  ghost predicate Ends(v: Verdict, t: Bytes) {
    match v
    case Accept(rest) => Suffix(rest, t)
    case Reject => true
    case PastEnd => t != [] && t[|t| - 1] == ','
  }

  lemma EndsFrom(v: Verdict, t: Bytes, i: nat)
    requires i <= |t| && Ends(v, t[i..])
    ensures Ends(v, t)
  {
    if v.Accept? { assert t[i..][|t[i..]| - |v.rest|..] == t[|t| - |v.rest|..]; }
    if v.PastEnd? { assert t[i..][|t[i..]| - 1] == t[|t| - 1]; }
  }

  lemma EndsHere(t: Bytes, i: nat)
    requires i <= |t|
    ensures Ends(Accept(t[i..]), t) && Ends(Reject, t)
  {
    assert t[|t| - |t[i..]|..] == t[i..];
  }

  lemma {:induction false} RestEnds(t: Bytes, decimal: bool, scientific: bool)
    ensures Ends(NumberRest(t, decimal, scientific), t)
    decreases |t|
  {
    hide Ends;
    EndsHere(t, 0);
    EndsHere(t, |t|);
    assert t[0..] == t;
    if t != [] {
      if t[0] == '.' {
        RestEnds(t[1..], true, scientific);
        EndsFrom(NumberRest(t[1..], true, scientific), t, 1);
      } else if t[0] == 'e' || t[0] == 'E' {
        if !scientific && ExponentStart(t[1..]) {
          RestEnds(t[2..], decimal, true);
          EndsFrom(NumberRest(t[2..], decimal, true), t, 2);
        }
      } else if IsDigit(t[0]) {
        RestEnds(t[1..], decimal, scientific);
        EndsFrom(NumberRest(t[1..], decimal, scientific), t, 1);
      }
    }
  }

  lemma {:induction false} HexEnds(t: Bytes)
    ensures Ends(Accept(SkipHex(t)), t)
  {
    hide Ends;
    EndsHere(t, 0);
    assert t[0..] == t;
    if t != [] && IsHex(t[0]) {
      HexEnds(t[1..]);
      EndsFrom(Accept(SkipHex(t[1..])), t, 1);
    }
  }

  lemma NumberEnds(t: Bytes)
    ensures Ends(ValidNumber(t), t)
  {
    hide Ends, NumberRest, SkipHex;
    EndsHere(t, 0);
    if t != [] {
      RestEnds(t[1..], true, false);
      EndsFrom(NumberRest(t[1..], true, false), t, 1);
      RestEnds(t[1..], false, false);
      EndsFrom(NumberRest(t[1..], false, false), t, 1);
      EndsHere(t, 1);
      if t[0] == '0' && |t| > 1 { ZeroEnds(t[1..]); EndsFrom(ValidNumber(t), t, 1); }
    }
  }

  lemma ZeroEnds(u: Bytes)
    requires u != []
    ensures Ends(ValidNumber(['0'] + u), u)
  {
    hide Ends, NumberRest, SkipHex;
    assert (['0'] + u)[1..] == u;
    EndsHere(u, 0);
    assert u[0..] == u;
    if u[0] == '.' {
      RestEnds(u[1..], true, false);
      EndsFrom(NumberRest(u[1..], true, false), u, 1);
    } else if u[0] == 'e' || u[0] == 'E' {
      if ExponentStart(u[1..]) {
        RestEnds(u[2..], false, true);
        EndsFrom(NumberRest(u[2..], false, true), u, 2);
      }
    } else if u[0] == 'x' {
      HexEnds(u[1..]);
      EndsFrom(Accept(SkipHex(u[1..])), u, 1);
    } else if IsDigit(u[0]) {
      RestEnds(u[1..], false, false);
      EndsFrom(NumberRest(u[1..], false, false), u, 1);
    }
  }

  lemma {:induction false} StringEnds(t: Bytes)
    ensures Ends(ValidString(t), t) && !ValidString(t).PastEnd?
    decreases |t|
  {
    hide Ends;
    EndsHere(t, 0);
    if t != [] {
      EndsHere(t, 1);
      var i := if t[0] != '\\' then 1 else if |t| < 2 then 0 else if SimpleEscape(t[1]) then 2
               else if t[1] == 'u' && HexRun(t[2..], 4) then 6 else if t[1] == 'x' && HexRun(t[2..], 2) then 4 else 0;
      if t[0] != '"' && i > 0 {
        StringEnds(t[i..]);
        EndsFrom(ValidString(t[i..]), t, i);
      }
    }
  }

  lemma {:induction false} MemberEnds(t: Bytes, depth: nat)
    ensures Ends(ValidMember(t, depth), t)
    decreases |t|, 0
  {
    hide Ends, ValidString, ValidObject, ValidArray, ValidNumber, Letters;
    EndsHere(t, 0);
    assert t[0..] == t;
    if t != [] {
      NumberEnds(t);
      if t[0] == '"' {
        StringEnds(t[1..]);
        EndsFrom(ValidString(t[1..]), t, 1);
      } else if t[0] == '{' {
        ObjectEnds(t[1..], depth + 1);
        EndsFrom(ValidObject(t[1..], depth + 1), t, 1);
      } else if t[0] == '[' {
        ArrayEnds(t[1..], depth + 1);
        EndsFrom(ValidArray(t[1..], depth + 1), t, 1);
      } else {
        LettersEnd(t, TRUE, UPPER_TRUE);
        LettersEnd(t, FALSE, UPPER_FALSE);
        LettersEnd(t, NULL, UPPER_NULL);
      }
    }
  }

  lemma LettersEnd(t: Bytes, lower: Bytes, upper: Bytes)
    requires |lower| == |upper|
    ensures Ends(ValidLetters(t, lower, upper), t)
  {
    hide Ends;
    if Letters(t, lower, upper) { EndsHere(t, |lower|); } else { EndsHere(t, 0); }
  }

  lemma {:induction false} ObjectEnds(t: Bytes, depth: nat)
    ensures Ends(ValidObject(t, depth), t)
    decreases |t|, 2
  {
    hide Ends, ValidNamedObject;
    EndsHere(t, 0);
    if t != [] {
      EndsHere(t, 1);
      NamedEnds(t, depth);
    }
  }

  /** A suffix, by where it starts. */
  lemma SuffixStart(v: Verdict, t: Bytes, i: nat)
    requires i <= |t| && Ends(v, t[i..]) && v.Accept?
    ensures i <= |t| - |v.rest| && v.rest == t[|t| - |v.rest|..]
    ensures v.rest != [] ==> v.rest[0] == t[|t| - |v.rest|] && v.rest[1..] == t[|t| - |v.rest| + 1..]
  {
    EndsFrom(v, t, i);
  }

  lemma {:induction false} NamedEnds(t: Bytes, depth: nat)
    requires t != []
    ensures Ends(ValidNamedObject(t, depth), t)
    decreases |t|, 1
  {
    hide Ends, ValidString, ValidMember;
    EndsHere(t, 0);
    StringEnds(t[1..]);
    var name := ValidString(t[1..]);
    EndsFrom(name, t, 1);
    if name.Accept? {
      SuffixStart(name, t, 1);
      var j := |t| - |name.rest|;
      if j < |t| && t[j] == ':' {
        MemberEnds(t[j + 1..], depth);
        var member := ValidMember(t[j + 1..], depth);
        EndsFrom(member, t, j + 1);
        if member.Accept? {
          SuffixStart(member, t, j + 1);
          var m := |t| - |member.rest|;
          if m < |t| {
            EndsHere(t, m + 1);
            if t[m] == ',' {
              if m + 1 == |t| {
                LastComma(t);
              } else {
                NamedEnds(t[m + 1..], depth);
                EndsFrom(ValidNamedObject(t[m + 1..], depth), t, m + 1);
              }
            }
          }
        }
      }
    }
  }

  lemma LastComma(t: Bytes)
    requires t != [] && t[|t| - 1] == ','
    ensures Ends(PastEnd, t)
  {
  }

  lemma {:induction false} ArrayEnds(t: Bytes, depth: nat)
    ensures Ends(ValidArray(t, depth), t)
    decreases |t|, 1
  {
    hide Ends, ValidMember;
    EndsHere(t, 0);
    if t != [] {
      EndsHere(t, 1);
      if t[0] != ']' {
        MemberEnds(t, depth);
        var member := ValidMember(t, depth);
        if member.Accept? {
          assert t[0..] == t;
          SuffixStart(member, t, 0);
          var m := |t| - |member.rest|;
          if m < |t| {
            EndsHere(t, m + 1);
            if t[m] == ',' && m + 1 < |t| {
              ArrayEnds(t[m + 1..], depth);
              EndsFrom(ValidArray(t[m + 1..], depth), t, m + 1);
            }
          }
        }
      }
    }
  }

  // ---- Whole texts

  /** The routine for the outermost container. */
  function RootVerdict(t: Bytes): Verdict {
    if t == [] then Reject
    else if t[0] == '{' then ValidObject(t[1..], 1)
    else if t[0] == '[' then ValidArray(t[1..], 1)
    else Reject
  }

  lemma RootIs(t: Bytes)
    requires NUL !in t
    ensures ValidRoot(t) == match RootVerdict(t)
                            case Accept(rest) => Some(rest == [])
                            case Reject => Some(false)
                            case PastEnd => None
    ensures ValidRoot(t) == None ==> t != [] && t[|t| - 1] == ','
  {
    hide ValidObject, ValidArray, CString;
    CStringOfText(t);
    if t != [] {
      ObjectEnds(t[1..], 1);
      ArrayEnds(t[1..], 1);
      if t[0] == '{' { EndsFrom(RootVerdict(t), t, 1); } else if t[0] == '[' { EndsFrom(RootVerdict(t), t, 1); }
    }
  }

  /** With the last comma turned into a closing brace, and further closing brackets behind it, it is valid. */
  ghost predicate Completes(t: Bytes, k: Bytes) {
    t != [] && Closers(k) && ValidRoot(t[..|t| - 1] + Brace(k)) == Some(true)
  }

  lemma RootAgrees(u: Bytes, k: Bytes)
    requires u != [] && NUL !in u && Closers(k)
    ensures ValidRoot(u + COMMA) == None ==> NoOpen(u)
    ensures NoOpen(u) && ValidRoot(u + Brace(k)) == Some(true) ==> ValidRoot(u + COMMA) == None
  {
    hide ValidObject, ValidArray, ValidRoot, Agree;
    Starts(u, k, 1);
    RootIs(u + COMMA);
    RootIs(u + Brace(k));
    var v, v', x := RootVerdict(u + COMMA), RootVerdict(u + Brace(k)), u;
    if u[0] == '{' {
      x := ObjectStep(u, 1, k);
      AcceptedRest(v, v', u, x, k);
    } else if u[0] == '[' {
      x := ArrayStep(u, 1, 1, k);
      AcceptedRest(v, v', u, x, k);
    }
  }

  lemma RootCloses(u: Bytes) returns (k: Bytes)
    requires u != [] && NUL !in u && ValidRoot(u + COMMA) == None
    ensures Closers(k) && ValidRoot(u + Brace(k)) == Some(true)
  {
    hide ValidObject, ValidArray, ValidRoot;
    Starts(u, [], 1);
    RootIs(u + COMMA);
    if u[0] == '{' { k := ObjectCloses(u, 1, []); } else { k := ArrayCloses(u, 1, 1, []); }
    assert k + [] == k;
    Starts(u, k, 1);
    RootIs(u + Brace(k));
  }

  lemma {:induction false} CStringIsText(json: Bytes)
    ensures NUL !in CString(json)
  {
    if json != [] && json[0] != NUL { CStringIsText(json[1..]); }
  }

  /** The validator reads past the end exactly on the C strings that end in a comma which does not follow an opening
      brace, and that a closing brace instead of it, and further closing brackets, make valid. */
  lemma PastEndExactly(json: Bytes)
    ensures var t := CString(json);
            ValidRoot(json) == None
            <==> |t| > 1 && t[|t| - 1] == ',' && t[|t| - 2] != '{' && exists k :: Completes(t, k)
  {
    hide ValidObject, ValidArray, CString, Completes;
    CStringIsText(json);
    CStringOfText(CString(json));
    TextPastEnd(CString(json));
  }

  lemma TextPastEnd(t: Bytes)
    requires NUL !in t
    ensures ValidRoot(t) == None
       <==> |t| > 1 && t[|t| - 1] == ',' && t[|t| - 2] != '{' && exists k :: Completes(t, k)
  {
    hide ValidRoot, Closers;
    RootIs(t);
    if t != [] && t[|t| - 1] == ',' {
      var u := t[..|t| - 1];
      assert t == u + COMMA;
      if u == [] {
        OnlyComma(t);
      } else {
        if ValidRoot(t) == None {
          var k := RootCloses(u);
          RootAgrees(u, k);
          assert Completes(t, k);
        }
        if k :| Completes(t, k) {
          RootAgrees(u, k);
        }
      }
    }
  }

  lemma OnlyComma(t: Bytes)
    requires t == COMMA
    ensures ValidRoot(t) == Some(false)
  {
    RootIs(t);
  }

  /** A comma at the end that is rejected, and one behind which the validator goes on. */
  lemma CommaInArray()
    ensures ValidRoot(['[', ',']) == Some(false)
  {
    RootIs(['[', ',']);
    assert ['[', ','][1..] == COMMA;
  }

  lemma CommaInObject()
    ensures ValidRoot(['{', '"', '"', ':', ',']) == None
  {
    hide CString;
    var b: Bytes := ['{', '"', '"', ':', ','];
    RootIs(b);
    assert b[1..] == ['"', '"', ':', ','] && b[1..][1..] == ['"', ':', ','];
    assert b[1..][1..][1..] == [':', ','] && [':', ','][1..] == COMMA && COMMA[1..] == [];
  }
}
