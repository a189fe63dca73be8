/** Comments in front of a document. The stripper puts them between marks, but leaves the marks they hold
    themselves; the parser steps from mark to mark, and goes on at once if another one follows. */
module JsonComments {
  import opened Options
  import opened JsonEscape
  import opened JsonTree
  import opened JsonStrip
  import opened JsonScan
  import opened JsonParse

  /** No star and slash. */
  predicate Unclosed(c: Bytes) {
    forall i :: 0 <= i < |c| - 1 ==> !(c[i] == '*' && c[i + 1] == '/')
  }

  /** w is a comment, of one of the three kinds, with the text c. */
  predicate IsComment(w: Bytes, c: Bytes) {
    || (w == ['#'] + (c + ['\n']) && '\n' !in c)
    || (w == ['/', '/'] + (c + ['\n']) && '\n' !in c)
    || (w == ['/', '*'] + (c + ['*', '/']) && Unclosed(c))
  }

  // ---- Stripping

  lemma {:induction false} LineCommentOf(c: Bytes, t: Bytes)
    requires '\n' !in c
    ensures LineComment(c + (['\n'] + t)) == Closed(c + [COMMENT_MARK], t)
  {
    var text := c + (['\n'] + t);
    if c == [] {
      assert text == ['\n'] + t && c + [COMMENT_MARK] == [COMMENT_MARK];
    } else {
      LineCommentOf(c[1..], t);
      assert text[1..] == c[1..] + (['\n'] + t);
      assert [c[0]] + (c[1..] + [COMMENT_MARK]) == c + [COMMENT_MARK];
    }
  }

  lemma {:induction false} BlockCommentOf(c: Bytes, t: Bytes)
    requires Unclosed(c)
    ensures BlockComment(c + (['*', '/'] + t)) == Closed(c + [COMMENT_MARK], t)
  {
    var text := c + (['*', '/'] + t);
    if c == [] {
      assert text == ['*', '/'] + t && c + [COMMENT_MARK] == [COMMENT_MARK];
    } else {
      forall i | 0 <= i < |c[1..]| - 1 ensures !(c[1..][i] == '*' && c[1..][i + 1] == '/') {
        assert c[1..][i] == c[i + 1] && c[1..][i + 1] == c[i + 2];
      }
      BlockCommentOf(c[1..], t);
      assert text[1..] == c[1..] + (['*', '/'] + t);
      assert text[0] == c[0] && text[1] == if |c| > 1 then c[1] else '*';
      assert [c[0]] + (c[1..] + [COMMENT_MARK]) == c + [COMMENT_MARK];
    }
  }

  /** All three kinds strip to their text between marks. */
  lemma CommentStrips(w: Bytes, c: Bytes, t: Bytes)
    requires IsComment(w, c)
    ensures Strip(w + t, true) == Prefix(['#'] + (c + ['#']), Strip(t, true))
  {
    hide LineComment, BlockComment, Unclosed;
    var text := w + t;
    if w[0] == '#' {
      assert text[1..] == c + (['\n'] + t);
      LineCommentOf(c, t);
    } else if w[1] == '/' {
      assert text[2..] == c + (['\n'] + t);
      LineCommentOf(c, t);
    } else {
      assert text[2..] == c + (['*', '/'] + t);
      BlockCommentOf(c, t);
    }
  }

  // ---- Stepping over

  /** The marks in c come in pairs of neighbours. */
  predicate Paired(c: Bytes)
    decreases |c|
  {
    var r := AfterMark(c);
    r.None? || (r.value != [] && r.value[0] == COMMENT_MARK && Paired(r.value[1..]))
  }

  /** What follows the first mark that has no neighbour. */
  function Loose(c: Bytes): (d: Bytes)
    requires !Paired(c)
    ensures |d| < |c| && (d == [] || d[0] != COMMENT_MARK)
    decreases |c|
  {
    var r := AfterMark(c).value;
    if r != [] && r[0] == COMMENT_MARK then Loose(r[1..]) else r
  }

  lemma {:induction false} AfterMarkOf(c: Bytes, s: Bytes)
    ensures AfterMark(c + ([COMMENT_MARK] + s))
            == if AfterMark(c).None? then Some(s) else Some(AfterMark(c).value + ([COMMENT_MARK] + s))
  {
    var text := c + ([COMMENT_MARK] + s);
    if c == [] {
      assert text == [COMMENT_MARK] + s;
    } else {
      assert text[1..] == c[1..] + ([COMMENT_MARK] + s);
      if c[0] != COMMENT_MARK { AfterMarkOf(c[1..], s); }
    }
  }

  /** Where the parser gets to from the start of a stripped comment. */
  lemma {:induction false} SkipsTo(c: Bytes, s: Bytes)
    ensures SkipComments(['#'] + (c + (['#'] + s)))
            == if Paired(c) then SkipComments(s)
               else if Loose(c) == [] then SkipComments(['#'] + s)
               else Some(Loose(c) + (['#'] + s))
    decreases |c|
  {
    hide AfterMark;
    var text, r := ['#'] + (c + (['#'] + s)), AfterMark(c);
    assert text[1..] == c + (['#'] + s);
    AfterMarkOf(c, s);
    if r.Some? {
      var d := r.value;
      if d == [] {
        assert d + (['#'] + s) == ['#'] + s;
      } else if d[0] == '#' {
        SkipsTo(d[1..], s);
        assert d + (['#'] + s) == ['#'] + (d[1..] + (['#'] + s));
      } else {
        assert (d + (['#'] + s))[0] == d[0];
      }
    }
  }

  /** What the parser makes of a text with a comment in front. */
  lemma ParseBehindComment(w: Bytes, c: Bytes, t: Bytes)
    requires IsComment(w, c)
    ensures ParseDocument(w + t)
            == if Paired(c) then ParseDocument(t)
               else if Strip(t, true).None? then UndefinedDocument
               else if Loose(c) == [] then ParseStripped(SkipComments(['#'] + Strip(t, true).value))
               else ParseStripped(Some(Loose(c) + (['#'] + Strip(t, true).value)))
  {
    hide Strip, SkipComments, ParseStripped, Paired, Loose, IsComment;
    CommentStrips(w, c, t);
    var s := Strip(t, true);
    if s.Some? {
      SkipsTo(c, s.value);
      assert ['#'] + (c + ['#']) + s.value == ['#'] + (c + (['#'] + s.value));
    }
  }

  // ---- When a comment makes no difference

  const EMPTY: Bytes := ['[', ']']

  lemma EmptyArray()
    ensures Strip(EMPTY, true) == Some(EMPTY) && ParseDocument(EMPTY) == Parsed(Arr([]))
  {
    hide ParseDocument;
    var n := Node([], Arr([]));
    assert Text(n.value, true) == Compact(n) == EMPTY;
    StripForParsing(n);
    ParseUndoesWrite(n);
  }

  /** The rounds of DoArray never end without an element. */
  lemma SomeElement(t: Bytes)
    ensures Elements(t) != Kids([])
  {
    hide Find, ParseValue, CString;
  }

  lemma UnpairedSpoilsEmpty(c: Bytes)
    requires !Paired(c)
    ensures var s := ['#'] + EMPTY;
            (if Loose(c) == [] then ParseStripped(SkipComments(s)) else ParseStripped(Some(Loose(c) + s))) != Parsed(Arr([]))
  {
    hide Paired, Loose, ParseValue;
    var d, s := Loose(c), ['#'] + EMPTY;
    if d == [] {
      assert s[1..] == EMPTY && EMPTY[1..] == [']'] && [']'][1..] == [];
      assert AfterMark([]) == None && AfterMark([']']) == None && AfterMark(EMPTY) == None;
    } else {
      var t := d + s;
      assert |t| > 2 && t[0] == d[0] && t[|t| - 1] == ']';
      if d[0] == '[' { NotEmpty(t); }
    }
  }

  lemma NotEmpty(t: Bytes)
    requires |t| > 2 && t[0] == '[' && t[|t| - 1] == ']'
    ensures ParseValue(t) != Some(Arr([]))
  {
    hide Elements;
    SomeElement(t[1..]);
  }

  /** A comment makes no difference in front of any text exactly if its number signs come in pairs of neighbours. */
  lemma CommentHarmlessExactly(w: Bytes, c: Bytes)
    requires IsComment(w, c)
    ensures (forall t :: ParseDocument(w + t) == ParseDocument(t)) <==> Paired(c)
  {
    hide ParseDocument, Strip, Paired, Loose, IsComment, SkipComments, ParseStripped;
    if Paired(c) {
      forall t ensures ParseDocument(w + t) == ParseDocument(t) { ParseBehindComment(w, c, t); }
    } else {
      EmptyArray();
      ParseBehindComment(w, c, EMPTY);
      UnpairedSpoilsEmpty(c);
      assert ParseDocument(w + EMPTY) != ParseDocument(EMPTY);
    }
  }

  /** A comment that does harm, and one that does not though it holds signs. */
  lemma LooseAndPaired()
    ensures ParseDocument(['#', 'a', '#', 'b', '\n'] + EMPTY) == NotJson
    ensures ParseDocument(['#', 'a', '#', '#', 'b', '\n'] + EMPTY) == Parsed(Arr([]))
  {
    hide ParseDocument, Strip, Paired, Loose;
    var c, d: Bytes := ['a', '#', 'b'], ['a', '#', '#', 'b'];
    EmptyArray();
    assert ['#', 'a', '#', 'b', '\n'] == ['#'] + (c + ['\n']) && ['#', 'a', '#', '#', 'b', '\n'] == ['#'] + (d + ['\n']);
    LooseSign();
    ParseBehindComment(['#'] + (c + ['\n']), c, EMPTY);
    ParseBehindComment(['#'] + (d + ['\n']), d, EMPTY);
  }

  lemma LooseSign()
    ensures !Paired(['a', '#', 'b']) && Loose(['a', '#', 'b']) == ['b'] && Paired(['a', '#', '#', 'b'])
  {
    var c, d: Bytes := ['a', '#', 'b'], ['a', '#', '#', 'b'];
    assert c[1..] == ['#', 'b'] && c[1..][1..] == ['b'];
    assert d[1..] == ['#', '#', 'b'] && d[1..][1..] == ['#', 'b'] && ['#', 'b'][1..] == ['b'] && ['b'][1..] == [];
    assert AfterMark(c) == Some(['b']) && AfterMark(d) == Some(['#', 'b']);
    assert AfterMark([]) == None && AfterMark(['b']) == None;
    assert Paired(['b']);
  }
}
