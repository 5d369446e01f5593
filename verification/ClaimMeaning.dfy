/** What claims our id, in characters: encoded-words, token bytes, equal ids, and ids behind comments of every kind. */
module ClaimMeaning {
  import opened Text
  import opened Authserv
  import opened AuthservGrammar

  // ---------- Encoded-words ----------

  /** An encoded-word starts somewhere: =?, a charset without a question mark, ?, b or q in either case, and ?. */
  ghost predicate EncodedWordText(s: string) {
    exists a: string, charset: string, t: char, b: string ::
      && '?' !in charset && (t == 'b' || t == 'B' || t == 'q' || t == 'Q')
      && s == a + "=?" + charset + "?" + [t] + "?" + b
  }

  lemma EncodedWordFound(a: string, charset: string, t: char, b: string)
    requires '?' !in charset && (t == 'b' || t == 'B' || t == 'q' || t == 'Q')
    ensures HasEncodedWord(a + "=?" + charset + "?" + [t] + "?" + b)
  {
    var s := a + "=?" + charset + "?" + [t] + "?" + b;
    var i, j := |a|, |a| + 2 + |charset|;
    assert s[i] == '=' && s[i + 1] == '?';
    assert s[j] == '?' && s[j + 1] == t && s[j + 2] == '?';
    forall k | i + 2 <= k < j ensures s[k] != '?' {
      assert s[k] == charset[k - i - 2];
    }
    assert LowerChar(t) in "bq" by {
      assert "bq"[0] == 'b' && "bq"[1] == 'q';
    }
    assert EncodedWordAt(s, i, j);
  }

  lemma EncodedWordCut(s: string, i: nat, j: nat)
    requires EncodedWordAt(s, i, j)
    ensures s == s[..i] + "=?" + s[i + 2..j] + "?" + [s[j + 1]] + "?" + s[j + 3..]
    ensures '?' !in s[i + 2..j]
    ensures s[j + 1] == 'b' || s[j + 1] == 'B' || s[j + 1] == 'q' || s[j + 1] == 'Q'
  {
    var charset := s[i + 2..j];
    forall k | 0 <= k < |charset| ensures charset[k] != '?' {
      assert charset[k] == s[i + 2 + k];
    }
  }

  /** The search for encoded-words is exactly that form. */
  lemma EncodedWordIff(s: string)
    ensures HasEncodedWord(s) <==> EncodedWordText(s)
  {
    if HasEncodedWord(s) {
      var i, j :| 0 <= i < |s| && 0 <= j < |s| && EncodedWordAt(s, i, j);
      EncodedWordCut(s, i, j);
    }
    if EncodedWordText(s) {
      var a: string, charset: string, t: char, b: string
        :| && '?' !in charset && (t == 'b' || t == 'B' || t == 'q' || t == 'Q')
           && s == a + "=?" + charset + "?" + [t] + "?" + b;
      EncodedWordFound(a, charset, t, b);
    }
  }

  /** A value that holds one claims every id. */
  lemma EncodedWordClaims(a: string, charset: string, t: char, b: string, id: string)
    requires '?' !in charset && (t == 'b' || t == 'B' || t == 'q' || t == 'Q')
    ensures Claims(a + "=?" + charset + "?" + [t] + "?" + b, id)
  {
    EncodedWordFound(a, charset, t, b);
  }

  // ---------- Characters and ids ----------

  /** The 79 characters of a token: letters, digits and seventeen marks. */
  lemma TokenByteIff(c: char)
    ensures IsTokenByte(c)
       <==> 'A' <= c <= 'Z' || 'a' <= c <= 'z' || '0' <= c <= '9' || c in "!#$%&'*+-.^_`{|}~"
  {
    TokenMarks(c);
  }

  lemma TokenMarks(c: char)
    ensures c in TSPECIALS
       <==> c in ['(', ')', '<', '>', '@', ',', ';', ':', '\\', '\"', '/', '[', ']', '?', '=']
    ensures c in "!#$%&'*+-.^_`{|}~"
       <==> c in ['!', '#', '$', '%', '&', '\'', '*', '+', '-', '.', '^', '_', '`', '{', '|', '}', '~']
  {
    assert TSPECIALS == ['(', ')', '<', '>', '@', ',', ';', ':', '\\', '\"', '/', '[', ']', '?', '='];
  }

  /** One reading is our id when both, each without at most one dot at its end, are the same text in lower case, and not
      empty. */
  lemma SameIdIff(x: string, dotX: bool, y: string, dotY: bool)
    requires (!dotX ==> x == "" || x[|x| - 1] != '.') && (!dotY ==> y == "" || y[|y| - 1] != '.')
    ensures var (got, id) := (if dotX then x + "." else x, if dotY then y + "." else y);
            SameId(got, id) <==> x != "" && ToLower(x) == ToLower(y)
  {
    assert (x + ".")[..|x + "."| - 1] == x && (y + ".")[..|y + "."| - 1] == y;
  }

  // ---------- Comments as other parsers read them ----------

  /** The content of a comment in one mode: without nesting an opening parenthesis is a character like others, and
      without escapes so is a backslash. */
  predicate ContentFor(t: Content, m: CommentMode) {
    match t
    case End => true
    case Plain(c, rest) =>
      c != ')' && (m.nesting ==> c != '(') && (m.escapes ==> c != '\\') && ContentFor(rest, m)
    case Escaped(_, rest) => m.escapes && ContentFor(rest, m)
    case Nested(inner, rest) => m.nesting && ContentFor(inner, m) && ContentFor(rest, m)
  }

  /** What a loose reader passes over: characters no token has, and comments. */
  datatype Clutter =
    | Bare
    | Junk(c: char, rest: Clutter)
    | Remark(inner: Content, rest: Clutter)
  {
    function Render(): string {
      match this
      case Bare => ""
      case Junk(c, rest) => [c] + rest.Render()
      case Remark(inner, rest) => ['('] + (inner.Render() + ([')'] + rest.Render()))
    }

    predicate For(m: CommentMode) {
      match this
      case Bare => true
      case Junk(c, rest) => !IsTokenByte(c) && c != '(' && rest.For(m)
      case Remark(inner, rest) => ContentFor(inner, m) && rest.For(m)
    }
  }

  lemma LeadingOne(c: char, s: string, m: CommentMode, d: nat)
    requires m.comments
    ensures c == '(' && (d == 0 || m.nesting) ==> Leading([c] + s, m, d) == Leading(s, m, d + 1)
    ensures c == ')' && d > 0 ==> Leading([c] + s, m, d) == Leading(s, m, d - 1)
    ensures d > 0 && c != ')' && (m.nesting ==> c != '(') && (m.escapes ==> c != '\\') ==>
              Leading([c] + s, m, d) == Leading(s, m, d)
    ensures d == 0 && c != '(' && !IsTokenByte(c) ==> Leading([c] + s, m, d) == Leading(s, m, d)
  {
    ConsTail(c, s);
  }

  lemma LeadingEscape(c: char, s: string, m: CommentMode, d: nat)
    requires m.escapes && d > 0
    ensures Leading(['\\', c] + s, m, d) == Leading(s, m, d)
  {
    var t := ['\\', c] + s;
    assert t[2..] == s;
  }

  lemma {:induction false} LeadingContent(t: Content, m: CommentMode, d: nat, s: string)
    requires m.comments && ContentFor(t, m) && d > 0
    ensures Leading(t.Render() + s, m, d) == Leading(s, m, d)
    decreases t
  {
    match t
    case End =>
      assert "" + s == s;
    case Plain(c, rest) =>
      LeadingContent(rest, m, d, s);
      Regroup([c], rest.Render(), s);
      LeadingOne(c, rest.Render() + s, m, d);
    case Escaped(c, rest) =>
      LeadingContent(rest, m, d, s);
      Regroup(['\\', c], rest.Render(), s);
      LeadingEscape(c, rest.Render() + s, m, d);
    case Nested(inner, rest) =>
      LeadingContent(rest, m, d, s);
      LeadingOne(')', rest.Render() + s, m, d + 1);
      LeadingContent(inner, m, d + 1, [')'] + (rest.Render() + s));
      LeadingOne('(', inner.Render() + ([')'] + (rest.Render() + s)), m, d);
      RegroupNested(inner.Render(), rest.Render(), s);
  }

  lemma {:induction false} LeadingClutter(w: Clutter, m: CommentMode, s: string)
    requires m.comments && w.For(m)
    ensures Leading(w.Render() + s, m, 0) == Leading(s, m, 0)
    decreases w
  {
    match w
    case Bare =>
      assert "" + s == s;
    case Junk(c, rest) =>
      LeadingClutter(rest, m, s);
      Regroup([c], rest.Render(), s);
      LeadingOne(c, rest.Render() + s, m, 0);
    case Remark(inner, rest) =>
      LeadingClutter(rest, m, s);
      LeadingOne(')', rest.Render() + s, m, 1);
      LeadingContent(inner, m, 1, [')'] + (rest.Render() + s));
      LeadingOne('(', inner.Render() + ([')'] + (rest.Render() + s)), m, 0);
      RegroupNested(inner.Render(), rest.Render(), s);
  }

  lemma LeadingToken(tok: string, rest: string, m: CommentMode)
    requires tok != "" && AllToken(tok) && (rest == "" || !IsTokenByte(rest[0]))
    ensures Leading(tok + rest, m, 0) == tok
  {
    assert (tok + rest)[0] == tok[0];
    TokenRunReads(tok, rest);
    TokenByteIff('(');
  }

  /** Whatever a parser makes of parentheses, nesting or not and with escapes or without: our id behind characters no
      token has and behind comments as that parser reads them is claimed. */
  lemma ClutteredIdClaims(nesting: bool, escapes: bool, w: Clutter, tok: string, rest: string, id: string)
    requires w.For(CommentMode(true, nesting, escapes))
    requires tok != "" && AllToken(tok) && (rest == "" || !IsTokenByte(rest[0])) && SameId(tok, id)
    ensures Claims(w.Render() + (tok + rest), id)
  {
    var m := CommentMode(true, nesting, escapes);
    LeadingClutter(w, m, tok + rest);
    LeadingToken(tok, rest, m);
    assert COMMENT_MODES[0] in COMMENT_MODES && COMMENT_MODES[1] in COMMENT_MODES;
    assert COMMENT_MODES[2] in COMMENT_MODES && COMMENT_MODES[3] in COMMENT_MODES;
    assert m in COMMENT_MODES;
  }
}
