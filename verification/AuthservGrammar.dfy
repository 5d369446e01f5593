/** The strict reading against its grammar, in both directions, and the agreement of all readings on plain values. */
module AuthservGrammar {
  import opened Wrappers
  import opened Text
  import opened Authserv

  // ---------- Comments and folding white space, as in section 3.2.2 of RFC 5322 ----------

  /** A character of folding white space. */
  predicate IsFws(c: char) { c == ' ' || c == '\t' || c == '\r' || c == '\n' }

  /** White space, a comment or the semicolon after an id. */
  predicate EndsBareId(c: char) {
    c == ' ' || c == '\t' || c == '\r' || c == '\n' || c == '(' || c == ';'
  }

  /** What stands inside a comment: plain characters, escaped characters and further comments. */
  datatype Content =
    | End
    | Plain(c: char, rest: Content)
    | Escaped(c: char, rest: Content)
    | Nested(inner: Content, rest: Content)
  {
    function Render(): string {
      match this
      case End => ""
      case Plain(c, rest) => [c] + rest.Render()
      case Escaped(c, rest) => ['\\', c] + rest.Render()
      case Nested(inner, rest) => ['('] + (inner.Render() + ([')'] + rest.Render()))
    }

    predicate WellFormed() {
      match this
      case End => true
      case Plain(c, rest) => c != '(' && c != ')' && c != '\\' && rest.WellFormed()
      case Escaped(_, rest) => rest.WellFormed()
      case Nested(inner, rest) => inner.WellFormed() && rest.WellFormed()
    }
  }

  /** White space and comments. */
  datatype Cfws =
    | Done
    | Space(c: char, rest: Cfws)
    | Comment(inner: Content, rest: Cfws)
  {
    function Render(): string {
      match this
      case Done => ""
      case Space(c, rest) => [c] + rest.Render()
      case Comment(inner, rest) => ['('] + (inner.Render() + ([')'] + rest.Render()))
    }

    predicate WellFormed() {
      match this
      case Done => true
      case Space(c, rest) => IsFws(c) && rest.WellFormed()
      case Comment(inner, rest) => inner.WellFormed() && rest.WellFormed()
    }
  }

  lemma ConsTail(c: char, s: string)
    ensures ([c] + s)[1..] == s && ([c] + s)[0] == c
  {
  }

  /** One ordinary character, one escape, one parenthesis: how each moves the scanner. */
  lemma SkipOne(c: char, s: string, d: nat)
    ensures c == '(' ==> Skip([c] + s, d) == Skip(s, d + 1)
    ensures c == ')' && d > 0 ==> Skip([c] + s, d) == Skip(s, d - 1)
    ensures c != '(' && c != ')' && c != '\\' && d > 0 ==> Skip([c] + s, d) == Skip(s, d)
    ensures IsFws(c) && d == 0 ==> Skip([c] + s, d) == Skip(s, d)
    ensures c != '(' && !IsFws(c) && d == 0 ==> Skip([c] + s, d) == [c] + s
  {
    ConsTail(c, s);
  }

  lemma SkipEscape(c: char, s: string, d: nat)
    requires d > 0
    ensures Skip(['\\', c] + s, d) == Skip(s, d)
  {
    var t := ['\\', c] + s;
    assert t[2..] == s;
  }

  /** The content of a comment leaves the depth as it was. */
  lemma {:induction false} SkipContent(t: Content, d: nat, s: string)
    requires t.WellFormed() && d > 0
    ensures Skip(t.Render() + s, d) == Skip(s, d)
    decreases t
  {
    match t
    case End =>
      assert "" + s == s;
    case Plain(c, rest) =>
      SkipContent(rest, d, s);
      Regroup([c], rest.Render(), s);
      SkipOne(c, rest.Render() + s, d);
    case Escaped(c, rest) =>
      SkipContent(rest, d, s);
      Regroup(['\\', c], rest.Render(), s);
      SkipEscape(c, rest.Render() + s, d);
    case Nested(inner, rest) =>
      SkipContent(rest, d, s);
      SkipOne(')', rest.Render() + s, d + 1);
      SkipContent(inner, d + 1, [')'] + (rest.Render() + s));
      SkipOne('(', inner.Render() + ([')'] + (rest.Render() + s)), d);
      RegroupNested(inner.Render(), rest.Render(), s);
  }

  lemma RegroupNested(a: string, b: string, s: string)
    ensures ['('] + (a + ([')'] + b)) + s == ['('] + (a + ([')'] + (b + s)))
  {
  }

  /** Every string of comments and white space is skipped whole. */
  lemma {:induction false} SkipCfwsText(w: Cfws, s: string)
    requires w.WellFormed()
    ensures Skip(w.Render() + s, 0) == Skip(s, 0)
    decreases w
  {
    match w
    case Done =>
      assert "" + s == s;
    case Space(c, rest) =>
      SkipCfwsText(rest, s);
      Regroup([c], rest.Render(), s);
      SkipOne(c, rest.Render() + s, 0);
    case Comment(inner, rest) =>
      SkipCfwsText(rest, s);
      SkipOne(')', rest.Render() + s, 1);
      SkipContent(inner, 1, [')'] + (rest.Render() + s));
      SkipOne('(', inner.Render() + ([')'] + (rest.Render() + s)), 0);
      RegroupNested(inner.Render(), rest.Render(), s);
  }

  // ---------- The converse: what is skipped is comments and white space ----------

  /** The contents that close a stack of open comments, innermost first. */
  function Close(open: seq<Content>): string {
    if open == [] then "" else open[0].Render() + ([')'] + Close(open[1..]))
  }

  predicate AllWellFormed(open: seq<Content>) {
    forall t | t in open :: t.WellFormed()
  }

  lemma Step(s: string) returns (c: char, t: string)
    requires s != ""
    ensures s == [c] + t && |t| < |s|
  {
    c, t := s[0], s[1..];
  }

  lemma CloseCons(t: Content, open: seq<Content>)
    ensures Close([t] + open) == t.Render() + ([')'] + Close(open))
  {
    assert ([t] + open)[1..] == open;
  }

  /** s closes the open comments, goes on with comments and white space, and leaves r. */
  ghost predicate Decomposes(s: string, open: seq<Content>, w: Cfws, r: string) {
    AllWellFormed(open) && w.WellFormed() && s == Close(open) + w.Render() + r
  }

  lemma RebuildPrefix(p: string, h: string, z: string, w: string, r: string)
    ensures p + ((h + z) + w + r) == ((p + h) + z) + w + r
  {
  }

  lemma RebuildComment(inner: string, w: string, r: string)
    ensures ['('] + ((inner + ([')'] + "")) + w + r) == "" + (['('] + (inner + ([')'] + w))) + r
  {
  }

  lemma RebuildNested(inner: string, h: string, z: string, w: string, r: string)
    ensures ['('] + ((inner + ([')'] + (h + z))) + w + r) == ((['('] + (inner + ([')'] + h))) + z) + w + r
  {
  }

  lemma GrowHead(p: string, s: string, h: Content, grown: Content, open: seq<Content>, w: Cfws, r: string)
    requires Decomposes(s, [h] + open, w, r) && grown.WellFormed() && grown.Render() == p + h.Render()
    ensures Decomposes(p + s, [grown] + open, w, r)
  {
    CloseCons(h, open);
    CloseCons(grown, open);
    assert forall t | t in open :: t in [h] + open;
    RebuildPrefix(p, h.Render(), [')'] + Close(open), w.Render(), r);
  }

  lemma GrowNested(s: string, inner: Content, h: Content, open: seq<Content>, w: Cfws, r: string)
    requires Decomposes(s, [inner] + ([h] + open), w, r)
    ensures Decomposes(['('] + s, [Nested(inner, h)] + open, w, r)
  {
    CloseCons(inner, [h] + open);
    CloseCons(h, open);
    CloseCons(Nested(inner, h), open);
    var all := [inner] + ([h] + open);
    assert inner == all[0] && h == all[1] && forall t | t in open :: t in all;
    RebuildNested(inner.Render(), h.Render(), [')'] + Close(open), w.Render(), r);
  }

  lemma GrowComment(s: string, inner: Content, w: Cfws, r: string)
    requires Decomposes(s, [inner], w, r)
    ensures Decomposes(['('] + s, [], Comment(inner, w), r)
  {
    CloseCons(inner, []);
    assert [inner] + [] == [inner] && inner in [inner];
    RebuildComment(inner.Render(), w.Render(), r);
  }

  lemma GrowClose(s: string, open: seq<Content>, w: Cfws, r: string)
    requires Decomposes(s, open, w, r)
    ensures Decomposes([')'] + s, [End] + open, w, r)
  {
    CloseCons(End, open);
    RebuildPrefix([')'], "", Close(open), w.Render(), r);
    assert "" + Close(open) == Close(open) && [')'] + "" == [')'];
    assert "" + ([')'] + Close(open)) == [')'] + Close(open);
  }

  lemma GrowSpace(c: char, s: string, w: Cfws, r: string)
    requires Decomposes(s, [], w, r) && IsFws(c)
    ensures Decomposes([c] + s, [], Space(c, w), r)
  {
  }

  /** When something is left after skipping, what was skipped closes the open comments and is then comments and white
      space alone. */
  lemma {:induction false} Unskip(s: string, d: nat) returns (open: seq<Content>, w: Cfws)
    requires Skip(s, d) != ""
    ensures |open| == d && Decomposes(s, open, w, Skip(s, d))
    decreases |s|
  {
    var c, t := Step(s);
    SkipOne(c, t, d);
    if d > 0 && c == '\\' {
      var x, u := Step(t);
      assert s == ['\\', x] + u;
      SkipEscape(x, u, d);
      open, w := Unskip(u, d);
      var h, rest := Uncons(open);
      assert h in open;
      GrowHead(['\\', x], u, h, Escaped(x, h), rest, w, Skip(s, d));
      open := [Escaped(x, h)] + rest;
    } else if c == '(' {
      open, w := Unskip(t, d + 1);
      var inner, outer := Uncons(open);
      if d == 0 {
        assert open == [inner];
        GrowComment(t, inner, w, Skip(s, d));
        open, w := [], Comment(inner, w);
      } else {
        var h, rest := Uncons(outer);
        GrowNested(t, inner, h, rest, w, Skip(s, d));
        open := [Nested(inner, h)] + rest;
      }
    } else if d > 0 && c == ')' {
      open, w := Unskip(t, d - 1);
      GrowClose(t, open, w, Skip(s, d));
      open := [End] + open;
    } else if d == 0 && !IsFws(c) {
      open, w := [], Done;
      assert "" + "" + s == s;
    } else {
      open, w := Unskip(t, d);
      if d == 0 {
        assert open == [];
        GrowSpace(c, t, w, Skip(s, d));
        w := Space(c, w);
      } else {
        var h, rest := Uncons(open);
        assert h in open;
        GrowHead([c], t, h, Plain(c, h), rest, w, Skip(s, d));
        open := [Plain(c, h)] + rest;
      }
    }
  }

  lemma {:induction false} SkippedStart(s: string, d: nat)
    ensures Skip(s, d) != "" ==> !IsFws(Skip(s, d)[0]) && Skip(s, d)[0] != '('
    decreases |s|
  {
    if s != "" {
      var c, t := Step(s);
      SkipOne(c, t, d);
      if d > 0 && c == '\\' {
        if t != "" {
          var x, u := Step(t);
          assert s == ['\\', x] + u;
          SkipEscape(x, u, d);
          SkippedStart(u, d);
        }
      } else if c == '(' {
        SkippedStart(t, d + 1);
      } else if d > 0 && c == ')' {
        SkippedStart(t, d - 1);
      } else if d > 0 || IsFws(c) {
        SkippedStart(t, d);
      }
    }
  }

  /** Skipping is exactly the removal of a leading string of comments and white space: r is left of s when s is such a
      string followed by r, and r begins with something else. */
  lemma SkipIff(s: string, r: string)
    requires r != ""
    ensures Skip(s, 0) == r
       <==> !IsFws(r[0]) && r[0] != '(' && exists w: Cfws :: w.WellFormed() && s == w.Render() + r
  {
    if Skip(s, 0) == r {
      SkippedStart(s, 0);
      var open, w := Unskip(s, 0);
      assert open == [] && "" + w.Render() == w.Render();
    }
    if !IsFws(r[0]) && r[0] != '(' {
      forall w: Cfws | w.WellFormed() && s == w.Render() + r ensures Skip(s, 0) == r {
        SkipCfwsText(w, r);
      }
    }
  }

  // ---------- Values of which nothing is left ----------

  /** What stands inside a comment that never closes: its content up to the end of the text, perhaps with a lone
      backslash there, or up to a further comment that never closes. */
  datatype Unclosed = Ends(body: Content, escape: bool) | Deeper(body: Content, inner: Unclosed)
  {
    function Render(): string {
      match this
      case Ends(body, escape) => body.Render() + (if escape then "\\" else "")
      case Deeper(body, inner) => body.Render() + (['('] + inner.Render())
    }

    predicate WellFormed() {
      match this
      case Ends(body, _) => body.WellFormed()
      case Deeper(body, inner) => body.WellFormed() && inner.WellFormed()
    }

    function WithBody(t: Content): Unclosed {
      match this
      case Ends(_, escape) => Ends(t, escape)
      case Deeper(_, inner) => Deeper(t, inner)
    }
  }

  lemma {:induction false} SkipUnclosed(u: Unclosed, d: nat)
    requires u.WellFormed() && d > 0
    ensures Skip(u.Render(), d) == ""
    decreases u
  {
    match u
    case Ends(body, escape) =>
      SkipContent(body, d, if escape then "\\" else "");
    case Deeper(body, inner) =>
      SkipUnclosed(inner, d + 1);
      SkipOne('(', inner.Render(), d);
      SkipContent(body, d, ['('] + inner.Render());
  }

  lemma GrowBody(p: string, u: Unclosed, grown: Content)
    requires u.WellFormed() && grown.WellFormed() && grown.Render() == p + u.body.Render()
    ensures u.WithBody(grown).WellFormed() && u.WithBody(grown).Render() == p + u.Render()
  {
    match u
    case Ends(_, escape) => Regroup(p, u.body.Render(), if escape then "\\" else "");
    case Deeper(_, inner) => Regroup(p, u.body.Render(), ['('] + inner.Render());
  }

  /** How a text of which nothing is left stands to d open comments: it closes them and goes on with comments and white
      space alone, or with a comment that never closes after those; or it leaves some of them open. */
  datatype Rest = Nothing | Opened(u: Unclosed) | Inside(u: Unclosed)
  {
    function Render(): string {
      match this
      case Nothing => ""
      case Opened(u) => ['('] + u.Render()
      case Inside(u) => u.Render()
    }

    predicate WellFormed() { Nothing? || u.WellFormed() }

    predicate Fits(closed: nat, w: Cfws, depth: nat) {
      if Inside? then closed < depth && w == Done else closed == depth
    }
  }

  ghost predicate Exhausts(s: string, d: nat, open: seq<Content>, w: Cfws, r: Rest) {
    r.WellFormed() && r.Fits(|open|, w, d) && Decomposes(s, open, w, r.Render())
  }

  lemma InsideAlone(u: Unclosed, d: nat)
    requires d > 0 && u.WellFormed()
    ensures Exhausts(u.Render(), d, [], Done, Inside(u))
  {
    assert "" + "" + u.Render() == u.Render();
  }

  /** A piece of content in front of a text inside d > 0 open comments goes to the innermost of them. */
  lemma ExhaustHead(p: string, s: string, d: nat, open: seq<Content>, w: Cfws, r: Rest, grown: Content)
    returns (o: seq<Content>, q: Rest)
    requires d > 0 && Exhausts(s, d, open, w, r)
    requires grown.WellFormed()
    requires grown.Render() == p + (if open == [] then r.u.body else open[0]).Render()
    ensures Exhausts(p + s, d, o, w, q)
  {
    if open == [] {
      GrowBody(p, r.u, grown);
      o, q := [], Inside(r.u.WithBody(grown));
      assert s == "" + "" + r.u.Render() == r.u.Render();
      InsideAlone(r.u.WithBody(grown), d);
    } else {
      var h, rest := Uncons(open);
      GrowHead(p, s, h, grown, rest, w, r.Render());
      o, q := [grown] + rest, r;
    }
  }

  /** The content that is innermost in such a text. */
  function Innermost(open: seq<Content>, r: Rest): Content
    requires open == [] ==> r.Inside?
  {
    if open == [] then r.u.body else open[0]
  }

  lemma InnermostWellFormed(s: string, d: nat, open: seq<Content>, w: Cfws, r: Rest)
    requires d > 0 && Exhausts(s, d, open, w, r)
    ensures (open == [] ==> r.Inside?) && Innermost(open, r).WellFormed()
  {
    if open != [] {
      assert open[0] in open;
    }
  }

  /** An opening parenthesis in front of a text inside d + 1 open comments. */
  lemma ExhaustOpen(s: string, d: nat, open: seq<Content>, w: Cfws, r: Rest)
    returns (o: seq<Content>, v: Cfws, q: Rest)
    requires Exhausts(s, d + 1, open, w, r)
    ensures Exhausts(['('] + s, d, o, v, q)
  {
    if open == [] {
      assert s == "" + "" + r.u.Render() == r.u.Render();
      o, v := [], Done;
      if d == 0 {
        q := Opened(r.u);
        assert "" + "" + q.Render() == ['('] + s;
      } else {
        var u := Deeper(End, r.u);
        assert u.Render() == "" + (['('] + r.u.Render()) == ['('] + s;
        q := Inside(u);
        InsideAlone(u, d);
      }
    } else {
      var inner, outer := Uncons(open);
      if d == 0 {
        assert open == [inner];
        GrowComment(s, inner, w, r.Render());
        o, v, q := [], Comment(inner, w), r;
      } else {
        o, q := ExhaustNested(s, d, inner, outer, w, r);
        v := w;
      }
    }
  }

  lemma ExhaustNested(s: string, d: nat, inner: Content, outer: seq<Content>, w: Cfws, r: Rest)
    returns (o: seq<Content>, q: Rest)
    requires d > 0 && Exhausts(s, d + 1, [inner] + outer, w, r)
    ensures Exhausts(['('] + s, d, o, w, q)
  {
    if outer == [] {
      CloseCons(inner, []);
      assert inner in [inner] + [];
      var grown := Nested(inner, r.u.body);
      NestedFront(inner.Render(), r.u.body.Render());
      GrowBody(['('] + (inner.Render() + [')']), r.u, grown);
      o, q := [], Inside(r.u.WithBody(grown));
      NestedAlone(inner.Render(), r.u.Render());
      InsideAlone(r.u.WithBody(grown), d);
    } else {
      var h, rest := Uncons(outer);
      GrowNested(s, inner, h, rest, w, r.Render());
      o, q := [Nested(inner, h)] + rest, r;
    }
  }

  lemma NestedFront(a: string, b: string)
    ensures ['('] + (a + ([')'] + b)) == ['('] + (a + [')']) + b
  {
  }

  lemma NestedAlone(a: string, u: string)
    ensures ['('] + ((a + ([')'] + "")) + "" + u) == ['('] + (a + [')']) + u
  {
  }

  lemma {:induction false} Exhaust(s: string, d: nat) returns (open: seq<Content>, w: Cfws, r: Rest)
    requires Skip(s, d) == ""
    ensures Exhausts(s, d, open, w, r)
    decreases |s|
  {
    if s == "" {
      open, w, r := [], Done, if d == 0 then Nothing else Inside(Ends(End, false));
      assert "" + "" == "";
    } else {
      var c, t := Step(s);
      SkipOne(c, t, d);
      if d > 0 && c == '\\' {
        open, w, r := ExhaustEscape(s, d, t);
      } else if c == '(' {
        open, w, r := Exhaust(t, d + 1);
        open, w, r := ExhaustOpen(t, d, open, w, r);
      } else if d > 0 && c == ')' {
        open, w, r := Exhaust(t, d - 1);
        GrowClose(t, open, w, r.Render());
        open := [End] + open;
      } else {
        open, w, r := Exhaust(t, d);
        if d == 0 {
          assert open == [];
          GrowSpace(c, t, w, r.Render());
          w := Space(c, w);
        } else {
          InnermostWellFormed(t, d, open, w, r);
          open, r := ExhaustHead([c], t, d, open, w, r, Plain(c, Innermost(open, r)));
        }
      }
    }
  }

  lemma {:induction false} ExhaustEscape(s: string, d: nat, t: string)
    returns (open: seq<Content>, w: Cfws, r: Rest)
    requires d > 0 && s == ['\\'] + t && Skip(s, d) == ""
    ensures Exhausts(s, d, open, w, r)
    decreases |s|, 0
  {
    if t == "" {
      open, w, r := [], Done, Inside(Ends(End, true));
      assert s == "" + "\\";
      InsideAlone(Ends(End, true), d);
    } else {
      var x, u := Step(t);
      assert s == ['\\', x] + u;
      SkipEscape(x, u, d);
      open, w, r := Exhaust(u, d);
      InnermostWellFormed(u, d, open, w, r);
      open, r := ExhaustHead(['\\', x], u, d, open, w, r, Escaped(x, Innermost(open, r)));
    }
  }

  /** Comments and white space alone. */
  ghost predicate OnlyCfws(s: string) {
    exists w: Cfws :: w.WellFormed() && s == w.Render()
  }

  /** Comments and white space, then a comment that never closes. */
  ghost predicate NeverCloses(s: string) {
    exists w: Cfws, u: Unclosed :: w.WellFormed() && u.WellFormed() && s == w.Render() + (['('] + u.Render())
  }

  lemma ExhaustedFlat(s: string, w: Cfws, r: Rest)
    requires Exhausts(s, 0, [], w, r)
    ensures !r.Inside? && w.WellFormed() && r.WellFormed() && s == w.Render() + r.Render()
  {
    assert "" + w.Render() == w.Render();
  }

  lemma FlatMeans(w: Cfws, r: Rest)
    requires !r.Inside? && w.WellFormed() && r.WellFormed()
    ensures OnlyCfws(w.Render() + r.Render()) || NeverCloses(w.Render() + r.Render())
  {
    if r.Nothing? {
      assert w.Render() + "" == w.Render();
    }
  }

  lemma EmptyMeans(s: string)
    requires Skip(s, 0) == ""
    ensures OnlyCfws(s) || NeverCloses(s)
  {
    var open, w, r := Exhaust(s, 0);
    assert open == [];
    ExhaustedFlat(s, w, r);
    FlatMeans(w, r);
  }

  lemma OnlyCfwsLeavesNothing(w: Cfws)
    requires w.WellFormed()
    ensures Skip(w.Render(), 0) == ""
  {
    SkipCfwsText(w, "");
    assert w.Render() + "" == w.Render();
  }

  lemma UnclosedLeavesNothing(w: Cfws, u: Unclosed)
    requires w.WellFormed() && u.WellFormed()
    ensures Skip(w.Render() + (['('] + u.Render()), 0) == ""
  {
    SkipUnclosed(u, 1);
    SkipOne('(', u.Render(), 0);
    SkipCfwsText(w, ['('] + u.Render());
  }

  /** Nothing is left exactly when the value is comments and white space alone, or those and a comment that never
      closes. */
  lemma SkipEmptyIff(s: string)
    ensures Skip(s, 0) == "" <==> OnlyCfws(s) || NeverCloses(s)
  {
    if Skip(s, 0) == "" {
      EmptyMeans(s);
    }
    if OnlyCfws(s) {
      var w: Cfws :| w.WellFormed() && s == w.Render();
      OnlyCfwsLeavesNothing(w);
    }
    if NeverCloses(s) {
      var w: Cfws, u: Unclosed :| w.WellFormed() && u.WellFormed() && s == w.Render() + (['('] + u.Render());
      UnclosedLeavesNothing(w, u);
    }
  }

  // ---------- The id itself ----------

  predicate AtEnd(rest: string) { rest == "" || EndsBareId(rest[0]) }

  predicate NoEnd(x: string) {
    forall i | 0 <= i < |x| :: !EndsBareId(x[i])
  }

  /** A bare id runs up to the first character that ends it. */
  lemma {:induction false} BareIdIff(s: string, x: string)
    ensures BareId(s) == x <==> x <= s && NoEnd(x) && AtEnd(s[|x|..])
    decreases |s|
  {
    if s != "" && !EndsBareId(s[0]) && x != "" {
      var c, t := Step(s);
      var y := x[1..];
      assert x == [x[0]] + y;
      BareIdIff(t, y);
      assert x <= s <==> x[0] == c && y <= t;
      if y <= t && x[0] == c {
        assert s[|x|..] == t[|y|..];
      }
      assert NoEnd(x) <==> !EndsBareId(x[0]) && NoEnd(y) by {
        assert forall i | 1 <= i < |x| :: x[i] == y[i - 1];
        assert forall i | 0 <= i < |y| :: y[i] == x[i + 1];
      }
    }
  }

  /** A character of a quoted string, written as it is or behind a backslash. */
  datatype QChar = QChar(c: char, escaped: bool)

  predicate QuotedWell(q: seq<QChar>) {
    forall x | x in q :: x.escaped || (x.c != '\"' && x.c != '\\')
  }

  function QText(q: seq<QChar>): string {
    if q == [] then "" else
    (if q[0].escaped then ['\\', q[0].c] else [q[0].c]) + QText(q[1..])
  }

  function QValue(q: seq<QChar>): (v: string)
    ensures |v| == |q|
  {
    if q == [] then "" else [q[0].c] + QValue(q[1..])
  }

  lemma QCons(x: QChar, q: seq<QChar>)
    ensures QText([x] + q) == (if x.escaped then ['\\', x.c] else [x.c]) + QText(q)
    ensures QValue([x] + q) == [x.c] + QValue(q)
  {
    assert ([x] + q)[1..] == q;
  }

  lemma UnquoteOne(c: char, s: string)
    ensures c != '\\' && c != '\"' ==> Unquote([c] + s) == Prepend(c, Unquote(s))
    ensures c == '\"' ==> Unquote([c] + s) == Some("")
    ensures Unquote(['\\', c] + s) == Prepend(c, Unquote(s))
  {
    ConsTail(c, s);
    var t := ['\\', c] + s;
    assert t[2..] == s;
  }

  lemma {:induction false} QuotedReads(q: seq<QChar>, rest: string)
    requires QuotedWell(q)
    ensures Unquote(QText(q) + ['\"'] + rest) == Some(QValue(q))
  {
    if q == [] {
      UnquoteOne('\"', rest);
      assert "" + ['\"'] + rest == ['\"'] + rest;
    } else {
      var x, tail := q[0], q[1..];
      assert x in q && forall y | y in tail :: y in q;
      QuotedReads(tail, rest);
      var more := QText(tail) + ['\"'] + rest;
      UnquoteOne(x.c, more);
      var head := if x.escaped then ['\\', x.c] else [x.c];
      HeadFirst(head, QText(tail), rest);
    }
  }

  lemma HeadFirst(head: string, text: string, rest: string)
    ensures head + text + ['\"'] + rest == head + (text + ['\"'] + rest)
  {
  }

  lemma {:induction false} QuotedWritten(s: string) returns (q: seq<QChar>, rest: string)
    requires Unquote(s).Some?
    ensures QuotedWell(q) && s == QText(q) + ['\"'] + rest && QValue(q) == Unquote(s).value
    decreases |s|
  {
    var c, t := Step(s);
    if c == '\"' {
      UnquoteOne(c, t);
      q, rest := [], t;
      assert "" + ['\"'] + t == s;
    } else if c == '\\' {
      var x, u := Step(t);
      assert s == ['\\', x] + u;
      UnquoteOne(x, u);
      q, rest := QuotedWritten(u);
      QCons(QChar(x, true), q);
      HeadFirst(['\\', x], QText(q), rest);
      q := [QChar(x, true)] + q;
    } else {
      UnquoteOne(c, t);
      q, rest := QuotedWritten(t);
      QCons(QChar(c, false), q);
      HeadFirst([c], QText(q), rest);
      q := [QChar(c, false)] + q;
    }
  }

  /** Comments and white space, then a bare id up to the end or to white space, a comment or a semicolon. */
  ghost predicate BareForm(value: string, x: string) {
    exists w: Cfws, rest: string ::
      && w.WellFormed() && value == w.Render() + (x + rest)
      && NoEnd(x) && AtEnd(rest) && x != "" && x[0] != '\"'
  }

  /** Comments and white space, then a quoted string with any characters escaped. */
  ghost predicate QuotedForm(value: string, x: string) {
    exists w: Cfws, q: seq<QChar>, rest: string ::
      && w.WellFormed() && value == w.Render() + (['\"'] + (QText(q) + ['\"'] + rest))
      && QuotedWell(q) && QValue(q) == x
  }

  lemma BareReads(w: Cfws, x: string, rest: string)
    requires w.WellFormed() && NoEnd(x) && AtEnd(rest) && x != "" && x[0] != '\"'
    ensures StrictId(w.Render() + (x + rest)) == x
  {
    var r := x + rest;
    assert r[0] == x[0];
    SkipIff(w.Render() + r, r);
    assert r[|x|..] == rest;
    BareIdIff(r, x);
  }

  lemma QuotedFormReads(w: Cfws, q: seq<QChar>, rest: string)
    requires w.WellFormed() && QuotedWell(q)
    ensures StrictId(w.Render() + (['\"'] + (QText(q) + ['\"'] + rest))) == QValue(q)
  {
    var r := ['\"'] + (QText(q) + ['\"'] + rest);
    ConsTail('\"', QText(q) + ['\"'] + rest);
    SkipIff(w.Render() + r, r);
    QuotedReads(q, rest);
  }

  /** The strict reading is exactly the grammar: a value reads as x when, and only when, it is comments and white space
      followed by x as a bare id or as a quoted string. */
  lemma StrictIff(value: string, x: string)
    requires x != ""
    ensures StrictId(value) == x <==> BareForm(value, x) || QuotedForm(value, x)
  {
    if StrictId(value) == x {
      StrictWritten(value);
    }
    forall w: Cfws, rest: string
      | w.WellFormed() && value == w.Render() + (x + rest) && NoEnd(x) && AtEnd(rest) && x[0] != '\"'
      ensures StrictId(value) == x
    {
      BareReads(w, x, rest);
    }
    forall w: Cfws, q: seq<QChar>, rest: string
      | w.WellFormed() && value == w.Render() + (['\"'] + (QText(q) + ['\"'] + rest)) && QuotedWell(q) && QValue(q) == x
      ensures StrictId(value) == x
    {
      QuotedFormReads(w, q, rest);
    }
  }

  lemma QuotedIsForm(w: Cfws, t: string)
    requires w.WellFormed() && Unquote(t).Some?
    ensures QuotedForm(w.Render() + (['\"'] + t), Unquote(t).value)
  {
    var q, rest := QuotedWritten(t);
    assert w.Render() + (['\"'] + t) == w.Render() + (['\"'] + (QText(q) + ['\"'] + rest));
  }

  lemma BareIsForm(w: Cfws, r: string)
    requires w.WellFormed() && BareId(r) != "" && r[0] != '\"'
    ensures BareForm(w.Render() + r, BareId(r))
  {
    var x := BareId(r);
    BareIdIff(r, x);
    assert r == x + r[|x|..] && x[0] == r[0];
    assert w.Render() + r == w.Render() + (x + r[|x|..]);
  }

  lemma StrictWritten(value: string)
    requires StrictId(value) != ""
    ensures BareForm(value, StrictId(value)) || QuotedForm(value, StrictId(value))
  {
    var r := Skip(value, 0);
    SkipIff(value, r);
    var w: Cfws :| w.WellFormed() && value == w.Render() + r;
    if r[0] == '\"' {
      var c, t := Step(r);
      assert r[1..] == t;
      QuotedIsForm(w, t);
    } else {
      BareIsForm(w, r);
    }
  }

  // ---------- Completeness of the claim ----------

  /** However our id is spelled in the strict grammar (any comments and folds before it, any letter case, one trailing
      dot or none, bare or quoted with any escapes), the field claims it. */
  lemma StrictFormsClaim(value: string, x: string, id: string)
    requires SameId(x, id) && (BareForm(value, x) || QuotedForm(value, x))
    ensures Claims(value, id)
  {
    assert x != "";
    StrictIff(value, x);
  }

  // ---------- The loose readings ----------

  predicate AllToken(tok: string) {
    forall i | 0 <= i < |tok| :: IsTokenByte(tok[i])
  }

  lemma {:induction false} TokenRunReads(tok: string, rest: string)
    requires AllToken(tok) && (rest == "" || !IsTokenByte(rest[0]))
    ensures TokenRun(tok + rest) == tok
    decreases |tok|
  {
    if tok == "" {
      assert "" + rest == rest;
    } else {
      var c, t := Step(tok);
      assert forall i | 0 <= i < |t| :: t[i] == tok[i + 1];
      TokenRunReads(t, rest);
      ConsTail(c, t + rest);
      assert tok + rest == [c] + (t + rest);
    }
  }

  lemma TokenNotSpecial(c: char)
    requires IsTokenByte(c)
    ensures !EndsBareId(c) && c != '\"' && c != ')' && c != '\\'
  {
  }

  lemma EndNotToken(c: char)
    requires EndsBareId(c)
    ensures !IsTokenByte(c)
  {
    assert '(' in TSPECIALS && ';' in TSPECIALS by {
      assert TSPECIALS[0] == '(' && TSPECIALS[6] == ';';
    }
  }

  /** A value that starts with a token, ended by white space, a comment, a semicolon or nothing, is read as that token
      by the strict reading and by every loose one. */
  lemma PlainValueAgrees(tok: string, rest: string)
    requires tok != "" && AllToken(tok) && AtEnd(rest)
    ensures StrictId(tok + rest) == tok
    ensures forall m :: Leading(tok + rest, m, 0) == tok
  {
    var value := tok + rest;
    assert value[0] == tok[0];
    forall i | 0 <= i < |tok| ensures !EndsBareId(tok[i]) {
      TokenNotSpecial(tok[i]);
    }
    TokenNotSpecial(tok[0]);
    assert Done.Render() + (tok + rest) == value;
    BareReads(Done, tok, rest);
    if rest != "" {
      EndNotToken(rest[0]);
    }
    TokenRunReads(tok, rest);
  }

  /** On plain values the claim is exactly "has an encoded-word, or that token is our id". */
  lemma PlainValueClaims(tok: string, rest: string, id: string)
    requires tok != "" && AllToken(tok) && AtEnd(rest)
    ensures Claims(tok + rest, id) <==> HasEncodedWord(tok + rest) || SameId(tok, id)
  {
    PlainValueAgrees(tok, rest);
    assert COMMENT_MODES[0] in COMMENT_MODES;
  }

  /** With comments left out of account altogether, a value is read as its first run of token bytes, wherever that
      stands: no punctuation, control character or other byte put before our id hides it. */
  lemma {:induction false} FirstRunReads(junk: string, tok: string, rest: string)
    requires forall i | 0 <= i < |junk| :: !IsTokenByte(junk[i])
    requires tok != "" && AllToken(tok) && (rest == "" || !IsTokenByte(rest[0]))
    ensures Leading(junk + (tok + rest), CommentMode(false, false, false), 0) == tok
    decreases |junk|
  {
    if junk == "" {
      assert "" + (tok + rest) == tok + rest;
      assert (tok + rest)[0] == tok[0];
      TokenRunReads(tok, rest);
    } else {
      var c, t := Step(junk);
      assert forall i | 0 <= i < |t| :: t[i] == junk[i + 1];
      FirstRunReads(t, tok, rest);
      Regroup([c], t, tok + rest);
      ConsTail(c, t + (tok + rest));
      assert c == junk[0];
    }
  }

  lemma FirstRunClaims(junk: string, tok: string, rest: string, id: string)
    requires forall i | 0 <= i < |junk| :: !IsTokenByte(junk[i])
    requires AllToken(tok) && (rest == "" || !IsTokenByte(rest[0])) && SameId(tok, id)
    ensures Claims(junk + (tok + rest), id)
  {
    FirstRunReads(junk, tok, rest);
    assert COMMENT_MODES[4] in COMMENT_MODES;
  }
}
