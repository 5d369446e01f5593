/** The grammar of tag lists: the splitter accepts exactly the renderings of well-formed segment lists, and it reads
    nothing but the tags in them. */
module TagGrammar {
  import opened Wrappers
  import opened Text
  import opened Tags

  /** A raw segment between semicolons, with every run of white space that carries no meaning made explicit. */
  datatype Segment =
    | Blank(ws: string)
    | Tag(w1: string, name: string, w2: string, w3: string, value: string, w4: string)
  {
    function Text(): string {
      match this
      case Blank(ws) => ws
      case Tag(w1, name, w2, w3, value, w4) => w1 + (name + w2) + ['='] + (w3 + value) + w4
    }

    predicate WellFormed() {
      match this
      case Blank(ws) => AllBlank(ws)
      case Tag(w1, name, w2, w3, value, w4) =>
        && AllBlank(w1) && AllBlank(w2) && AllBlank(w3) && AllBlank(w4)
        && CleanName(name) && CleanValue(value)
    }
  }

  predicate CleanName(k: string) {
    k != "" && Trimmed(k) && Octets(k) && ';' !in k && '=' !in k
  }

  predicate CleanValue(v: string) {
    Octets(v) && ';' !in v && ' ' !in v && '\t' !in v
  }

  predicate WellFormed(segs: seq<Segment>) {
    |segs| >= 1 && forall s | s in segs :: s.WellFormed()
  }

  function Texts(segs: seq<Segment>): (t: seq<string>)
    ensures |t| == |segs|
  {
    seq(|segs|, i requires 0 <= i < |segs| => segs[i].Text())
  }

  function Render(segs: seq<Segment>): string {
    Join(Texts(segs), ";")
  }

  /** The tags a segment list carries, in order. */
  function TagsIn(segs: seq<Segment>): seq<Pair> {
    if segs == [] then [] else
    var last := segs[|segs| - 1];
    TagsIn(segs[..|segs| - 1]) + (if last.Tag? then [(last.name, last.value)] else [])
  }

  predicate Distinct(tags: seq<Pair>) {
    forall i, j | 0 <= i < j < |tags| :: tags[i].0 != tags[j].0
  }

  /** The rule on a whole tag list: v first, no name twice. */
  predicate Admissible(tags: seq<Pair>) {
    (tags == [] || tags[0].0 == "v") && Distinct(tags)
  }

  // ---------- One segment ----------

  function AddTag(k: string, v: string, pairs: seq<Pair>): Result<seq<Pair>, RecordError> {
    if pairs == [] && k != "v" then Err(Syntax)
    else if k in Keys(pairs) then Err(DuplicateTag)
    else Ok(pairs + [(k, v)])
  }

  /** The verdict on a whole tag list, in which text plays no part. */
  function Admit(tags: seq<Pair>): Result<seq<Pair>, RecordError> {
    if tags == [] then Ok([]) else
    var n := |tags| - 1;
    var before := Admit(tags[..n]);
    if before.Err? then before else AddTag(tags[n].0, tags[n].1, before.value)
  }

  lemma BlankIsSpace(w: string)
    requires AllBlank(w)
    ensures AllSpace(w) && Octets(w) && ';' !in w && '=' !in w
  {
  }

  lemma CleanValueTrimmed(v: string)
    requires CleanValue(v)
    ensures Trimmed(v)
  {
    assert forall i | 0 <= i < |v| :: v[i] in v && !IsSpace(v[i]);
  }

  lemma AbsentInBoth(a: string, b: string, c: char)
    requires c !in a && c !in b
    ensures c !in a + b
  {
  }

  lemma SpaceConcat(a: string, b: string)
    requires AllSpace(a) && AllSpace(b)
    ensures AllSpace(a + b)
  {
  }

  lemma EmptyValueTrims(w1: string, left: string, w: string)
    requires AllSpace(w1) && AllSpace(w) && left != "" && !IsSpace(left[0]) && '=' !in left
    ensures Trim(w1 + (left + ['=']) + w) == left + ['=']
    ensures Cut(left + ['='], '=') == (left, "", true)
  {
    TrimPad(w1, left + ['='], w);
    CutAt(left, '=', "");
    assert left + ['='] + "" == left + ['='];
  }

  lemma ValueTrims(w1: string, left: string, right: string, w4: string)
    requires AllSpace(w1) && AllSpace(w4) && left != "" && !IsSpace(left[0]) && '=' !in left
    requires right != "" && !IsSpace(right[|right| - 1])
    ensures Trim(w1 + (left + ['='] + right) + w4) == left + ['='] + right
    ensures Cut(left + ['='] + right, '=') == (left, right, true)
  {
    var core := left + ['='] + right;
    assert core[0] == left[0] && core[|core| - 1] == right[|right| - 1];
    TrimPad(w1, core, w4);
    CutAt(left, '=', right);
  }

  lemma TrimSuffixPad(t: string, w: string)
    requires Trimmed(t) && AllSpace(w)
    ensures Trim(t + w) == t
  {
    TrimPad("", t, w);
    assert "" + t + w == t + w;
  }

  lemma TrimPrefixPad(w: string, t: string)
    requires Trimmed(t) && AllSpace(w)
    ensures Trim(w + t) == t
  {
    TrimPad(w, t, "");
    assert w + t + "" == w + t;
  }

  lemma RegroupTag(w1: string, left: string, w3: string, w4: string)
    ensures w1 + left + ['='] + (w3 + "") + w4 == w1 + (left + ['=']) + (w3 + w4)
  {
  }

  lemma RegroupFullTag(w1: string, left: string, right: string, w4: string)
    ensures w1 + left + ['='] + right + w4 == w1 + (left + ['='] + right) + w4
  {
  }

  /** The text of a tag, read back: the white space disappears and the first '=' separates. */
  lemma TagTextTrims(s: Segment)
    requires s.Tag? && s.WellFormed()
    ensures Trim(s.Text()) != ""
    ensures var (name, rest, found) := Cut(Trim(s.Text()), '=');
            found && Trim(name) == s.name && Trim(rest) == s.value
  {
    BlankIsSpace(s.w1); BlankIsSpace(s.w2); BlankIsSpace(s.w3); BlankIsSpace(s.w4);
    CleanValueTrimmed(s.value);
    AbsentInBoth(s.name, s.w2, '=');
    TrimSuffixPad(s.name, s.w2);
    if s.value == "" {
      SpaceConcat(s.w3, s.w4);
      EmptyValueTrims(s.w1, s.name + s.w2, s.w3 + s.w4);
      RegroupTag(s.w1, s.name + s.w2, s.w3, s.w4);
    } else {
      ValueTrims(s.w1, s.name + s.w2, s.w3 + s.value, s.w4);
      RegroupFullTag(s.w1, s.name + s.w2, s.w3 + s.value, s.w4);
      TrimPrefixPad(s.w3, s.value);
    }
  }

  lemma ScanSegment(s: Segment, pairs: seq<Pair>)
    requires s.WellFormed()
    ensures s.Blank? ==> ScanPart(s.Text(), pairs) == Ok(pairs)
    ensures s.Tag? ==> ScanPart(s.Text(), pairs) == AddTag(s.name, s.value, pairs)
  {
    if s.Blank? {
      BlankIsSpace(s.ws);
      TrimPad(s.ws, "", "");
      assert s.ws + "" + "" == s.ws;
    } else {
      TagTextTrims(s);
    }
  }

  lemma SegmentText(s: Segment)
    requires s.WellFormed()
    ensures Octets(s.Text()) && ';' !in s.Text()
  {
    if s.Blank? {
      BlankIsSpace(s.ws);
    } else {
      BlankIsSpace(s.w1); BlankIsSpace(s.w2); BlankIsSpace(s.w3); BlankIsSpace(s.w4);
      var a, b := s.name + s.w2, s.w3 + s.value;
      assert Octets(a) && ';' !in a;
      assert Octets(b) && ';' !in b;
      assert Octets(s.w1 + a) && ';' !in s.w1 + a;
      assert Octets(s.w1 + a + ['=']) && ';' !in s.w1 + a + ['='];
      assert Octets(s.w1 + a + ['='] + b) && ';' !in s.w1 + a + ['='] + b;
    }
  }

  // ---------- Whole texts ----------

  lemma ScanSnoc(parts: seq<string>, part: string)
    ensures Scan(parts).Err? ==> Scan(parts + [part]) == Scan(parts)
    ensures Scan(parts).Ok? ==> Scan(parts + [part]) == ScanPart(part, Scan(parts).value)
  {
    var longer := parts + [part];
    assert longer[..|longer| - 1] == parts;
  }

  lemma AdmitSnoc(tags: seq<Pair>, k: string, v: string)
    ensures Admit(tags).Err? ==> Admit(tags + [(k, v)]) == Admit(tags)
    ensures Admit(tags).Ok? ==> Admit(tags + [(k, v)]) == AddTag(k, v, Admit(tags).value)
  {
    var longer := tags + [(k, v)];
    assert longer[..|longer| - 1] == tags;
  }

  lemma {:induction false} ScanIsAdmit(segs: seq<Segment>)
    requires forall s | s in segs :: s.WellFormed()
    ensures Scan(Texts(segs)) == Admit(TagsIn(segs))
  {
    if segs != [] {
      var n := |segs| - 1;
      var last, before := segs[n], segs[..n];
      ScanIsAdmit(before);
      assert Texts(segs) == Texts(before) + [last.Text()];
      ScanSnoc(Texts(before), last.Text());
      assert last in segs;
      if Admit(TagsIn(before)).Ok? {
        ScanSegment(last, Admit(TagsIn(before)).value);
      }
      if last.Tag? {
        AdmitSnoc(TagsIn(before), last.name, last.value);
      } else {
        assert TagsIn(segs) == TagsIn(before);
      }
    }
  }

  lemma {:induction false} AdmitIffAdmissible(tags: seq<Pair>)
    ensures Admit(tags).Ok? <==> Admissible(tags)
    ensures Admit(tags).Ok? ==> Admit(tags).value == tags
  {
    if tags != [] {
      var n := |tags| - 1;
      AdmitIffAdmissible(tags[..n]);
      assert tags == tags[..n] + [(tags[n].0, tags[n].1)];
      AdmissibleSnoc(tags[..n], tags[n].0, tags[n].1);
    }
  }

  lemma AdmissibleSnoc(tags: seq<Pair>, k: string, v: string)
    ensures Admissible(tags + [(k, v)]) <==> Admissible(tags) && (tags == [] ==> k == "v") && k !in Keys(tags)
  {
    var longer := tags + [(k, v)];
    assert longer[|tags|] == (k, v);
    assert forall i | 0 <= i < |tags| :: longer[i] == tags[i];
    assert k in Keys(tags) <==> exists i :: 0 <= i < |tags| && tags[i].0 == k;
  }

  /** The octets of a joined text are those of its parts. */
  lemma {:induction false} JoinOctets(parts: seq<string>)
    requires forall p | p in parts :: Octets(p)
    ensures Octets(Join(parts, ";"))
  {
    if |parts| > 1 {
      JoinOctets(parts[1..]);
      var head, tail := parts[0], Join(parts[1..], ";");
      assert head in parts;
      assert Octets(head + ";");
    } else if |parts| == 1 {
      assert parts[0] in parts;
    }
  }

  lemma {:induction false} SplitOctets(s: string)
    requires Octets(s)
    ensures forall p | p in Split(s, ';') :: Octets(p)
    decreases |s|
  {
    if ';' in s {
      var a, b := AtFirst(s, ';');
      SplitCons(a, ';', b);
      assert forall i | 0 <= i < |a| :: a[i] == s[i];
      assert forall i | 0 <= i < |b| :: b[i] == s[|a| + 1 + i];
      SplitOctets(b);
    } else {
      SplitNone(s, ';');
    }
  }

  /** Every rendering of well-formed segments gets the verdict of its tag list alone: the same tags laid out with
      other white space and other empty segments are accepted, refused and read alike. */
  lemma RenderingReads(segs: seq<Segment>)
    requires WellFormed(segs)
    ensures TagsOf(Render(segs)) == Admit(TagsIn(segs))
    ensures TagsOf(Render(segs)).Ok? <==> Admissible(TagsIn(segs))
    ensures TagsOf(Render(segs)).Ok? ==> TagsOf(Render(segs)).value == TagsIn(segs)
  {
    forall p | p in Texts(segs) ensures Octets(p) && ';' !in p {
      var i :| 0 <= i < |segs| && Texts(segs)[i] == p;
      assert segs[i] in segs;
      SegmentText(segs[i]);
    }
    SplitJoin(Texts(segs), ';');
    JoinOctets(Texts(segs));
    ScanIsAdmit(segs);
    AdmitIffAdmissible(TagsIn(segs));
  }

  // ---------- Every accepted text is such a rendering ----------

  lemma OctetSpaceIsBlank(w: string)
    requires AllSpace(w) && Octets(w)
    ensures AllBlank(w)
  {
  }

  lemma PiecesClean(a: string, b: string, c: string)
    requires Octets(a + b + c) && ';' !in a + b + c
    ensures Octets(a) && Octets(b) && Octets(c) && ';' !in a && ';' !in b && ';' !in c
  {
    var s := a + b + c;
    assert forall i | 0 <= i < |a| :: a[i] == s[i];
    assert forall i | 0 <= i < |b| :: b[i] == s[|a| + i];
    assert forall i | 0 <= i < |c| :: c[i] == s[|a| + |b| + i];
  }

  /** Trimming a clean text takes off blanks and leaves a clean text. */
  lemma TrimClean(s: string) returns (left: string, right: string)
    requires Octets(s) && ';' !in s
    ensures AllBlank(left) && AllBlank(right) && s == left + Trim(s) + right
    ensures Octets(Trim(s)) && ';' !in Trim(s) && Trimmed(Trim(s))
  {
    left, right := TrimSplits(s);
    PiecesClean(left, Trim(s), right);
    OctetSpaceIsBlank(left);
    OctetSpaceIsBlank(right);
  }

  lemma RegroupPart(w1: string, u: string, n: string, w2: string, w3: string, v: string, x: string, w4: string)
    ensures w1 + ((u + n + w2) + ['='] + (w3 + v + x)) + w4
         == (w1 + u) + (n + w2) + ['='] + (w3 + v) + (x + w4)
  {
  }

  lemma BlankConcat(a: string, b: string)
    requires AllBlank(a) && AllBlank(b)
    ensures AllBlank(a + b)
  {
  }

  /** A non-blank segment that is read as a tag is the text of one. */
  lemma TagFromText(part: string, name: string, rest: string) returns (s: Segment)
    requires Octets(part) && ';' !in part && Cut(Trim(part), '=') == (name, rest, true)
    requires Trim(name) != "" && ' ' !in Trim(rest) && '\t' !in Trim(rest)
    ensures s.Tag? && s.WellFormed() && s.Text() == part
  {
    var w1, w4 := TrimClean(part);
    CutSplits(Trim(part), '=');
    PiecesClean(name, ['='], rest);
    var u, w2 := TrimClean(name);
    var w3, x := TrimClean(rest);
    BlankConcat(w1, u);
    BlankConcat(x, w4);
    s := Tag(w1 + u, Trim(name), w2, w3, Trim(rest), x + w4);
    RegroupPart(w1, u, Trim(name), w2, w3, Trim(rest), x, w4);
  }

  lemma PartFromText(part: string, pairs: seq<Pair>) returns (s: Segment)
    requires Octets(part) && ';' !in part && ScanPart(part, pairs).Ok?
    ensures s.WellFormed() && s.Text() == part
  {
    if Trim(part) == "" {
      var left, right := TrimSplits(part);
      assert part == left + right;
      SpaceConcat(left, right);
      OctetSpaceIsBlank(part);
      s := Blank(part);
    } else {
      var (name, rest, found) := Cut(Trim(part), '=');
      s := TagFromText(part, name, rest);
    }
  }

  lemma TextsSnoc(segs: seq<Segment>, s: Segment)
    ensures Texts(segs + [s]) == Texts(segs) + [s.Text()]
  {
  }

  lemma {:induction false} SegmentsFromParts(parts: seq<string>) returns (segs: seq<Segment>)
    requires Scan(parts).Ok? && forall p | p in parts :: Octets(p) && ';' !in p
    ensures Texts(segs) == parts && forall s | s in segs :: s.WellFormed()
    decreases |parts|
  {
    if parts == [] {
      segs := [];
    } else {
      var init, last := Unsnoc(parts);
      assert last in parts && forall p | p in init :: p in parts;
      ScanSnoc(init, last);
      var before := SegmentsFromParts(init);
      var s := PartFromText(last, Scan(init).value);
      segs := before + [s];
      TextsSnoc(before, s);
    }
  }

  /** The converse: an accepted text renders some well-formed segment list, with the tags that were read. */
  lemma AcceptedIsRendering(txt: string) returns (segs: seq<Segment>)
    requires TagsOf(txt).Ok?
    ensures WellFormed(segs) && Render(segs) == txt
    ensures TagsOf(txt) == Ok(TagsIn(segs)) && Admissible(TagsIn(segs))
  {
    SplitOctets(txt);
    PartsLackSeparator(txt, ';');
    segs := SegmentsFromParts(Split(txt, ';'));
    JoinSplit(txt, ';');
    RenderingReads(segs);
  }

  // ---------- Normal form ----------

  /** The shortest layout of a tag list: name=value joined by semicolons. */
  function Canonical(tags: seq<Pair>): string {
    Join(seq(|tags|, i requires 0 <= i < |tags| => tags[i].0 + "=" + tags[i].1), ";")
  }

  function Bare(tags: seq<Pair>): (segs: seq<Segment>)
    ensures |segs| == |tags|
  {
    seq(|tags|, i requires 0 <= i < |tags| => Tag("", tags[i].0, "", "", tags[i].1, ""))
  }

  predicate CleanTags(tags: seq<Pair>) {
    forall kv | kv in tags :: CleanName(kv.0) && CleanValue(kv.1)
  }

  lemma {:induction false} TagsInBare(tags: seq<Pair>)
    ensures TagsIn(Bare(tags)) == tags
  {
    if tags != [] {
      var n := |tags| - 1;
      TagsInBare(tags[..n]);
      assert Bare(tags)[..n] == Bare(tags[..n]);
      assert tags == tags[..n] + [(tags[n].0, tags[n].1)];
    }
  }

  lemma {:induction false} TagsInClean(segs: seq<Segment>)
    requires forall s | s in segs :: s.WellFormed()
    ensures CleanTags(TagsIn(segs))
  {
    if segs != [] {
      TagsInClean(segs[..|segs| - 1]);
      assert segs[|segs| - 1] in segs;
    }
  }

  lemma CanonicalReads(tags: seq<Pair>)
    requires CleanTags(tags)
    ensures TagsOf(Canonical(tags)) == Admit(tags)
  {
    if tags == [] {
      RenderingReads([Blank("")]);
      assert TagsIn([Blank("")]) == [];
    } else {
      var segs := Bare(tags);
      forall s | s in segs ensures s.WellFormed() {
        var i :| 0 <= i < |segs| && segs[i] == s;
        assert tags[i] in tags;
      }
      forall i | 0 <= i < |tags| ensures segs[i].Text() == tags[i].0 + "=" + tags[i].1 {
        BareText(tags[i].0, tags[i].1);
      }
      assert Texts(segs) == seq(|tags|, i requires 0 <= i < |tags| => tags[i].0 + "=" + tags[i].1);
      RenderingReads(segs);
      TagsInBare(tags);
    }
  }

  lemma BareText(k: string, v: string)
    ensures Tag("", k, "", "", v, "").Text() == k + "=" + v
  {
    assert "" + (k + "") == k && ("" + v) + "" == v;
  }

  /** Whatever the splitter accepts, re-rendering its tags canonically reads back as the same tags, and the first of
      them is v. */
  lemma NormalForm(txt: string)
    requires TagsOf(txt).Ok?
    ensures TagsOf(Canonical(TagsOf(txt).value)) == TagsOf(txt)
    ensures TagsOf(txt).value != [] ==> TagsOf(txt).value[0].0 == "v"
    ensures Distinct(TagsOf(txt).value)
  {
    var segs := AcceptedIsRendering(txt);
    TagsInClean(segs);
    CanonicalReads(TagsIn(segs));
    AdmitIffAdmissible(TagsIn(segs));
  }

  // ---------- Insertions into any text, well-formed or not ----------

  /** The segments that count, trimmed. */
  function Core(parts: seq<string>): seq<string> {
    if parts == [] then [] else
    var last := Trim(parts[|parts| - 1]);
    Core(parts[..|parts| - 1]) + (if last == "" then [] else [last])
  }

  lemma ScanPartTrim(part: string, pairs: seq<Pair>)
    ensures ScanPart(Trim(part), pairs) == ScanPart(part, pairs)
  {
    var _, _ := TrimSplits(part);
    TrimSuffixPad(Trim(part), "");
    assert Trim(part) + "" == Trim(part);
  }

  lemma CoreSnoc(parts: seq<string>, part: string)
    ensures Core(parts + [part]) == if Trim(part) == "" then Core(parts) else Core(parts) + [Trim(part)]
  {
    var longer := parts + [part];
    assert longer[..|longer| - 1] == parts;
  }

  lemma ScanCoreSnoc(parts: seq<string>, part: string)
    requires Scan(Core(parts)) == Scan(parts)
    ensures Scan(Core(parts + [part])) == Scan(parts + [part])
  {
    CoreSnoc(parts, part);
    ScanSnoc(parts, part);
    if Trim(part) != "" {
      ScanSnoc(Core(parts), Trim(part));
      if Scan(parts).Ok? {
        ScanPartTrim(part, Scan(parts).value);
      }
    }
  }

  lemma {:induction false} ScanCore(parts: seq<string>)
    ensures Scan(Core(parts)) == Scan(parts)
    decreases |parts|
  {
    if parts != [] {
      var init, last := Unsnoc(parts);
      ScanCore(init);
      ScanCoreSnoc(init, last);
    }
  }

  lemma {:induction false} CoreConcat(a: seq<string>, b: seq<string>)
    ensures Core(a + b) == Core(a) + Core(b)
    decreases |b|
  {
    if b == [] {
      assert a + b == a && Core(a) + [] == Core(a);
    } else {
      var init, last := Unsnoc(b);
      CoreConcat(a, init);
      CoreSnoc(init, last);
      CoreSnoc(a + init, last);
      Regroup(a, init, [last]);
      Regroup(Core(a), Core(init), [Trim(last)]);
    }
  }

  lemma OctetsConcat(a: string, b: string)
    ensures Octets(a + b) <==> Octets(a) && Octets(b)
  {
    assert forall i | 0 <= i < |b| :: (a + b)[|a| + i] == b[i];
    assert forall i | 0 <= i < |a| :: (a + b)[i] == a[i];
  }

  /** Every segment passes the octet rule. */
  predicate AllOctets(parts: seq<string>) {
    forall p | p in parts :: Octets(p)
  }

  /** A list that splitting gives: at least one segment, none with a semicolon. */
  predicate Segments(parts: seq<string>) {
    parts != [] && forall p | p in parts :: ';' !in p
  }

  /** A joined text is judged by the core of its segments and by whether all their octets are admitted. */
  lemma JoinedReads(parts: seq<string>)
    requires Segments(parts)
    ensures TagsOf(Join(parts, ";")) == if AllOctets(parts) then Scan(Core(parts)) else Err(Syntax)
  {
    SplitJoin(parts, ';');
    ScanCore(parts);
    if AllOctets(parts) {
      JoinOctets(parts);
    } else if Octets(Join(parts, ";")) {
      SplitOctets(Join(parts, ";"));
    }
  }

  lemma BlankTrims(w: string)
    requires AllBlank(w)
    ensures Trim(w) == "" && Octets(w) && ';' !in w
  {
    BlankIsSpace(w);
    TrimSuffixPad("", w);
    assert "" + w == w;
  }

  lemma TrimTwice(w1: string, p: string, w2: string)
    requires AllSpace(w1) && AllSpace(w2)
    ensures Trim(w1 + p + w2) == Trim(p)
  {
    var l, r := TrimSplits(p);
    SpaceConcat(w1, l);
    SpaceConcat(r, w2);
    assert w1 + (l + Trim(p) + r) + w2 == (w1 + l) + Trim(p) + (r + w2);
    TrimPad(w1 + l, Trim(p), r + w2);
  }

  lemma Padded(w1: string, p: string, w2: string)
    requires AllBlank(w1) && AllBlank(w2) && ';' !in p
    ensures Trim(w1 + p + w2) == Trim(p) && ';' !in w1 + p + w2
    ensures Octets(w1 + p + w2) <==> Octets(p)
  {
    BlankIsSpace(w1);
    BlankIsSpace(w2);
    TrimTwice(w1, p, w2);
    OctetsConcat(w1 + p, w2);
    OctetsConcat(w1, p);
    AbsentInBoth(w1, p, ';');
    AbsentInBoth(w1 + p, w2, ';');
  }

  lemma InMiddle<T>(a: seq<T>, x: T, b: seq<T>)
    ensures forall y :: y in a + [x] + b <==> y == x || y in a + b
  {
    assert (a + [x] + b)[|a|] == x;
  }

  lemma CoreMiddle(a: seq<string>, p: string, b: seq<string>)
    ensures Core(a + [p] + b) == Core(a) + (if Trim(p) == "" then [] else [Trim(p)]) + Core(b)
    ensures Core(a + b) == Core(a) + Core(b)
  {
    CoreConcat(a + [p], b);
    CoreSnoc(a, p);
    CoreConcat(a, b);
  }

  /** Two segments that trim alike and pass the octet rule alike can stand for one another anywhere. */
  lemma SegmentReplaced(a: seq<string>, p: string, q: string, b: seq<string>)
    requires Segments(a + [p] + b) && ';' !in q && Trim(q) == Trim(p) && (Octets(q) <==> Octets(p))
    ensures TagsOf(Join(a + [q] + b, ";")) == TagsOf(Join(a + [p] + b, ";"))
  {
    InMiddle(a, p, b);
    InMiddle(a, q, b);
    CoreMiddle(a, p, b);
    CoreMiddle(a, q, b);
    JoinedReads(a + [p] + b);
    JoinedReads(a + [q] + b);
  }

  lemma SegmentInserted(a: seq<string>, w: string, b: seq<string>)
    requires Segments(a + b) && AllBlank(w)
    ensures TagsOf(Join(a + [w] + b, ";")) == TagsOf(Join(a + b, ";"))
  {
    BlankTrims(w);
    InMiddle(a, w, b);
    CoreMiddle(a, w, b);
    assert Core(a) + [] == Core(a);
    JoinedReads(a + [w] + b);
    JoinedReads(a + b);
  }

  /** A segment of nothing but blanks can be inserted at any place of any text, before the first segment and after the
      last included, and changes neither the tags nor the error. */
  lemma EmptySegmentIgnored(txt: string, i: nat, w: string)
    requires i <= |Split(txt, ';')| && AllBlank(w)
    ensures var parts := Split(txt, ';'); TagsOf(Join(parts[..i] + [w] + parts[i..], ";")) == TagsOf(txt)
  {
    var parts := Split(txt, ';');
    assert parts == parts[..i] + parts[i..];
    PartsLackSeparator(txt, ';');
    JoinSplit(txt, ';');
    SegmentInserted(parts[..i], w, parts[i..]);
  }

  /** Blanks around any segment of any text, the first, the last and the only one included, change neither the tags nor
      the error. */
  lemma SegmentPaddingIgnored(txt: string, i: nat, w1: string, w2: string)
    requires i < |Split(txt, ';')| && AllBlank(w1) && AllBlank(w2)
    ensures var parts := Split(txt, ';'); TagsOf(Join(parts[i := w1 + parts[i] + w2], ";")) == TagsOf(txt)
  {
    var parts := Split(txt, ';');
    var a, p, b := parts[..i], parts[i], parts[i + 1..];
    assert parts == a + [p] + b;
    assert parts[i := w1 + p + w2] == a + [w1 + p + w2] + b;
    PartsLackSeparator(txt, ';');
    JoinSplit(txt, ';');
    Padded(w1, p, w2);
    SegmentReplaced(a, p, w1 + p + w2, b);
  }
}
