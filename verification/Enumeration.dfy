/** The enumeration cap: once a p value holds 64 elements, what follows them decides nothing, whatever the record. */
module Enumeration {
  import opened Wrappers
  import Netip
  import opened Text
  import opened Tags
  import opened TagGrammar
  import opened Record
  import opened RecordMeaning

  // ---------- One p value ----------

  /** The loop has taken every non-empty element, or has reached the cap. */
  lemma {:induction false} TakeCount(codec: PrefixText, parts: seq<string>, have: seq<Netip.Prefix>)
    ensures var r := TakePrefixes(codec, parts, have);
            r.Ok? ==> |r.value| >= |NonEmpty(parts)| || |r.value| >= 64
    decreases |parts|
  {
    if parts != [] {
      var init, last := Unsnoc(parts);
      TakeCount(codec, init, have);
      TakeOne(codec, init, last, have);
      NonEmptySnoc(init, last);
    }
  }

  lemma TakeOne(codec: PrefixText, parts: seq<string>, part: string, have: seq<Netip.Prefix>)
    ensures var before := TakePrefixes(codec, parts, have);
            TakePrefixes(codec, parts + [part], have)
              == if before.Err? then before else TakePrefix(codec, part, before.value)
  {
    var longer := parts + [part];
    assert longer[..|longer| - 1] == parts;
  }

  lemma TakeCapped(codec: PrefixText, head: string, tail: string, have: seq<Netip.Prefix>)
    requires |NonEmpty(Split(head, ','))| >= 64
    ensures TakePrefixes(codec, Split(head + [','] + tail, ','), have) == TakePrefixes(codec, Split(head, ','), have)
  {
    var parts := Split(head, ',');
    SplitConcat(head, ',', tail);
    TakeCount(codec, parts, have);
    assert (parts + Split(tail, ','))[..|parts|] == parts;
    TakeStops(codec, parts + Split(tail, ','), have, |parts|);
  }

  // ---------- Tags that do the same ----------

  /** Two tags of one name that change every record alike. */
  ghost predicate SameEffect(codec: PrefixText, kv: Pair, kw: Pair) {
    kv.0 == kw.0 && forall rec :: ApplyTag(codec, rec, kv) == ApplyTag(codec, rec, kw)
  }

  ghost predicate SameEffects(codec: PrefixText, tags: seq<Pair>, others: seq<Pair>) {
    |tags| == |others| && forall i | 0 <= i < |tags| :: SameEffect(codec, tags[i], others[i])
  }

  lemma {:induction false} SameRecord(codec: PrefixText, tags: seq<Pair>, others: seq<Pair>)
    requires SameEffects(codec, tags, others)
    ensures ApplyTags(codec, tags) == ApplyTags(codec, others)
    decreases |tags|
  {
    if tags != [] {
      var n := |tags| - 1;
      SameRecord(codec, tags[..n], others[..n]);
      assert SameEffect(codec, tags[n], others[n]);
    }
  }

  lemma CappedEffect(codec: PrefixText, head: string, tail: string)
    requires |NonEmpty(Split(head, ','))| >= 64
    ensures SameEffect(codec, ("p", head), ("p", head + [','] + tail))
  {
    forall rec ensures ApplyTag(codec, rec, ("p", head)) == ApplyTag(codec, rec, ("p", head + [','] + tail)) {
      TakeCapped(codec, head, tail, rec.prefixes);
    }
  }

  // ---------- Scanning ----------

  /** Both scans fail alike, or they collect tags that do the same. */
  ghost predicate Alike(codec: PrefixText, r: Result<seq<Pair>, RecordError>, q: Result<seq<Pair>, RecordError>) {
    match r
    case Err(e) => q == Err(e)
    case Ok(tags) => q.Ok? && SameEffects(codec, tags, q.value)
  }

  lemma SameKeys(codec: PrefixText, tags: seq<Pair>, others: seq<Pair>)
    requires SameEffects(codec, tags, others)
    ensures Keys(tags) == Keys(others)
  {
    forall k ensures k in Keys(tags) <==> k in Keys(others) {
      if k in Keys(tags) {
        var i :| 0 <= i < |tags| && tags[i].0 == k;
        assert SameEffect(codec, tags[i], others[i]) && others[i] in others;
      }
      if k in Keys(others) {
        var i :| 0 <= i < |others| && others[i].0 == k;
        assert SameEffect(codec, tags[i], others[i]) && tags[i] in tags;
      }
    }
  }

  lemma AddAlike(codec: PrefixText, kv: Pair, kw: Pair, tags: seq<Pair>, others: seq<Pair>)
    requires SameEffect(codec, kv, kw) && SameEffects(codec, tags, others)
    ensures Alike(codec, AddTag(kv.0, kv.1, tags), AddTag(kw.0, kw.1, others))
  {
    SameKeys(codec, tags, others);
  }

  /** One segment, read after tags that do the same. */
  lemma PartAlike(codec: PrefixText, part: string, tags: seq<Pair>, others: seq<Pair>)
    requires SameEffects(codec, tags, others)
    ensures Alike(codec, ScanPart(part, tags), ScanPart(part, others))
  {
    SameKeys(codec, tags, others);
    if ScanPart(part, tags).Ok? && Trim(part) != "" {
      var (name, rest, _) := Cut(Trim(part), '=');
      AddAlike(codec, (Trim(name), Trim(rest)), (Trim(name), Trim(rest)), tags, others);
    }
  }

  lemma {:induction false} RestAlike(codec: PrefixText, a: seq<string>, b: seq<string>, more: seq<string>)
    requires Alike(codec, Scan(a), Scan(b))
    ensures Alike(codec, Scan(a + more), Scan(b + more))
    decreases |more|
  {
    if more == [] {
      assert a + more == a && b + more == b;
    } else {
      var init, last := Unsnoc(more);
      RestAlike(codec, a, b, init);
      Regroup(a, init, [last]);
      Regroup(b, init, [last]);
      ScanSnoc(a + init, last);
      ScanSnoc(b + init, last);
      if Scan(a + init).Ok? {
        PartAlike(codec, last, Scan(a + init).value, Scan(b + init).value);
      }
    }
  }

  lemma SameEffectRefl(codec: PrefixText, tags: seq<Pair>)
    ensures SameEffects(codec, tags, tags)
  {
  }

  lemma OneAlike(codec: PrefixText, a: seq<string>, s: Segment, t: Segment)
    requires s.Tag? && t.Tag? && s.WellFormed() && t.WellFormed()
    requires SameEffect(codec, (s.name, s.value), (t.name, t.value))
    ensures Alike(codec, Scan(a + [s.Text()]), Scan(a + [t.Text()]))
  {
    ScanSnoc(a, s.Text());
    ScanSnoc(a, t.Text());
    if Scan(a).Ok? {
      var tags := Scan(a).value;
      SameEffectRefl(codec, tags);
      ScanSegment(s, tags);
      ScanSegment(t, tags);
      AddAlike(codec, (s.name, s.value), (t.name, t.value), tags, tags);
    }
  }

  lemma AlikeJoined(codec: PrefixText, x: seq<string>, y: seq<string>)
    requires Segments(x) && Segments(y) && AllOctets(x) == AllOctets(y) && Alike(codec, Scan(x), Scan(y))
    ensures Alike(codec, TagsOf(Join(x, ";")), TagsOf(Join(y, ";")))
  {
    JoinedReads(x);
    JoinedReads(y);
    ScanCore(x);
    ScanCore(y);
  }

  lemma AlikeParse(codec: PrefixText, x: string, y: string)
    requires Alike(codec, TagsOf(x), TagsOf(y))
    ensures ParsePolicy(codec, x) == ParsePolicy(codec, y)
  {
    if TagsOf(x).Ok? {
      SameRecord(codec, TagsOf(x).value, TagsOf(y).value);
    }
  }

  /** Replacing one segment by another leaves the rest of the list as it is. */
  lemma StillSegments(a: seq<string>, p: string, q: string, b: seq<string>)
    requires Segments(a + [p] + b) && ';' !in q && Octets(p) && Octets(q)
    ensures Segments(a + [q] + b) && AllOctets(a + [q] + b) == AllOctets(a + [p] + b)
  {
    InMiddle(a, p, b);
    InMiddle(a, q, b);
  }

  /** Two well-formed tags that do the same can stand for one another in any text. */
  lemma TagReplaced(codec: PrefixText, a: seq<string>, s: Segment, t: Segment, b: seq<string>)
    requires Segments(a + [s.Text()] + b)
    requires s.Tag? && t.Tag? && s.WellFormed() && t.WellFormed()
    requires SameEffect(codec, (s.name, s.value), (t.name, t.value))
    ensures ParsePolicy(codec, Join(a + [s.Text()] + b, ";")) == ParsePolicy(codec, Join(a + [t.Text()] + b, ";"))
  {
    SegmentText(s);
    SegmentText(t);
    StillSegments(a, s.Text(), t.Text(), b);
    OneAlike(codec, a, s, t);
    RestAlike(codec, a + [s.Text()], a + [t.Text()], b);
    AlikeJoined(codec, a + [s.Text()] + b, a + [t.Text()] + b);
    AlikeParse(codec, Join(a + [s.Text()] + b, ";"), Join(a + [t.Text()] + b, ";"));
  }

  /** In any text, once the p tag written in some segment holds 64 non-empty elements, any continuation of its value
      that the tag syntax admits gives the same record or the same error. */
  lemma EnumerationCap(codec: PrefixText, txt: string, i: nat, s: Segment, tail: string)
    requires i < |Split(txt, ';')| && Split(txt, ';')[i] == s.Text()
    requires s.Tag? && s.WellFormed() && s.name == "p" && |NonEmpty(Split(s.value, ','))| >= 64
    requires CleanValue(s.value + [','] + tail)
    ensures var longer := s.(value := s.value + [','] + tail);
            ParsePolicy(codec, Join(Split(txt, ';')[i := longer.Text()], ";")) == ParsePolicy(codec, txt)
  {
    var parts := Split(txt, ';');
    var longer := s.(value := s.value + [','] + tail);
    var a, b := parts[..i], parts[i + 1..];
    assert parts == a + [s.Text()] + b;
    assert parts[i := longer.Text()] == a + [longer.Text()] + b;
    PartsLackSeparator(txt, ';');
    JoinSplit(txt, ';');
    CappedEffect(codec, s.value, tail);
    TagReplaced(codec, a, s, longer, b);
  }
}
