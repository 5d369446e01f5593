/** Tag lists, pointer and key records in characters, and what each refusal of a record means. */
module RecordRefusals {
  import opened Wrappers
  import opened Text
  import opened NamesMeaning
  import opened Tags
  import opened TagGrammar
  import opened Record
  import opened RecordMeaning

  // ---------- Tag lists ----------

  predicate Blanks(s: string) {
    forall i | 0 <= i < |s| :: s[i] == ' ' || s[i] == '\t'
  }

  /** Characters from space to tilde, and tabs, but no semicolon and no equals sign, with a visible character at both
      ends. */
  predicate NameText(k: string) {
    && k != ""
    && (forall i | 0 <= i < |k| :: (k[i] == '\t' || ' ' <= k[i] <= '~') && k[i] != ';' && k[i] != '=')
    && k[0] != ' ' && k[0] != '\t' && k[|k| - 1] != ' ' && k[|k| - 1] != '\t'
  }

  /** Visible characters other than a semicolon, or none. */
  predicate ValueText(v: string) {
    forall i | 0 <= i < |v| :: '!' <= v[i] <= '~' && v[i] != ';'
  }

  predicate SegmentLaid(seg: Segment) {
    match seg
    case Blank(ws) => Blanks(ws)
    case Tag(w1, name, w2, w3, value, w4) =>
      Blanks(w1) && Blanks(w2) && Blanks(w3) && Blanks(w4) && NameText(name) && ValueText(value)
  }

  predicate Laid(segs: seq<Segment>) {
    |segs| >= 1 && forall i | 0 <= i < |segs| :: SegmentLaid(segs[i])
  }

  lemma NameIff(k: string)
    ensures CleanName(k) <==> NameText(k)
  {
    assert forall i | 0 <= i < |k| :: k[i] in k;
  }

  lemma ValueTextIff(v: string)
    ensures CleanValue(v) <==> ValueText(v)
  {
    assert forall i | 0 <= i < |v| :: v[i] in v;
  }

  lemma SegmentIff(seg: Segment)
    ensures seg.WellFormed() <==> SegmentLaid(seg)
  {
    if seg.Tag? {
      NameIff(seg.name);
      ValueTextIff(seg.value);
    }
  }

  lemma LaidIff(segs: seq<Segment>)
    ensures WellFormed(segs) <==> Laid(segs)
  {
    forall i | 0 <= i < |segs| ensures segs[i].WellFormed() <==> SegmentLaid(segs[i]) {
      SegmentIff(segs[i]);
    }
    assert forall i | 0 <= i < |segs| :: segs[i] in segs;
  }

  /** A text is a tag list exactly when it is tags and blanks between semicolons, v first and no name twice. */
  lemma TagListIff(txt: string, tags: seq<Pair>)
    ensures TagsOf(txt) == Ok(tags)
       <==> exists segs :: Laid(segs) && txt == Render(segs) && tags == TagsIn(segs)
                           && (tags == [] || tags[0].0 == "v") && Distinct(tags)
  {
    if TagsOf(txt) == Ok(tags) {
      var segs := AcceptedIsRendering(txt);
      LaidIff(segs);
    }
    forall segs | Laid(segs) && txt == Render(segs) && tags == TagsIn(segs)
                  && (tags == [] || tags[0].0 == "v") && Distinct(tags)
      ensures TagsOf(txt) == Ok(tags)
    {
      LaidIff(segs);
      RenderingReads(segs);
    }
  }

  /** A layout of tags is refused for its syntax exactly when its first tag is not v, and otherwise as a duplicate
      exactly when a name comes twice. */
  lemma {:induction false} RenderingRefused(segs: seq<Segment>)
    requires Laid(segs)
    ensures TagsOf(Render(segs)) == Err(Syntax) <==> TagsIn(segs) != [] && TagsIn(segs)[0].0 != "v"
    ensures TagsOf(Render(segs)) == Err(DuplicateTag)
       <==> TagsIn(segs) != [] && TagsIn(segs)[0].0 == "v" && !Distinct(TagsIn(segs))
  {
    LaidIff(segs);
    RenderingReads(segs);
    if Admit(TagsIn(segs)).Err? {
      AdmitError(TagsIn(segs));
    }
    AdmitIffAdmissible(TagsIn(segs));
  }

  lemma {:induction false} AdmitError(tags: seq<Pair>)
    requires Admit(tags).Err?
    ensures tags != []
    ensures Admit(tags).error == (if tags[0].0 != "v" then Syntax else DuplicateTag)
    decreases |tags|
  {
    var n := |tags| - 1;
    if Admit(tags[..n]).Err? {
      AdmitError(tags[..n]);
    } else {
      AdmitIffAdmissible(tags[..n]);
    }
  }

  // ---------- Pointer records ----------

  /** A pointer record names a domain exactly when its version is SWORN1 and its d tag is a valid domain, in any letter
      case. */
  lemma PointerIff(txt: string, domain: string)
    ensures ParsePointer(txt) == Ok(domain)
       <==> && TagsOf(txt).Ok? && Value(TagsOf(txt).value, "v") == Some("SWORN1")
            && exists d :: Value(TagsOf(txt).value, "d") == Some(d) && DomainText(d) && ToLower(d) == domain
  {
    if TagsOf(txt).Ok? {
      var tags := TagsOf(txt).value;
      NormalForm(txt);
      VersionIff(tags);
      DomainIff(ValueOrEmpty(tags, "d"));
    }
  }

  lemma VersionIff(tags: seq<Pair>)
    requires Distinct(tags)
    ensures !WrongVersion(tags) && ValueOrEmpty(tags, "v") != "" <==> Value(tags, "v") == Some("SWORN1")
  {
    DistinctValue(tags, "v");
    if Value(tags, "v") == Some("SWORN1") {
      forall kv | kv in tags && kv.0 == "v" ensures kv.1 == "SWORN1" {
        var i :| 0 <= i < |tags| && tags[i] == kv;
      }
    }
  }

  // ---------- Key records ----------

  /** A key record carries a key exactly when its version is SWORN1, its algorithm ed25519, and its pk tag decodes to a
      key of 32 bytes that is a curve point. */
  lemma KeyIff(codec: KeyText, txt: string, key: Bytes)
    ensures ParseKey(codec, txt) == Ok(key)
       <==> && TagsOf(txt).Ok? && Value(TagsOf(txt).value, "v") == Some("SWORN1")
            && Value(TagsOf(txt).value, "k") == Some("ed25519")
            && (exists t :: Value(TagsOf(txt).value, "pk") == Some(t) && codec.decode(t) == Some(key))
            && |key| == 32 && codec.isPoint(key)
  {
    if TagsOf(txt).Ok? {
      var tags := TagsOf(txt).value;
      NormalForm(txt);
      FaultFree(codec, tags);
      DistinctValue(tags, "v");
      DistinctValue(tags, "k");
      DistinctValue(tags, "pk");
    }
  }

  lemma {:induction false} FaultFree(codec: KeyText, tags: seq<Pair>)
    ensures FirstFault(codec, tags).None? <==> forall i | 0 <= i < |tags| :: !BadKeyTag(codec, tags[i])
    decreases |tags|
  {
    if tags != [] {
      FaultFree(codec, tags[1..]);
      assert forall i | 1 <= i < |tags| :: tags[i] == tags[1..][i - 1];
    }
  }

  /** In a list without repeated names a tag's value is the value of its name. */
  lemma {:induction false} DistinctValue(tags: seq<Pair>, k: string)
    requires Distinct(tags)
    ensures forall i | 0 <= i < |tags| && tags[i].0 == k :: Value(tags, k) == Some(tags[i].1)
    ensures Value(tags, k).Some? ==> exists i | 0 <= i < |tags| :: tags[i] == (k, Value(tags, k).value)
    decreases |tags|
  {
    if tags != [] {
      var n := |tags| - 1;
      DistinctValue(tags[..n], k);
      assert tags == tags[..n] + [tags[n]];
      ValueSnoc(tags[..n], tags[n], k);
      assert forall i | 0 <= i < n :: tags[i] == tags[..n][i];
    }
  }

  // ---------- Policy records ----------

  ghost predicate UnitText(v: string) { exists n: nat :: 1 <= n <= 64 && v == Itoa(n) }

  /** What is wrong with a tag of a policy record by itself. */
  ghost function TagFault(codec: PrefixText, kv: Pair): Option<RecordError> {
    if kv.0 == "v" && kv.1 != "SWORN1" then Some(UnsupportedVersion)
    else if kv.0 == "p" && !(exists prefixes :: Reads(codec, Elements(kv.1), prefixes)) then Some(BadPrefix)
    else if kv.0 == "u" && !UnitText(kv.1) then Some(BadUnit)
    else if kv.0 == "rua" && !MailboxText(kv.1) then Some(BadRua)
    else None
  }

  /** The fault of the first tag that has one. */
  ghost function FirstTagFault(codec: PrefixText, tags: seq<Pair>): Option<RecordError> {
    if tags == [] then None else
    var before := FirstTagFault(codec, tags[..|tags| - 1]);
    if before.Some? then before else TagFault(codec, tags[|tags| - 1])
  }

  lemma TakeError(codec: PrefixText, v: string)
    ensures TakePrefixes(codec, Split(v, ','), []).Ok? <==> exists prefixes :: Reads(codec, Elements(v), prefixes)
    ensures TakePrefixes(codec, Split(v, ','), []).Err? ==> TakePrefixes(codec, Split(v, ','), []).error == BadPrefix
  {
    var r := TakePrefixes(codec, Split(v, ','), []);
    forall prefixes ensures r == Ok(prefixes) <==> Reads(codec, Elements(v), prefixes) {
      TakeIffReads(codec, Split(v, ','), prefixes);
    }
    if r.Ok? {
      assert r == Ok(r.value);
    }
    TakeErrorKind(codec, Split(v, ','));
  }

  lemma {:induction false} TakeErrorKind(codec: PrefixText, parts: seq<string>)
    ensures TakePrefixes(codec, parts, []).Err? ==> TakePrefixes(codec, parts, []).error == BadPrefix
    decreases |parts|
  {
    if parts != [] {
      TakeErrorKind(codec, parts[..|parts| - 1]);
    }
  }

  lemma UnitError(v: string)
    ensures DecimalOf(v).Some? && 1 <= DecimalOf(v).value <= 64 <==> UnitText(v)
  {
    if DecimalOf(v).Some? {
      DecimalIff(v, DecimalOf(v).value);
    }
    forall n: nat | 1 <= n <= 64 && v == Itoa(n) ensures DecimalOf(v) == Some(n) {
      DecimalIff(v, n);
    }
  }

  lemma ApplyFault(codec: PrefixText, rec: PolicyRecord, kv: Pair)
    requires kv.0 == "p" ==> rec.prefixes == []
    ensures ApplyTag(codec, rec, kv).Ok? <==> TagFault(codec, kv).None?
    ensures ApplyTag(codec, rec, kv).Err? ==> TagFault(codec, kv) == Some(ApplyTag(codec, rec, kv).error)
  {
    if kv.0 == "p" {
      TakeError(codec, kv.1);
    } else if kv.0 == "u" {
      UnitError(kv.1);
    } else if kv.0 == "rua" {
      MailboxIff(kv.1);
    }
  }

  lemma FreshPrefixes(codec: PrefixText, tags: seq<Pair>, rec: PolicyRecord)
    requires Distinct(tags) && ApplyTags(codec, tags) == Ok(rec) && Value(tags, "p").None?
    ensures rec.prefixes == []
  {
    ApplyIffDescribes(codec, tags, rec);
  }

  lemma {:induction false} TagsFault(codec: PrefixText, tags: seq<Pair>)
    requires Distinct(tags)
    ensures ApplyTags(codec, tags).Ok? <==> FirstTagFault(codec, tags).None?
    ensures ApplyTags(codec, tags).Err? ==> FirstTagFault(codec, tags) == Some(ApplyTags(codec, tags).error)
    decreases |tags|
  {
    if tags != [] {
      var n := |tags| - 1;
      var init, kv := tags[..n], tags[n];
      TagsFault(codec, init);
      if ApplyTags(codec, init).Ok? {
        if kv.0 == "p" {
          DistinctValue(init, "p");
          assert forall i | 0 <= i < n :: init[i].0 == tags[i].0 != kv.0;
          FreshPrefixes(codec, init, ApplyTags(codec, init).value);
        }
        ApplyFault(codec, ApplyTags(codec, init).value, kv);
      }
    }
  }

  /** Why a policy text is refused: as a tag list; by the first tag that is wrong by itself; because it is empty; or
      because a prefix is longer than the unit. */
  lemma PolicyRefusalIs(codec: PrefixText, txt: string)
    ensures TagsOf(txt).Err? ==> ParsePolicy(codec, txt) == Err(TagsOf(txt).error)
    ensures TagsOf(txt).Ok? && FirstTagFault(codec, TagsOf(txt).value).Some? ==>
              ParsePolicy(codec, txt) == Err(FirstTagFault(codec, TagsOf(txt).value).value)
    ensures TagsOf(txt).Ok? && FirstTagFault(codec, TagsOf(txt).value).None? ==>
              if TagsOf(txt).value == [] then ParsePolicy(codec, txt) == Err(Syntax)
              else ParsePolicy(codec, txt).Ok? || ParsePolicy(codec, txt) == Err(BadUnit)
  {
    if TagsOf(txt).Ok? {
      var tags := TagsOf(txt).value;
      NormalForm(txt);
      TagsFault(codec, tags);
      if ApplyTags(codec, tags).Ok? {
        var rec := ApplyTags(codec, tags).value;
        ApplyIffDescribes(codec, tags, rec);
        if tags != [] {
          DistinctValue(tags, "v");
        }
      }
    }
  }
}
