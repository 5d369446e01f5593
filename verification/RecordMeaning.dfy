/** What the record parsers accept, stated over the tags of a record instead of over the order they are read in. */
module RecordMeaning {
  import opened Wrappers
  import opened Text
  import opened Netip
  import opened AddressRules
  import opened Names
  import opened NamesMeaning
  import opened Tags
  import opened TagGrammar
  import opened Record

  // ---------- Numbers ----------

  /** Written by Itoa, a number reads back as itself. */
  lemma {:induction false} ItoaReads(n: nat)
    ensures AllDigits(Itoa(n)) && DigitsValue(Itoa(n)) == n
    ensures Itoa(n)[0] == '0' <==> n == 0
    ensures |Itoa(n)| == 1 <==> n < 10
  {
    if n >= 10 {
      ItoaReads(n / 10);
      var s := Itoa(n / 10);
      assert Itoa(n) == s + [DigitChar(n % 10)];
      assert Itoa(n)[..|Itoa(n)| - 1] == s;
    } else {
      assert Itoa(n) == [DigitChar(n)];
      assert Itoa(n)[..0] == "";
    }
  }

  lemma {:induction false} DigitsReadBack(v: string)
    requires v != "" && AllDigits(v) && (|v| > 1 ==> v[0] != '0')
    ensures Itoa(DigitsValue(v)) == v
    ensures |v| > 1 ==> DigitsValue(v) >= 10
    ensures |v| == 1 ==> DigitsValue(v) < 10
  {
    var n := |v| - 1;
    var init, d := v[..n], v[n] as int - '0' as int;
    assert v == init + [DigitChar(d)];
    if n > 0 {
      DigitsReadBack(init);
      assert DigitsValue(init) >= 1 by {
        if |init| == 1 { assert init[0] != '0'; assert init[..0] == ""; }
      }
    } else {
      assert init == "";
    }
  }

  lemma DigitsBound(v: string)
    requires AllDigits(v)
    ensures |v| <= 3 ==> DigitsValue(v) <= 999
  {
    if |v| > 0 {
      var a := v[..|v| - 1];
      if |a| > 0 {
        var b := a[..|a| - 1];
        if |b| > 0 {
          var c := b[..|b| - 1];
        }
      }
    }
  }

  /** A record number is accepted exactly when it is spelled as Itoa spells it, with at most three digits. */
  lemma DecimalIff(v: string, n: nat)
    ensures DecimalOf(v) == Some(n) <==> n <= 999 && v == Itoa(n)
  {
    ItoaReads(n);
    if n <= 999 {
      ItoaReads(n / 10);
      assert |Itoa(n)| <= 3 by { assert n / 10 / 10 < 10; }
    }
    if DecimalOf(v).Some? {
      DigitsReadBack(v);
      DigitsBound(v);
    }
  }

  // ---------- Prefix enumeration ----------

  function NonEmpty(parts: seq<string>): seq<string> {
    if parts == [] then [] else
    var last := parts[|parts| - 1];
    NonEmpty(parts[..|parts| - 1]) + (if last == "" then [] else [last])
  }

  function AtMost<T>(s: seq<T>, n: nat): seq<T> {
    if |s| <= n then s else s[..n]
  }

  /** The enumerated elements of a p value: the first 64 that are not empty. */
  function Elements(v: string): seq<string> {
    AtMost(NonEmpty(Split(v, ',')), 64)
  }

  ghost predicate Reads(codec: PrefixText, elements: seq<string>, prefixes: seq<Prefix>) {
    && |prefixes| == |elements|
    && forall i | 0 <= i < |elements| :: codec.parse(elements[i]) == Some(prefixes[i]) && ValidatePrefix(prefixes[i])
  }

  lemma TakeSnoc(codec: PrefixText, parts: seq<string>, part: string)
    ensures NonEmpty(parts + [part]) == if part == "" then NonEmpty(parts) else NonEmpty(parts) + [part]
    ensures var before := TakePrefixes(codec, parts, []);
            TakePrefixes(codec, parts + [part], [])
              == if before.Err? then before else TakePrefix(codec, part, before.value)
  {
    var longer := parts + [part];
    assert longer[..|longer| - 1] == parts;
  }

  lemma ReadsSnoc(codec: PrefixText, elements: seq<string>, e: string, prefixes: seq<Prefix>)
    ensures Reads(codec, elements + [e], prefixes) <==>
            && prefixes != [] && Reads(codec, elements, prefixes[..|prefixes| - 1])
            && codec.parse(e) == Some(prefixes[|prefixes| - 1]) && ValidatePrefix(prefixes[|prefixes| - 1])
  {
    var longer := elements + [e];
    if Reads(codec, longer, prefixes) {
      assert longer[|elements|] == e;
      assert forall i | 0 <= i < |elements| :: longer[i] == elements[i];
    }
  }

  /** The loop reads the first 64 non-empty elements, each in turn, or refuses. */
  lemma {:induction false} TakeIffReads(codec: PrefixText, parts: seq<string>, prefixes: seq<Prefix>)
    ensures TakePrefixes(codec, parts, []) == Ok(prefixes)
       <==> Reads(codec, AtMost(NonEmpty(parts), MAX_POLICY_PREFIXES), prefixes)
    decreases |parts|
  {
    if parts != [] {
      var init, last := Unsnoc(parts);
      TakeSnoc(codec, init, last);
      var some := NonEmpty(init);
      if last == "" || |some| >= MAX_POLICY_PREFIXES {
        TakeIffReads(codec, init, prefixes);
        if TakePrefixes(codec, init, []).Ok? {
          TakeIffReads(codec, init, TakePrefixes(codec, init, []).value);
        }
      } else {
        ReadsSnoc(codec, some, last, prefixes);
        if prefixes != [] {
          TakeIffReads(codec, init, prefixes[..|prefixes| - 1]);
          assert prefixes == prefixes[..|prefixes| - 1] + [prefixes[|prefixes| - 1]];
        }
        if TakePrefixes(codec, init, []).Ok? {
          TakeIffReads(codec, init, TakePrefixes(codec, init, []).value);
        }
      }
    }
  }

  // ---------- Policy records ----------

  ghost predicate VersionReads(tags: seq<Pair>, version: string) {
    match Value(tags, "v")
    case None => version == ""
    case Some(v) => v == "SWORN1" == version
  }

  ghost predicate PrefixesRead(codec: PrefixText, tags: seq<Pair>, prefixes: seq<Prefix>) {
    match Value(tags, "p")
    case None => prefixes == []
    case Some(v) => Reads(codec, Elements(v), prefixes)
  }

  ghost predicate UnitReads(tags: seq<Pair>, unit: nat) {
    match Value(tags, "u")
    case None => unit == 64
    case Some(v) => 1 <= unit <= 64 && v == Itoa(unit)
  }

  ghost predicate TestingReads(tags: seq<Pair>, testing: bool) {
    testing <==> Value(tags, "t").Some? && "y" in Split(Value(tags, "t").value, ':')
  }

  ghost predicate RuaReads(tags: seq<Pair>, rua: string) {
    match Value(tags, "rua")
    case None => rua == ""
    case Some(v) => MailboxText(v) && rua == v
  }

  /** A record says what its tags say, each tag on its own; tags of other names say nothing. */
  ghost predicate Describes(codec: PrefixText, tags: seq<Pair>, rec: PolicyRecord) {
    && VersionReads(tags, rec.version)
    && PrefixesRead(codec, tags, rec.prefixes)
    && UnitReads(tags, rec.unit)
    && TestingReads(tags, rec.testing)
    && RuaReads(tags, rec.rua)
  }

  lemma {:induction false} ValueIffKey(tags: seq<Pair>, k: string)
    ensures Value(tags, k).Some? <==> k in Keys(tags)
    ensures Value(tags, k).Some? ==> (k, Value(tags, k).value) in tags
  {
    if tags != [] {
      var n := |tags| - 1;
      ValueIffKey(tags[..n], k);
      assert tags == tags[..n] + [(tags[n].0, tags[n].1)];
      KeysAppend(tags[..n], tags[n].0, tags[n].1);
    }
  }

  /** The record before a tag of a fresh name was applied. */
  function Without(rec: PolicyRecord, k: string): PolicyRecord {
    if k == "v" then rec.(version := "")
    else if k == "p" then rec.(prefixes := [])
    else if k == "u" then rec.(unit := DEFAULT_UNIT_PREFIX_LEN)
    else if k == "t" then rec.(testing := false)
    else if k == "rua" then rec.(rua := "")
    else rec
  }

  /** Fields a tag does not name read the same with it and without it. */
  lemma OtherFields(codec: PrefixText, tags: seq<Pair>, kv: Pair, rec: PolicyRecord)
    ensures kv.0 != "v" ==> (VersionReads(tags + [kv], rec.version) <==> VersionReads(tags, rec.version))
    ensures kv.0 != "p" ==>
              (PrefixesRead(codec, tags + [kv], rec.prefixes) <==> PrefixesRead(codec, tags, rec.prefixes))
    ensures kv.0 != "u" ==> (UnitReads(tags + [kv], rec.unit) <==> UnitReads(tags, rec.unit))
    ensures kv.0 != "t" ==> (TestingReads(tags + [kv], rec.testing) <==> TestingReads(tags, rec.testing))
    ensures kv.0 != "rua" ==> (RuaReads(tags + [kv], rec.rua) <==> RuaReads(tags, rec.rua))
  {
    ValueSnoc(tags, kv, "v");
    ValueSnoc(tags, kv, "p");
    ValueSnoc(tags, kv, "u");
    ValueSnoc(tags, kv, "t");
    ValueSnoc(tags, kv, "rua");
  }

  /** The field a tag names, when no earlier tag named it. */
  lemma NamedField(codec: PrefixText, tags: seq<Pair>, kv: Pair, rec: PolicyRecord)
    requires Value(tags, kv.0).None?
    ensures kv.0 == "v" ==>
              && VersionReads(tags, "")
              && (VersionReads(tags + [kv], rec.version) <==> kv.1 == VERSION == rec.version)
    ensures kv.0 == "p" ==>
              && PrefixesRead(codec, tags, [])
              && (PrefixesRead(codec, tags + [kv], rec.prefixes)
                  <==> TakePrefixes(codec, Split(kv.1, ','), []) == Ok(rec.prefixes))
    ensures kv.0 == "u" ==>
              && UnitReads(tags, DEFAULT_UNIT_PREFIX_LEN)
              && (UnitReads(tags + [kv], rec.unit)
                  <==> DecimalOf(kv.1) == Some(rec.unit) && 1 <= rec.unit <= MAX_UNIT_PREFIX_LEN)
    ensures kv.0 == "t" ==>
              && TestingReads(tags, false)
              && (TestingReads(tags + [kv], rec.testing) <==> rec.testing == ("y" in Split(kv.1, ':')))
    ensures kv.0 == "rua" ==>
              && RuaReads(tags, "")
              && (RuaReads(tags + [kv], rec.rua) <==> ValidRuaMailto(kv.1) && rec.rua == kv.1)
  {
    ValueSnoc(tags, kv, kv.0);
    if kv.0 == "p" {
      TakeIffReads(codec, Split(kv.1, ','), rec.prefixes);
    } else if kv.0 == "u" {
      DecimalIff(kv.1, rec.unit);
    } else if kv.0 == "rua" {
      MailboxIff(kv.1);
    }
  }

  /** Applying a tag of a fresh name is exactly adding what it says. */
  lemma DescribesSnoc(codec: PrefixText, tags: seq<Pair>, kv: Pair, before: PolicyRecord, rec: PolicyRecord)
    requires Value(tags, kv.0).None? && before == Without(rec, kv.0)
    ensures Describes(codec, tags + [kv], rec)
       <==> Describes(codec, tags, before) && ApplyTag(codec, before, kv) == Ok(rec)
  {
    OtherFields(codec, tags, kv, rec);
    NamedField(codec, tags, kv, rec);
  }

  lemma ApplyUndo(codec: PrefixText, tags: seq<Pair>, kv: Pair, before: PolicyRecord, rec: PolicyRecord)
    requires Value(tags, kv.0).None? && Describes(codec, tags, before) && ApplyTag(codec, before, kv) == Ok(rec)
    ensures before == Without(rec, kv.0)
  {
  }

  /** The tag loop computes exactly what the tags say, in whatever order they come. */
  lemma {:induction false} ApplyIffDescribes(codec: PrefixText, tags: seq<Pair>, rec: PolicyRecord)
    requires Distinct(tags)
    ensures ApplyTags(codec, tags) == Ok(rec) <==> Describes(codec, tags, rec)
    decreases |tags|
  {
    if tags != [] {
      var n := |tags| - 1;
      var init, kv := tags[..n], tags[n];
      assert tags == init + [kv];
      ValueIffKey(init, kv.0);
      assert Value(init, kv.0).None? by {
        assert forall i | 0 <= i < n :: init[i].0 == tags[i].0 != kv.0;
      }
      var before := Without(rec, kv.0);
      ApplyIffDescribes(codec, init, before);
      DescribesSnoc(codec, init, kv, before, rec);
      var r := ApplyTags(codec, init);
      if r.Ok? && ApplyTag(codec, r.value, kv) == Ok(rec) {
        ApplyIffDescribes(codec, init, r.value);
        ApplyUndo(codec, init, kv, r.value, rec);
      }
    }
  }

  /** A policy record is accepted, and read as rec, exactly when its text is a tag list that describes rec, the
      version is present, and the unit is no coarser than any prefix. */
  lemma PolicyIff(codec: PrefixText, txt: string, rec: PolicyRecord)
    ensures ParsePolicy(codec, txt) == Ok(rec)
       <==> && TagsOf(txt).Ok? && Describes(codec, TagsOf(txt).value, rec)
            && rec.version == "SWORN1" && forall p | p in rec.prefixes :: p.bits <= rec.unit
  {
    if TagsOf(txt).Ok? {
      NormalForm(txt);
      var tags := TagsOf(txt).value;
      ApplyIffDescribes(codec, tags, rec);
      if ApplyTags(codec, tags).Ok? {
        ApplyIffDescribes(codec, tags, ApplyTags(codec, tags).value);
      }
    }
  }

  lemma NonEmptySnoc(parts: seq<string>, part: string)
    ensures NonEmpty(parts + [part]) == if part == "" then NonEmpty(parts) else NonEmpty(parts) + [part]
  {
    var longer := parts + [part];
    assert longer[..|longer| - 1] == parts;
  }

  // ---------- Authorization ----------

  /** A policy of the right version covers a valid token prefix exactly when every address of that prefix lies in
      one single valid prefix of the policy. */
  lemma AuthorizesIffSubset(policy: PolicyRecord, tokenPrefix: Prefix)
    requires policy.version == "SWORN1" && ValidatePrefix(tokenPrefix)
    ensures policy.Authorizes(tokenPrefix)
       <==> exists allowed | allowed in policy.prefixes :: ValidatePrefix(allowed) && Subset(tokenPrefix, allowed)
  {
    forall allowed | allowed in policy.prefixes && ValidatePrefix(allowed)
      ensures Subset(tokenPrefix, allowed) <==> tokenPrefix.bits >= allowed.bits && allowed.Contains(tokenPrefix.addr)
    {
      SubsetIffNested(tokenPrefix, allowed);
    }
  }
}
