/** What the generator prints, the parsers read back: the policy, key and pointer records, and exactly when the
    generator's own round-trip check fails. */
module RoundTrip {
  import opened Wrappers
  import opened Text
  import opened Netip
  import opened AddressRules
  import opened Names
  import opened NamesMeaning
  import opened Tags
  import opened TagGrammar
  import opened Lines
  import opened Record
  import opened RecordMeaning
  import opened Genrecord

  /** An element of an enumeration that the tag syntax leaves alone. */
  predicate CleanElement(s: string) {
    s != "" && CleanValue(s) && ',' !in s
  }

  /** The prefix codec reads back what it prints, and prints nothing the record syntax would break. */
  ghost predicate FaithfulPrefixes(codec: PrefixText) {
    forall p | ValidatePrefix(p) :: codec.parse(codec.text(p)) == Some(p) && CleanElement(codec.text(p))
  }

  /** The same of the key codec on keys of the right size. */
  ghost predicate FaithfulKeys(codec: KeyText) {
    forall k | |k| == PUBLIC_KEY_SIZE :: codec.decode(codec.text(k)) == Some(k) && CleanValue(codec.text(k))
  }

  // ---------- Mailboxes ----------

  lemma AtomChars(local: string)
    requires forall atom | atom in Split(local, '.') :: IsAtom(atom)
    ensures forall x | x in local :: IsAtomChar(x) || x == '.'
  {
    forall x | x in local && x != '.' ensures IsAtomChar(x) {
      SplitCovers(local, '.', x);
    }
  }

  lemma AtomCharOk(x: char)
    requires IsAtomChar(x) || x == '.'
    ensures OctetOk(x) && x !in RUA_FORBIDDEN
  {
  }

  lemma LdhOk(x: char)
    requires IsLdh(x) || x == '.'
    ensures OctetOk(x) && x !in RUA_FORBIDDEN
  {
  }

  /** The parser's mailbox rule is the stricter one. */
  lemma MailtoImpliesRua(v: string)
    requires ValidRuaMailto(v)
    ensures ValidateRua(v) && Octets(v)
  {
    var address := v[|MAILTO|..];
    var (local, domain, found) := Cut(address, '@');
    CutSplits(address, '@');
    AtomChars(local);
    DomainCharacters(domain);
    forall i | 0 <= i < |v| ensures OctetOk(v[i]) && v[i] !in RUA_FORBIDDEN {
      if i < |MAILTO| {
        assert v[i] == MAILTO[i];
      } else {
        var x := address[i - |MAILTO|];
        assert x == v[i];
        if x in local {
          AtomCharOk(x);
        } else if x in domain {
          LdhOk(x);
        }
      }
    }
  }

  lemma ParenthesisIsNoAtom()
    ensures !IsAtom("(")
  {
    assert "("[0] == '(' && !IsAtomChar('(');
  }

  lemma GapParts(v: string)
    requires v == MAILTO + ("(" + ['@'] + "c")
    ensures MAILTO <= v && Cut(v[|MAILTO|..], '@') == ("(", "c", true)
    ensures ValidDomain("c") && Split("(", '.') == ["("]
  {
    assert v[|MAILTO|..] == "(" + ['@'] + "c";
    CutAt("(", '@', "c");
    SplitNone("(", '.');
    SplitNone("c", '.');
    assert ValidLabel("c");
  }

  /** And strictly so: the generator's check admits a mailbox that is no dot-atom. */
  lemma RuaGap()
    ensures ValidateRua("mailto:(@c") && !ValidRuaMailto("mailto:(@c")
  {
    var v := "mailto:(@c";
    assert v == MAILTO + ("(" + ['@'] + "c");
    GapParts(v);
    ParenthesisIsNoAtom();
    assert "(" in Split("(", '.');
    forall x | x in "(@c" || x in MAILTO ensures x !in RUA_FORBIDDEN {
    }
    assert forall i | 0 <= i < |v| :: v[i] in "(@c" || v[i] in MAILTO;
  }

  // ---------- The policy record ----------

  function PolicyTags(codec: PrefixText, o: GenOptions): seq<Pair>
    requires o.unit >= 0
  {
    var base := [("v", VERSION)] + [("p", PrefixList(codec, o.prefixes))] + [("u", Itoa(o.unit))];
    var flagged := if o.testing then base + [("t", "y")] else base;
    if o.rua != "" then flagged + [("rua", o.rua)] else flagged
  }

  lemma BaseLine(list: string, unit: string)
    ensures Line([("v", VERSION)] + [("p", list)] + [("u", unit)]) == "v=" + VERSION + "; p=" + list + "; u=" + unit
  {
    LineSnoc([], "v", VERSION);
    assert [] + [("v", VERSION)] == [("v", VERSION)];
    LineSnoc([("v", VERSION)], "p", list);
    LineSnoc([("v", VERSION)] + [("p", list)], "u", unit);
    var a := "v=" + VERSION;
    assert a + "; " + ("p=" + list) == a + "; p=" + list;
    var b := a + "; p=" + list;
    assert b + "; " + ("u=" + unit) == b + "; u=" + unit;
  }

  lemma AppendTag(tags: seq<Pair>, line: string, k: string, v: string)
    requires tags != [] && Line(tags) == line
    ensures Line(tags + [(k, v)]) == line + ("; " + k + "=") + v
  {
    LineSnoc(tags, k, v);
  }

  /** The printed policy is a line of tags. */
  lemma PolicyTextIsLine(codec: PrefixText, o: GenOptions)
    requires o.unit >= 0
    ensures PolicyText(codec, o) == Line(PolicyTags(codec, o))
  {
    var list, unit := PrefixList(codec, o.prefixes), Itoa(o.unit);
    BaseLine(list, unit);
    var base := [("v", VERSION)] + [("p", list)] + [("u", unit)];
    var line := "v=" + VERSION + "; p=" + list + "; u=" + unit;
    AppendTag(base, line, "t", "y");
    assert line + ("; " + "t" + "=") + "y" == line + "; t=y";
    assert "; " + "rua" + "=" == "; rua=";
    if o.rua != "" {
      if o.testing {
        AppendTag(base + [("t", "y")], line + "; t=y", "rua", o.rua);
      } else {
        AppendTag(base, line, "rua", o.rua);
      }
    }
  }

  lemma {:induction false} JoinClean(parts: seq<string>)
    requires forall p | p in parts :: CleanElement(p)
    ensures CleanValue(Join(parts, ","))
  {
    if |parts| == 1 {
      assert parts[0] in parts;
    } else if |parts| > 1 {
      JoinClean(parts[1..]);
      assert parts[0] in parts;
      CleanConcat(parts[0] + ",", Join(parts[1..], ","));
      CleanConcat(parts[0], ",");
    }
  }

  lemma CleanConcat(a: string, b: string)
    requires CleanValue(a) && CleanValue(b)
    ensures CleanValue(a + b)
  {
    OctetsConcat(a, b);
  }

  lemma TextsClean(codec: PrefixText, prefixes: seq<Prefix>)
    requires FaithfulPrefixes(codec) && forall p | p in prefixes :: ValidatePrefix(p)
    ensures forall t | t in PrefixTexts(codec, prefixes) :: CleanElement(t)
  {
    forall t | t in PrefixTexts(codec, prefixes) ensures CleanElement(t) {
      var i :| 0 <= i < |prefixes| && PrefixTexts(codec, prefixes)[i] == t;
      assert prefixes[i] in prefixes;
    }
  }

  lemma ItoaClean(n: nat)
    ensures CleanValue(Itoa(n))
  {
    assert forall i | 0 <= i < |Itoa(n)| :: Itoa(n)[i] in Itoa(n);
  }

  lemma {:induction false} ComplaintNone(prefixes: seq<Prefix>)
    requires PrefixComplaint(prefixes).None?
    ensures forall p | p in prefixes :: ValidatePrefix(p)
    ensures forall i, j | 0 <= i < j < |prefixes| :: prefixes[i] != prefixes[j]
  {
    if prefixes != [] {
      var n := |prefixes| - 1;
      ComplaintNone(prefixes[..n]);
      assert prefixes == prefixes[..n] + [prefixes[n]];
      assert forall i | 0 <= i < n :: prefixes[i] == prefixes[..n][i];
    }
  }

  lemma RuaClean(rua: string)
    requires ValidateRua(rua) && Octets(rua)
    ensures CleanValue(rua)
  {
  }

  lemma CleanSnoc(tags: seq<Pair>, k: string, v: string)
    requires CleanTags(tags) && CleanName(k) && CleanValue(v)
    ensures CleanTags(tags + [(k, v)])
  {
  }

  lemma CleanWords()
    ensures CleanName("v") && CleanName("p") && CleanName("u") && CleanName("t") && CleanName("rua")
    ensures CleanName("k") && CleanName("pk")
    ensures CleanValue(VERSION) && CleanValue("y") && CleanValue(ED25519)
  {
  }

  lemma BaseClean(list: string, unit: string)
    requires CleanValue(list) && CleanValue(unit)
    ensures CleanTags([("v", VERSION)] + [("p", list)] + [("u", unit)])
  {
    CleanWords();
    CleanSnoc([("v", VERSION)], "p", list);
    CleanSnoc([("v", VERSION)] + [("p", list)], "u", unit);
  }

  lemma PolicyTagsClean(codec: PrefixText, o: GenOptions)
    requires FaithfulPrefixes(codec) && Complaint(o).None? && Octets(o.rua)
    ensures CleanTags(PolicyTags(codec, o))
  {
    ComplaintNone(o.prefixes);
    TextsClean(codec, o.prefixes);
    JoinClean(PrefixTexts(codec, o.prefixes));
    ItoaClean(o.unit);
    var list, unit := PrefixList(codec, o.prefixes), Itoa(o.unit);
    BaseClean(list, unit);
    var base := [("v", VERSION)] + [("p", list)] + [("u", unit)];
    CleanWords();
    CleanSnoc(base, "t", "y");
    if o.rua != "" {
      RuaClean(o.rua);
      CleanSnoc(if o.testing then base + [("t", "y")] else base, "rua", o.rua);
    }
  }

  /** The printed list is enumerated as the prefixes it lists. */
  lemma {:induction false} AllNonEmpty(parts: seq<string>)
    requires forall p | p in parts :: p != ""
    ensures NonEmpty(parts) == parts
    decreases |parts|
  {
    if parts != [] {
      var init, last := Unsnoc(parts);
      assert last in parts && forall p | p in init :: p in parts;
      AllNonEmpty(init);
      NonEmptySnoc(init, last);
    }
  }

  lemma TextsPlain(codec: PrefixText, prefixes: seq<Prefix>)
    requires FaithfulPrefixes(codec) && forall p | p in prefixes :: ValidatePrefix(p)
    ensures forall t | t in PrefixTexts(codec, prefixes) :: ',' !in t && t != ""
  {
    TextsClean(codec, prefixes);
  }

  lemma ElementReads(codec: PrefixText, prefixes: seq<Prefix>, i: nat)
    requires FaithfulPrefixes(codec) && i < |prefixes| && forall p | p in prefixes :: ValidatePrefix(p)
    ensures codec.parse(PrefixTexts(codec, prefixes)[i]) == Some(prefixes[i]) && ValidatePrefix(prefixes[i])
  {
    assert prefixes[i] in prefixes;
  }

  lemma ListReads(codec: PrefixText, prefixes: seq<Prefix>)
    requires FaithfulPrefixes(codec) && forall p | p in prefixes :: ValidatePrefix(p)
    requires 1 <= |prefixes| <= MAX_POLICY_PREFIXES
    ensures Reads(codec, Elements(PrefixList(codec, prefixes)), prefixes)
  {
    var texts := PrefixTexts(codec, prefixes);
    TextsPlain(codec, prefixes);
    SplitJoin(texts, ',');
    AllNonEmpty(texts);
    forall i | 0 <= i < |texts| ensures codec.parse(texts[i]) == Some(prefixes[i]) && ValidatePrefix(prefixes[i]) {
      ElementReads(codec, prefixes, i);
    }
  }

  lemma BaseValues(list: string, unit: string, k: string)
    ensures var base: seq<Pair> := [("v", VERSION)] + [("p", list)] + [("u", unit)];
            Value(base, k) == if k == "u" then Some(unit) else if k == "p" then Some(list)
                              else if k == "v" then Some(VERSION) else None
  {
    ValueSnoc([], ("v", VERSION), k);
    assert [] + [("v", VERSION)] == [("v", VERSION)];
    ValueSnoc([("v", VERSION)], ("p", list), k);
    ValueSnoc([("v", VERSION)] + [("p", list)], ("u", unit), k);
  }

  /** What each name is given in the printed policy. */
  lemma PolicyValues(codec: PrefixText, o: GenOptions, k: string)
    requires o.unit >= 0
    ensures Value(PolicyTags(codec, o), k)
         == if k == "v" then Some(VERSION)
            else if k == "p" then Some(PrefixList(codec, o.prefixes))
            else if k == "u" then Some(Itoa(o.unit))
            else if k == "t" && o.testing then Some("y")
            else if k == "rua" && o.rua != "" then Some(o.rua)
            else None
  {
    var list, unit := PrefixList(codec, o.prefixes), Itoa(o.unit);
    BaseValues(list, unit, k);
    var base := [("v", VERSION)] + [("p", list)] + [("u", unit)];
    ValueSnoc(base, ("t", "y"), k);
    ValueSnoc(base, ("rua", o.rua), k);
    ValueSnoc(base + [("t", "y")], ("rua", o.rua), k);
  }

  lemma PolicyTagsAdmissible(codec: PrefixText, o: GenOptions)
    requires o.unit >= 0
    ensures Admissible(PolicyTags(codec, o))
  {
    var tags := PolicyTags(codec, o);
    assert tags[0].0 == "v" && tags[1].0 == "p" && tags[2].0 == "u";
  }

  lemma PolicyPrefixesRead(codec: PrefixText, o: GenOptions)
    requires FaithfulPrefixes(codec) && Complaint(o).None?
    ensures PrefixesRead(codec, PolicyTags(codec, o), o.prefixes)
  {
    PolicyValues(codec, o, "p");
    ComplaintNone(o.prefixes);
    ListReads(codec, o.prefixes);
  }

  lemma PolicyFlagsRead(codec: PrefixText, o: GenOptions)
    requires Complaint(o).None?
    ensures VersionReads(PolicyTags(codec, o), VERSION)
    ensures UnitReads(PolicyTags(codec, o), o.unit)
    ensures TestingReads(PolicyTags(codec, o), o.testing)
  {
    PolicyValues(codec, o, "v");
    PolicyValues(codec, o, "u");
    PolicyValues(codec, o, "t");
    SplitNone("y", ':');
  }

  lemma PolicyRuaReads(codec: PrefixText, o: GenOptions, rua: string)
    requires o.unit >= 0
    ensures RuaReads(PolicyTags(codec, o), rua) <==> rua == o.rua && (o.rua == "" || MailboxText(o.rua))
  {
    PolicyValues(codec, o, "rua");
  }

  /** The printed tags describe the intended policy exactly when the mailbox is one the parser admits. */
  lemma PolicyTagsDescribe(codec: PrefixText, o: GenOptions)
    requires FaithfulPrefixes(codec) && Complaint(o).None?
    ensures Describes(codec, PolicyTags(codec, o), IntendedPolicy(o)) <==> o.rua == "" || MailboxText(o.rua)
    ensures (exists rec :: Describes(codec, PolicyTags(codec, o), rec)) ==> o.rua == "" || MailboxText(o.rua)
  {
    PolicyPrefixesRead(codec, o);
    PolicyFlagsRead(codec, o);
    PolicyRuaReads(codec, o, o.rua);
    forall rec | Describes(codec, PolicyTags(codec, o), rec) ensures o.rua == "" || MailboxText(o.rua) {
      PolicyRuaReads(codec, o, rec.rua);
    }
  }

  /** The printed policy is split into its tags, unless an unprintable octet in the mailbox has it refused. */
  lemma PolicyTextSplits(codec: PrefixText, o: GenOptions)
    requires FaithfulPrefixes(codec) && Complaint(o).None?
    ensures Octets(o.rua) ==> TagsOf(PolicyText(codec, o)) == Ok(PolicyTags(codec, o))
    ensures !Octets(o.rua) ==> TagsOf(PolicyText(codec, o)).Err?
  {
    var tags := PolicyTags(codec, o);
    PolicyTextIsLine(codec, o);
    if Octets(o.rua) {
      PolicyTagsClean(codec, o);
      PolicyTagsAdmissible(codec, o);
      LineReads(tags);
    } else {
      assert tags[|tags| - 1] == ("rua", o.rua);
      LineOctets(tags, "rua", o.rua);
    }
  }

  lemma IntendedUnitCovers(o: GenOptions)
    requires Complaint(o).None?
    ensures UnitCovers(IntendedPolicy(o)) && IntendedPolicy(o).version == VERSION
  {
  }

  /** The policy record reads back as exactly the prefixes in order, the unit, the testing flag and the mailbox that
      were asked for, unless the mailbox is one that only the generator's own check admits; then it is refused. */
  lemma PolicyRoundTrips(codec: PrefixText, o: GenOptions)
    requires FaithfulPrefixes(codec) && Complaint(o).None?
    ensures o.rua == "" || MailboxText(o.rua) ==> ParsePolicy(codec, PolicyText(codec, o)) == Ok(IntendedPolicy(o))
    ensures !(o.rua == "" || MailboxText(o.rua)) ==> ParsePolicy(codec, PolicyText(codec, o)).Err?
  {
    var txt := PolicyText(codec, o);
    PolicyTextSplits(codec, o);
    PolicyTagsDescribe(codec, o);
    if o.rua == "" || MailboxText(o.rua) {
      if o.rua != "" {
        MailboxIff(o.rua);
        MailtoImpliesRua(o.rua);
      }
      IntendedUnitCovers(o);
      PolicyIff(codec, txt, IntendedPolicy(o));
    } else if ParsePolicy(codec, txt).Ok? {
      PolicyIff(codec, txt, ParsePolicy(codec, txt).value);
    }
  }

  // ---------- The key record ----------

  function KeyTags(codec: KeyText, o: GenOptions): seq<Pair> {
    [("v", VERSION)] + [("k", ED25519)] + [("pk", codec.text(o.pubKey))]
  }

  lemma KeyTextIsLine(codec: KeyText, o: GenOptions)
    ensures KeyRecordText(codec, o) == Line(KeyTags(codec, o))
  {
    var pk := codec.text(o.pubKey);
    LineSnoc([], "v", VERSION);
    assert [] + [("v", VERSION)] == [("v", VERSION)];
    AppendTag([("v", VERSION)], "v=" + VERSION, "k", ED25519);
    AppendTag([("v", VERSION)] + [("k", ED25519)], "v=" + VERSION + ("; " + "k" + "=") + ED25519, "pk", pk);
    assert "; " + "k" + "=" == "; k=" && "; " + "pk" + "=" == "; pk=";
  }

  lemma KeyTextSplits(codec: KeyText, o: GenOptions)
    requires FaithfulKeys(codec) && |o.pubKey| == PUBLIC_KEY_SIZE
    ensures TagsOf(KeyRecordText(codec, o)) == Ok(KeyTags(codec, o))
  {
    KeyTextIsLine(codec, o);
    CleanWords();
    CleanSnoc([("v", VERSION)], "k", ED25519);
    CleanSnoc([("v", VERSION)] + [("k", ED25519)], "pk", codec.text(o.pubKey));
    var tags := KeyTags(codec, o);
    assert tags[0].0 == "v" && tags[1].0 == "k" && tags[2].0 == "pk";
    LineReads(tags);
  }

  lemma KeyValues(codec: KeyText, o: GenOptions, k: string)
    ensures Value(KeyTags(codec, o), k)
         == if k == "pk" then Some(codec.text(o.pubKey)) else if k == "k" then Some(ED25519)
            else if k == "v" then Some(VERSION) else None
  {
    ValueSnoc([], ("v", VERSION), k);
    assert [] + [("v", VERSION)] == [("v", VERSION)];
    ValueSnoc([("v", VERSION)], ("k", ED25519), k);
    ValueSnoc([("v", VERSION)] + [("k", ED25519)], ("pk", codec.text(o.pubKey)), k);
  }

  lemma KeyTagsFault(codec: KeyText, o: GenOptions)
    requires FaithfulKeys(codec) && |o.pubKey| == PUBLIC_KEY_SIZE
    ensures FirstFault(codec, KeyTags(codec, o)).None? <==> codec.isPoint(o.pubKey)
  {
    var tags := KeyTags(codec, o);
    assert tags[0] == ("v", VERSION) && tags[1] == ("k", ED25519) && tags[2] == ("pk", codec.text(o.pubKey));
    FirstFaultAt(codec, tags, if codec.isPoint(o.pubKey) then 3 else 2);
  }

  /** The key record reads back as the key exactly when the key is a curve point; the generator checks only its size. */
  lemma KeyRoundTrips(codec: KeyText, o: GenOptions)
    requires FaithfulKeys(codec) && |o.pubKey| == PUBLIC_KEY_SIZE
    ensures ParseKey(codec, KeyRecordText(codec, o)) == Ok(o.pubKey) <==> codec.isPoint(o.pubKey)
  {
    KeyTextSplits(codec, o);
    KeyValues(codec, o, "v");
    KeyValues(codec, o, "k");
    KeyValues(codec, o, "pk");
    KeyTagsFault(codec, o);
  }

  // ---------- Generation ----------

  /** Generation succeeds exactly when every check passes, the key is a curve point and the mailbox is one the parser
      admits; and the policy part of the round trip can fail on the mailbox alone. */
  lemma GeneratesIff(c: Codecs, o: GenOptions)
    requires FaithfulPrefixes(c.prefix) && FaithfulKeys(c.key)
    ensures Generated(c, o).Ok?
       <==> Complaint(o).None? && c.key.isPoint(o.pubKey) && (o.rua == "" || MailboxText(o.rua))
    ensures Generated(c, o) == Err(PolicyRoundTrip)
       <==> Complaint(o).None? && c.key.isPoint(o.pubKey) && o.rua != "" && !MailboxText(o.rua)
  {
    if Complaint(o).None? {
      KeyRoundTrips(c.key, o);
      PolicyRoundTrips(c.prefix, o);
    } else {
      ComplaintKinds(o);
    }
  }

  lemma ComplaintKinds(o: GenOptions)
    ensures Complaint(o) != Some(PolicyRoundTrip)
  {
    PrefixComplaintKinds(o.prefixes);
  }

  lemma {:induction false} PrefixComplaintKinds(prefixes: seq<Prefix>)
    ensures PrefixComplaint(prefixes) in {None, Some(InvalidPrefix), Some(ListedTwice)}
  {
    if prefixes != [] {
      PrefixComplaintKinds(prefixes[..|prefixes| - 1]);
    }
  }
}
