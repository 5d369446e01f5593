/** What a reader of our result finds in it, word by word, and what a pass written into a message guarantees. */
module ResultMeaning {
  import opened Wrappers
  import opened Text
  import opened Netip
  import opened AddressMeaning
  import opened Record
  import opened Walk
  import opened Soundness
  import opened AuthResults
  import opened Milter

  // ---------- Words ----------

  /** The properties reported about an operator. */
  function Properties(codec: PrefixText, f: Finding): seq<string> {
    ["policy.mode=" + f.mode, "policy.op=" + f.operator,
     "policy.unit=\"" + codec.text(f.unit) + "\"", "policy.observed=\"" + codec.text(f.observedUnit) + "\""]
  }

  /** A result as words: our id, the verdict, and for an operator its properties. */
  function Words(codec: PrefixText, id: string, v: Verdict): seq<string> {
    match v
    case TempError => [id + ";", "sworn=temperror"]
    case Nobody => [id + ";", "sworn=none"]
    case Confirmed(f) =>
      if f.testing
      then [id + ";", "sworn=none", "policy.testing=y", "policy.wouldbe=pass"] + Properties(codec, f)
      else [id + ";", "sworn=pass"] + Properties(codec, f)
  }

  lemma Spaced(a: string, rest: seq<string>)
    requires rest != []
    ensures Join([a] + rest, " ") == a + " " + Join(rest, " ")
  {
    assert ([a] + rest)[1..] == rest;
  }

  lemma FourWords(a: string, b: string, c: string, d: string)
    ensures Join([a, b, c, d], " ") == a + " " + (b + " " + (c + " " + d))
  {
    assert [a, b, c, d] == [a] + ([b] + ([c] + [d]));
    Spaced(a, [b] + ([c] + [d]));
    Spaced(b, [c] + [d]);
    Spaced(c, [d]);
  }

  /** Four words written one behind the other, each with the blank in front of it. */
  lemma FourBlanks(a: string, b: string, c: string, d: string)
    ensures " " + (a + " " + (b + " " + (c + " " + d))) == (" " + a) + (" " + b) + (" " + c) + (" " + d)
  {
  }

  lemma Word(front: string, spaced: string, key: string, value: string)
    requires spaced == " " + key
    ensures front + spaced + value == front + (" " + (key + value))
  {
  }

  lemma QuotedWord(front: string, spaced: string, key: string, value: string)
    requires spaced == " " + key
    ensures front + spaced + value + "\"" == front + (" " + (key + value + "\""))
  {
  }

  lemma ModeAndOperator(mode: string, op: string)
    ensures " policy.mode=" + mode + " policy.op=" + op == (" " + ("policy.mode=" + mode)) + (" " + ("policy.op=" + op))
  {
    Word("", " policy.mode=", "policy.mode=", mode);
    Word(" " + ("policy.mode=" + mode), " policy.op=", "policy.op=", op);
  }

  lemma Units(front: string, unit: string, observed: string)
    ensures front + " policy.unit=\"" + unit + "\"" + " policy.observed=\"" + observed + "\""
         == front + (" " + ("policy.unit=\"" + unit + "\"")) + (" " + ("policy.observed=\"" + observed + "\""))
  {
    QuotedWord(front, " policy.unit=\"", "policy.unit=\"", unit);
    QuotedWord(front + (" " + ("policy.unit=\"" + unit + "\"")), " policy.observed=\"", "policy.observed=\"", observed);
  }

  lemma PropertiesText(codec: PrefixText, f: Finding)
    ensures Detail(codec, f) == " " + Join(Properties(codec, f), " ")
  {
    var ps := Properties(codec, f);
    FourWords(ps[0], ps[1], ps[2], ps[3]);
    FourBlanks(ps[0], ps[1], ps[2], ps[3]);
    ModeAndOperator(f.mode, f.operator);
    Units(" policy.mode=" + f.mode + " policy.op=" + f.operator, codec.text(f.unit), codec.text(f.observedUnit));
  }

  lemma Lead(id: string, verdict: string, properties: seq<string>)
    requires properties != []
    ensures Join([id + ";", verdict] + properties, " ") == id + "; " + verdict + (" " + Join(properties, " "))
  {
    assert [id + ";", verdict] + properties == [id + ";"] + ([verdict] + properties);
    Spaced(id + ";", [verdict] + properties);
    Spaced(verdict, properties);
    LeadText(id, verdict, Join(properties, " "));
  }

  lemma LeadText(id: string, verdict: string, tail: string)
    ensures id + ";" + " " + (verdict + " " + tail) == id + "; " + verdict + (" " + tail)
    ensures id + ";" + " " + verdict == id + "; " + verdict
  {
  }

  lemma TestingLead(id: string, verdict: string, a: string, b: string, properties: seq<string>)
    requires properties != []
    ensures Join([id + ";", verdict, a, b] + properties, " ")
         == id + "; " + verdict + (" " + a + " " + b) + (" " + Join(properties, " "))
  {
    var rest := [a] + ([b] + properties);
    assert [id + ";", verdict, a, b] + properties == [id + ";", verdict] + rest;
    Lead(id, verdict, rest);
    Spaced(a, [b] + properties);
    Spaced(b, properties);
    Flatten(id + "; " + verdict, a, b, Join(properties, " "));
  }

  lemma Flatten(front: string, a: string, b: string, tail: string)
    ensures front + (" " + (a + " " + (b + " " + tail))) == front + (" " + a + " " + b) + (" " + tail)
  {
  }

  lemma ShortText(id: string, word: string)
    ensures Join([id + ";", "sworn=" + word], " ") == id + METHOD_LABEL + word
  {
    assert [id + ";", "sworn=" + word] == [id + ";"] + ["sworn=" + word];
    Spaced(id + ";", ["sworn=" + word]);
    LeadText(id, "sworn=" + word, "");
    Headed(id, word, "");
  }

  /** The text before the remark, whatever the word. */
  lemma Headed(id: string, word: string, remark: string)
    ensures id + METHOD_LABEL + word + remark == id + "; " + ("sworn=" + word) + remark
  {
    Regroup(id + "; ", "sworn=", word);
    Regroup(id, "; ", "sworn=");
    assert METHOD_LABEL == "; " + "sworn=";
  }

  lemma PassingWords(codec: PrefixText, id: string, f: Finding)
    requires !f.testing
    ensures ResultText(codec, id, Confirmed(f)) == Join(Words(codec, id, Confirmed(f)), " ")
  {
    PropertiesText(codec, f);
    Lead(id, "sworn=pass", Properties(codec, f));
    Headed(id, "pass", Detail(codec, f));
    assert "sworn=" + "pass" == "sworn=pass";
    assert Remark(codec, Confirmed(f)) == Detail(codec, f);
  }

  lemma TestingRemark(codec: PrefixText, id: string, f: Finding)
    requires f.testing
    ensures ResultText(codec, id, Confirmed(f)) == id + "; " + "sworn=none" + WOULD_BE + Detail(codec, f)
  {
    Headed(id, "none", WOULD_BE + Detail(codec, f));
    assert "sworn=" + "none" == "sworn=none";
    Regroup(id + "; " + "sworn=none", WOULD_BE, Detail(codec, f));
  }

  lemma TestedWords(codec: PrefixText, id: string, f: Finding)
    requires f.testing
    ensures ResultText(codec, id, Confirmed(f)) == Join(Words(codec, id, Confirmed(f)), " ")
  {
    TestingRemark(codec, id, f);
    PropertiesText(codec, f);
    TestingLead(id, "sworn=none", "policy.testing=y", "policy.wouldbe=pass", Properties(codec, f));
    TestingWords();
  }

  /** The result is these words with single blanks between them. */
  lemma ResultIsWords(codec: PrefixText, id: string, v: Verdict)
    ensures ResultText(codec, id, v) == Join(Words(codec, id, v), " ")
  {
    match v
    case TempError => ShortText(id, "temperror");
    case Nobody => ShortText(id, "none");
    case Confirmed(f) =>
      if f.testing {
        TestedWords(codec, id, f);
      } else {
        PassingWords(codec, id, f);
      }
  }

  lemma TestingWords()
    ensures WOULD_BE == " " + "policy.testing=y" + " " + "policy.wouldbe=pass"
  {
  }

  lemma WordsWithoutBlanks(codec: PrefixText, id: string, v: Verdict)
    requires ' ' !in id
    requires v.Confirmed? ==> forall p | p in Properties(codec, v.finding) :: ' ' !in p
    ensures forall w | w in Words(codec, id, v) :: ' ' !in w
  {
    var ws := Words(codec, id, v);
    assert ' ' !in "sworn=pass" && ' ' !in "sworn=none" && ' ' !in "sworn=temperror";
    assert ' ' !in "policy.testing=y" && ' ' !in "policy.wouldbe=pass";
    assert ws[0] == id + ";" && ' ' !in id + ";";
  }

  /** Split at its blanks a result is those words again, when no part of it holds a blank. */
  lemma ResultReads(codec: PrefixText, id: string, v: Verdict)
    requires ' ' !in id
    requires v.Confirmed? ==> forall p | p in Properties(codec, v.finding) :: ' ' !in p
    ensures Split(ResultText(codec, id, v), ' ') == Words(codec, id, v)
  {
    ResultIsWords(codec, id, v);
    WordsWithoutBlanks(codec, id, v);
    SplitJoin(Words(codec, id, v), ' ');
  }

  // ---------- What a pass guarantees ----------

  /** The first word is our id and the second the status, whatever follows. */
  lemma SecondWord(codec: PrefixText, id: string, v: Verdict)
    requires ' ' !in id
    ensures [id + ";", "sworn=" + Status(v)] <= Split(ResultText(codec, id, v), ' ')
  {
    var rest := "sworn=" + Status(v) + Remark(codec, v);
    HeadText(id, Status(v), Remark(codec, v));
    SplitCons(id + ";", ' ', rest);
    StatusWord(Status(v), Remark(codec, v), v);
  }

  lemma HeadText(id: string, status: string, remark: string)
    ensures id + METHOD_LABEL + status + remark == id + ";" + [' '] + ("sworn=" + status + remark)
  {
    assert METHOD_LABEL == ";" + [' '] + "sworn=";
  }

  lemma StatusWord(status: string, remark: string, v: Verdict)
    requires status == Status(v) && (remark == "" || remark[0] == ' ')
    ensures Split("sworn=" + status + remark, ' ')[0] == "sworn=" + status
  {
    assert ' ' !in "sworn=pass" && ' ' !in "sworn=none" && ' ' !in "sworn=temperror";
    var word := "sworn=" + status;
    if remark == "" {
      assert word + remark == word;
      SplitNone(word, ' ');
    } else {
      assert remark == [' '] + remark[1..];
      Regroup(word, [' '], remark[1..]);
      SplitCons(word, ' ', remark[1..]);
    }
  }

  lemma PassWord(codec: PrefixText, id: string, v: Verdict)
    requires ' ' !in id
    ensures [id + ";", "sworn=pass"] <= Split(ResultText(codec, id, v), ' ') <==> v.Confirmed? && !v.finding.testing
  {
    SecondWord(codec, id, v);
    StatusWords(v);
    SameSecond(id + ";", "sworn=" + Status(v), "sworn=pass", Split(ResultText(codec, id, v), ' '));
  }

  lemma SameSecond(a: string, b: string, c: string, words: seq<string>)
    requires [a, b] <= words
    ensures [a, c] <= words <==> b == c
  {
    assert words[0] == [a, b][0] && words[1] == [a, b][1];
    if [a, c] <= words {
      assert words[1] == [a, c][1];
    }
  }

  lemma StatusWords(v: Verdict)
    ensures "sworn=" + Status(v) == "sworn=pass" <==> v.Confirmed? && !v.finding.testing
  {
    assert "sworn=" + "pass" == "sworn=pass";
    assert ("sworn=" + Status(v))[6] == Status(v)[0];
  }

  /** The second word of what the milter writes is a pass exactly when the connection had an address for which
      discovery, without a public suffix list, confirmed an operator that is not testing. */
  lemma PassIff(c: Config, source: Option<Addr>, net: Network)
    requires ' ' !in c.authservId
    ensures [c.authservId + ";", "sworn=pass"] <= Split(Stamp(c, source, net), ' ')
       <==> && source.Some?
            && var v := Stopped(FullRun(Setup(c.codec, net, None, c.ineligible), source.value)).verdict;
               v.Confirmed? && !v.finding.testing
  {
    var v := if source.Some? then Stopped(FullRun(SetupFor(c, net), source.value)).verdict else Nobody;
    PassWord(c.codec, c.authservId, v);
  }

  /** Then the source is IPv6 without a zone, inside 2000::/3, outside 2001::/32, 2002::/16 and every prefix the
      receiver lists. */
  lemma PassNeedsSource(c: Config, source: Option<Addr>, net: Network)
    requires ' ' !in c.authservId && [c.authservId + ";", "sworn=pass"] <= Split(Stamp(c, source, net), ' ')
    ensures source.Some? && source.value.V6? && !source.value.zoned
    ensures InUnicast(source.value.v6) && !InTeredo(source.value.v6) && !InSixToFour(source.value.v6)
    ensures forall i | 0 <= i < |c.ineligible| :: !c.ineligible[i].Contains(source.value)
  {
    PassIff(c, source, net);
    DiscoverySound(SetupFor(c, net), source.value);
    EligibleIff(c.ineligible, source.value);
  }
}
