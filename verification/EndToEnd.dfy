/** What the generator emits, discovery finds. */
module EndToEnd {
  import opened Wrappers
  import opened Text
  import opened Netip
  import opened AddressRules
  import opened Names
  import opened NamesMeaning
  import opened Record
  import opened Resolver
  import opened Walk
  import opened Budget
  import opened Soundness
  import opened Genrecord
  import opened RoundTrip

  // ---------- A network that serves exactly the emitted records ----------

  /** DNS names compare without regard to letter case. */
  predicate SameName(qname: string, asked: string) {
    EqualFold(Fqdn(qname), asked)
  }

  function Answers(records: seq<DnsRecord>, name: string): seq<string> {
    if records == [] then [] else
    var last := records[|records| - 1];
    Answers(records[..|records| - 1], name) + (if SameName(last.qname, name) then [last.value] else [])
  }

  function Published(rs: RecordSet): seq<DnsRecord> {
    rs.pointers + [rs.policy] + [rs.key]
  }

  function TxtReply(rs: RecordSet, asked: seq<Query>): Reply<seq<string>> {
    if asked == [] || !asked[|asked| - 1].Txt? then NotFound else
    var values := Answers(Published(rs), asked[|asked| - 1].name);
    if values == [] then NotFound else Reply.Found(values)
  }

  function Serving(rs: RecordSet): Network {
    Network(asked => TxtReply(rs, asked), _ => NotFound, _ => NotFound)
  }

  // ---------- Names ----------

  lemma FqdnChar(s: string, i: nat)
    requires i + 1 < |s|
    ensures i < |Fqdn(s)| && Fqdn(s)[i] == s[i]
  {
  }

  /** Names that differ in a letter-insensitive way at one place are different names. */
  lemma DifferAt(qname: string, name: string, i: nat)
    requires i + 1 < |qname| && i + 1 < |name| && LowerChar(qname[i]) != LowerChar(name[i])
    ensures !SameName(qname, Fqdn(name))
  {
    FqdnChar(qname, i);
    FqdnChar(name, i);
    assert ToLower(Fqdn(qname))[i] == LowerChar(qname[i]);
    assert ToLower(Fqdn(name))[i] == LowerChar(name[i]);
  }

  lemma {:induction false} LabelsLower(a: Addr, k: nat)
    requires a.V6? && k <= 32
    ensures ToLower(NibbleLabels(a, k)) == NibbleLabels(a, k)
  {
    if k > 0 {
      LabelsLower(a, k - 1);
      var c := HexChar(Nibble(a, k - 1));
      HexLower(Nibble(a, k - 1));
      ToLowerConcat("." + [c], NibbleLabels(a, k - 1));
      assert ToLower("." + [c]) == "." + [c];
    }
  }

  lemma HexLower(d: nat)
    requires d < 16
    ensures LowerChar(HexChar(d)) == HexChar(d)
  {
  }

  lemma ReverseNameText(a: Addr, n: int)
    requires HasReverseName(a, n)
    ensures var s := ReverseName(a, n).value;
            && |s| > 16 && s[0] == '_' && s[1] == 's' && TrimDot(s) == s && ToLower(s) == s
  {
    var s := ReverseName(a, n).value;
    LabelsLower(a, n / 4);
    ToLowerConcat(DNS_LABEL + NibbleLabels(a, n / 4), ARPA);
    ToLowerConcat(DNS_LABEL, NibbleLabels(a, n / 4));
    assert ToLower(DNS_LABEL) == DNS_LABEL && ToLower(ARPA) == ARPA;
    assert s[|s| - 1] == ARPA[|ARPA| - 1] == 'a';
  }

  /** Two reverse-tree names are the same name only when they are the same text. */
  lemma ReverseNamesCompare(a: Addr, m: int, b: Addr, n: int)
    requires HasReverseName(a, m) && HasReverseName(b, n)
    ensures SameName(ReverseName(a, m).value, Fqdn(ReverseName(b, n).value))
       <==> ReverseName(a, m) == ReverseName(b, n)
  {
    ReverseNameText(a, m);
    ReverseNameText(b, n);
    var s, t := ReverseName(a, m).value, ReverseName(b, n).value;
    ToLowerConcat(s, ".");
    ToLowerConcat(t, ".");
    assert ToLower(".") == ".";
    if s + "." == t + "." {
      assert s == (s + ".")[..|s|] && t == (t + ".")[..|t|];
    }
  }

  // ---------- What is answered ----------

  lemma AnswersSnoc(records: seq<DnsRecord>, r: DnsRecord, name: string)
    ensures Answers(records + [r], name)
         == if SameName(r.qname, name) then Answers(records, name) + [r.value] else Answers(records, name)
  {
    var longer := records + [r];
    assert longer[..|longer| - 1] == records;
  }

  /** All that step 1 asks of a source before it queries. */
  predicate Ordinary(source: Addr) { source.Is6() && !source.Is4In6() && !source.HasZone() }

  lemma OrdinaryHasNames(source: Addr)
    requires Ordinary(source)
    ensures HasReverseName(source, 48) && HasReverseName(source, 64)
  {
  }

  /** Whether a listed prefix of length n holds the source. */
  predicate Lists(prefixes: seq<Prefix>, source: Addr, n: int) {
    exists p | p in prefixes :: p.bits == n && p.Contains(source)
  }

  lemma ValidHasName(p: Prefix)
    requires ValidatePrefix(p) && (p.bits == 48 || p.bits == 64)
    ensures HasReverseName(p.addr, p.bits)
  {
    assert p.Contains(p.addr);
    ValidPrefixHoldsEligible(p, p.addr);
  }

  /** Canonical prefixes of one length that hold the same address are one prefix. */
  lemma SamePrefix(p: Prefix, q: Prefix, a: Addr)
    requires ValidatePrefix(p) && ValidatePrefix(q) && p.bits == q.bits && p.Contains(a) && q.Contains(a)
    ensures p == q
  {
    assert p.addr.V6? && q.addr.V6?;
  }

  /** A pointer answers discovery's question about a source exactly when its prefix has that length and holds the
      source. */
  lemma PointerMatches(p: Prefix, source: Addr, n: int)
    requires ValidatePrefix(p) && (p.bits == 48 || p.bits == 64) && (n == 48 || n == 64) && Ordinary(source)
    ensures HasReverseName(p.addr, p.bits) && HasReverseName(source, n)
    ensures SameName(ReverseName(p.addr, p.bits).value, Fqdn(ReverseName(source, n).value))
       <==> p.bits == n && p.Contains(source)
  {
    ValidHasName(p);
    ReverseNamesCompare(p.addr, p.bits, source, n);
    ReverseNamesIdentify(p.addr, p.bits, source, n);
    HoldsIffTop(p, source);
  }

  lemma HoldsIffTop(p: Prefix, source: Addr)
    requires ValidatePrefix(p) && Ordinary(source)
    ensures p.addr.V6? && (p.Contains(source) <==> p.addr.Top(p.bits) == source.Top(p.bits))
  {
  }

  predicate AllValidDistinct(prefixes: seq<Prefix>) {
    && (forall p | p in prefixes :: ValidatePrefix(p))
    && forall i, j | 0 <= i < j < |prefixes| :: prefixes[i] != prefixes[j]
  }

  lemma PointersSnoc(prefixes: seq<Prefix>, p: Prefix, domain: string)
    ensures PointersFor(prefixes + [p], domain)
         == if (p.bits == 48 || p.bits == 64) && ReverseName(p.addr, p.bits).Some?
            then PointersFor(prefixes, domain) + [DnsRecord(ReverseName(p.addr, p.bits).value, PointerText(domain))]
            else PointersFor(prefixes, domain)
  {
    var longer := prefixes + [p];
    assert longer[..|longer| - 1] == prefixes;
  }

  lemma UnsnocPrefixes(prefixes: seq<Prefix>) returns (init: seq<Prefix>, p: Prefix)
    requires prefixes != [] && AllValidDistinct(prefixes)
    ensures prefixes == init + [p] && AllValidDistinct(init) && ValidatePrefix(p) && p !in init
  {
    var n := |prefixes| - 1;
    init, p := prefixes[..n], prefixes[n];
    assert forall i | 0 <= i < n :: init[i] == prefixes[i];
    assert p in prefixes;
  }

  /** Asked for the pointer of an enclosing prefix of an eligible source, the emitted pointers answer once, when that
      very prefix is listed, and otherwise not at all. */
  lemma {:induction false} PointerAnswers(prefixes: seq<Prefix>, domain: string, source: Addr, n: int)
    requires AllValidDistinct(prefixes) && (n == 48 || n == 64) && Ordinary(source)
    requires HasReverseName(source, n)
    ensures Answers(PointersFor(prefixes, domain), Fqdn(ReverseName(source, n).value))
         == if Lists(prefixes, source, n) then [PointerText(domain)] else []
    decreases |prefixes|
  {
    if prefixes != [] {
      var init, p := UnsnocPrefixes(prefixes);
      PointerAnswers(init, domain, source, n);
      PointersSnoc(init, p, domain);
      ListsSnoc(init, p, source, n);
      if p.bits == 48 || p.bits == 64 {
        PointerMatches(p, source, n);
        AnswersSnoc(PointersFor(init, domain), DnsRecord(ReverseName(p.addr, p.bits).value, PointerText(domain)),
                    Fqdn(ReverseName(source, n).value));
      }
    }
  }

  /** A further listed prefix of the length asked for cannot hold the same source as an earlier one. */
  lemma ListsSnoc(prefixes: seq<Prefix>, p: Prefix, source: Addr, n: int)
    requires AllValidDistinct(prefixes) && ValidatePrefix(p) && p !in prefixes
    ensures Lists(prefixes + [p], source, n) <==> Lists(prefixes, source, n) || (p.bits == n && p.Contains(source))
    ensures !(Lists(prefixes, source, n) && p.bits == n && p.Contains(source))
  {
    var longer := prefixes + [p];
    assert p == longer[|prefixes|];
    assert forall q | q in prefixes :: q in longer;
    if p.bits == n && p.Contains(source) {
      forall q | q in prefixes ensures !(q.bits == n && q.Contains(source)) {
        if q.bits == n && q.Contains(source) {
          SamePrefix(p, q, source);
        }
      }
    }
  }

  // ---------- The other two records ----------

  const POLICY_NAME := "_prefixes." + DNS_LABEL + "."

  lemma PolicyName()
    ensures POLICY_NAME == POLICY_PREFIX == "_prefixes._sworn."
  {
  }

  lemma KeyQName(selector: string, domain: string)
    requires ValidSelector(selector)
    ensures var q := selector + "." + DNS_LABEL + "." + domain;
            |q| > 8 && LowerChar(q[0]) != '_'
  {
    var q := selector + "." + DNS_LABEL + "." + domain;
    assert q[0] == selector[0] && IsLdh(selector[0]);
  }

  lemma PolicyNameHead(domain: string)
    requires domain != ""
    ensures var q := POLICY_NAME + domain;
            |q| > 16 && q[0] == '_' && q[1] == 'p'
  {
    PolicyName();
  }

  /** Neither the policy name nor the key name is the name of a pointer. */
  lemma PointerNameApart(o: GenOptions, source: Addr, n: int)
    requires ValidDomain(o.domain) && ValidSelector(o.selector) && HasReverseName(source, n)
    ensures var name := Fqdn(ReverseName(source, n).value);
            && !SameName(POLICY_NAME + o.domain, name)
            && !SameName(o.selector + "." + DNS_LABEL + "." + o.domain, name)
  {
    ReverseNameText(source, n);
    KeyQName(o.selector, o.domain);
    PolicyNameHead(o.domain);
    DifferAt(POLICY_NAME + o.domain, ReverseName(source, n).value, 1);
    DifferAt(o.selector + "." + DNS_LABEL + "." + o.domain, ReverseName(source, n).value, 0);
  }

  lemma {:induction false} PointersApart(prefixes: seq<Prefix>, domain: string, name: string)
    requires |name| > 3 && LowerChar(name[1]) != 's'
    ensures Answers(PointersFor(prefixes, domain), Fqdn(name)) == []
    decreases |prefixes|
  {
    if prefixes != [] {
      var n := |prefixes| - 1;
      var init, p := prefixes[..n], prefixes[n];
      assert prefixes == init + [p];
      PointersApart(init, domain, name);
      PointersSnoc(init, p, domain);
      if (p.bits == 48 || p.bits == 64) && ReverseName(p.addr, p.bits).Some? {
        var r := DnsRecord(ReverseName(p.addr, p.bits).value, PointerText(domain));
        ReverseNameText(p.addr, p.bits);
        DifferAt(r.qname, name, 1);
        AnswersSnoc(PointersFor(init, domain), r, Fqdn(name));
      }
    }
  }

  lemma LowerTail(a: string, b: string, c: string)
    requires ToLower(b) == ToLower(c)
    ensures EqualFold(a + b + ".", a + c + ".")
  {
    ToLowerConcat(a + b, ".");
    ToLowerConcat(a + c, ".");
    ToLowerConcat(a, b);
    ToLowerConcat(a, c);
  }

  lemma PolicyNameSame(domain: string)
    requires ValidDomain(domain)
    ensures SameName(POLICY_NAME + domain, Fqdn(POLICY_NAME + ToLower(domain)))
  {
    LowerDomain(domain);
    LastLabel(domain);
    LastLabel(ToLower(domain));
    ToLowerIdempotent(domain);
    LowerTail(POLICY_NAME, domain, ToLower(domain));
    NoDot(POLICY_NAME, domain);
    NoDot(POLICY_NAME, ToLower(domain));
  }

  lemma NoDot(a: string, b: string)
    requires b != "" && b[|b| - 1] != '.'
    ensures Fqdn(a + b) == a + b + "."
  {
  }

  // ---------- Discovery against the emitted records ----------

  lemma PublishedAnswers(rs: RecordSet, name: string)
    ensures Answers(Published(rs), name)
         == Answers(rs.pointers, name)
            + (if SameName(rs.policy.qname, name) then [rs.policy.value] else [])
            + (if SameName(rs.key.qname, name) then [rs.key.value] else [])
  {
    AnswersSnoc(rs.pointers, rs.policy, name);
    AnswersSnoc(rs.pointers + [rs.policy], rs.key, name);
  }

  lemma TxtReplyIs(rs: RecordSet, asked: seq<Query>, name: string)
    ensures var values := Answers(Published(rs), name);
            TxtReply(rs, asked + [Txt(name)]) == if values == [] then NotFound else Reply.Found(values)
  {
  }

  /** What the checks leave of the options as far as names are concerned. */
  predicate Listed(o: GenOptions) {
    && ValidDomain(o.domain) && ValidSelector(o.selector)
    && 32 <= o.unit <= 64 && AllValidDistinct(o.prefixes)
  }

  lemma CheckedIsListed(o: GenOptions)
    requires Complaint(o).None?
    ensures Listed(o)
  {
    ComplaintNone(o.prefixes);
  }

  lemma PointerValues(c: Codecs, o: GenOptions, source: Addr, n: int)
    requires Listed(o) && Ordinary(source) && (n == 48 || n == 64) && HasReverseName(source, n)
    ensures Answers(Published(RecordsFor(c, o)), Fqdn(ReverseName(source, n).value))
         == if Lists(o.prefixes, source, n) then [PointerText(o.domain)] else []
  {
    PointerAnswers(o.prefixes, o.domain, source, n);
    PointerNameApart(o, source, n);
    PublishedAnswers(RecordsFor(c, o), Fqdn(ReverseName(source, n).value));
  }

  lemma PointerReply(c: Codecs, o: GenOptions, source: Addr, n: int, asked: seq<Query>)
    requires Listed(o) && Ordinary(source) && (n == 48 || n == 64) && HasReverseName(source, n)
    ensures TxtReply(RecordsFor(c, o), asked + [PointerQuery(source, n)])
         == if Lists(o.prefixes, source, n) then Reply.Found([PointerText(o.domain)]) else NotFound
  {
    PointerValues(c, o, source, n);
    TxtReplyIs(RecordsFor(c, o), asked, Fqdn(ReverseName(source, n).value));
  }

  lemma PointerServed(c: Codecs, o: GenOptions, e: Setup, source: Addr, n: nat, asked: seq<Query>)
    requires Listed(o) && e.net == Serving(RecordsFor(c, o)) && Ordinary(source) && (n == 48 || n == 64)
    requires HasReverseName(source, n)
    ensures e.net.txt(asked + [PointerQuery(source, n)])
         == if Lists(o.prefixes, source, n) then Reply.Found([PointerText(o.domain)]) else NotFound
  {
    PointerReply(c, o, source, n, asked);
  }

  lemma PolicyAnswers(c: Codecs, o: GenOptions)
    requires Listed(o)
    ensures Answers(Published(RecordsFor(c, o)), Fqdn(POLICY_NAME + ToLower(o.domain))) == [PolicyText(c.prefix, o)]
  {
    var rs := RecordsFor(c, o);
    var plain := POLICY_NAME + ToLower(o.domain);
    PolicyNameHead(ToLower(o.domain));
    PointersApart(o.prefixes, o.domain, plain);
    PolicyNameSame(o.domain);
    KeyQName(o.selector, o.domain);
    DifferAt(rs.key.qname, plain, 0);
    PublishedAnswers(rs, Fqdn(plain));
  }

  lemma PolicyReply(c: Codecs, o: GenOptions, asked: seq<Query>)
    requires Listed(o)
    ensures TxtReply(RecordsFor(c, o), asked + [PolicyQuery(ToLower(o.domain))])
         == Reply.Found([PolicyText(c.prefix, o)])
  {
    ToLowerIdempotent(o.domain);
    PolicyName();
    PolicyAnswers(c, o);
    TxtReplyIs(RecordsFor(c, o), asked, Fqdn(POLICY_NAME + ToLower(o.domain)));
  }

  lemma OneRecord(txt: string)
    requires RECORD_PREFIX <= txt
    ensures SingleRecord([txt]) == Some(txt)
  {
    assert [txt][..0] == [];
    assert SwornRecords([txt]) == SwornRecords([]) + [txt];
  }

  lemma PointerAnswerNames(domain: string)
    requires ValidDomain(domain)
    ensures PointerDomain([PointerText(domain)]) == Some(ToLower(domain))
  {
    assert PointerText(domain) == RECORD_PREFIX + "; d=" + domain;
    OneRecord(PointerText(domain));
    PointerTextReads(domain);
  }

  lemma PolicyStartsRight(codec: PrefixText, o: GenOptions)
    requires o.unit >= 0
    ensures RECORD_PREFIX <= PolicyText(codec, o)
  {
    var base := "v=" + VERSION + "; p=" + PrefixList(codec, o.prefixes) + "; u=" + Itoa(o.unit);
    assert RECORD_PREFIX <= base;
  }

  /** What discovery reports for a source under an emitted policy. */
  function Expected(o: GenOptions, source: Addr, best: Prefix): Finding
    requires source.V6? && 0 <= o.unit <= 64
  {
    Finding(ToLower(o.domain), Enclosing(source, o.unit), "dns", Enclosing(source, 64), best, o.testing)
  }

  lemma PolicyConfirms(c: Codecs, o: GenOptions, source: Addr, best: Prefix)
    requires FaithfulPrefixes(c.prefix) && Complaint(o).None? && (o.rua == "" || MailboxText(o.rua))
    requires source.V6? && LongestMatch(o.prefixes, source) == Some(best)
    ensures PolicyVerdict(c.prefix, ToLower(o.domain), source, Reply.Found([PolicyText(c.prefix, o)]))
         == Confirmed(Expected(o, source, best))
  {
    PolicyStartsRight(c.prefix, o);
    OneRecord(PolicyText(c.prefix, o));
    PolicyRoundTrips(c.prefix, o);
  }

  /** One pointer whose operator confirms ends the walk. */
  lemma ConfirmingStep(e: Setup, source: Addr, n: nat, rest: seq<nat>, asked: seq<Query>, txts: seq<string>, d: string)
    requires source.V6? && HasReverseName(source, n)
    requires e.net.txt(asked + [PointerQuery(source, n)]) == Reply.Found(txts) && PointerDomain(txts) == Some(d)
    requires ConfirmRun(e, d, source, asked + [PointerQuery(source, n)]).verdict.Confirmed?
    ensures PointerRun(e, source, [n] + rest, asked) == ConfirmRun(e, d, source, asked + [PointerQuery(source, n)])
  {
    assert ([n] + rest)[0] == n;
  }

  lemma PointerConfirms(
    c: Codecs, o: GenOptions, e: Setup, source: Addr, n: nat, rest: seq<nat>, asked: seq<Query>, f: Finding)
    requires Listed(o) && e.net == Serving(RecordsFor(c, o)) && Ordinary(source)
    requires (n == 48 || n == 64) && HasReverseName(source, n) && Lists(o.prefixes, source, n)
    requires var d := ToLower(o.domain);
             forall h :: ConfirmRun(e, d, source, h) == Run(Confirmed(f), h + [PolicyQuery(d)])
    ensures var r := PointerRun(e, source, [n] + rest, asked);
            r.verdict == Confirmed(f) && |r.asked| == |asked| + 2
  {
    var h := asked + [PointerQuery(source, n)];
    PointerServed(c, o, e, source, n, asked);
    PointerAnswerNames(o.domain);
    assert ConfirmRun(e, ToLower(o.domain), source, h).verdict == Confirmed(f);
    ConfirmingStep(e, source, n, rest, asked, [PointerText(o.domain)], ToLower(o.domain));
  }

  /** The policy lookup for the emitted domain confirms. */
  lemma PolicyAccepts(c: Codecs, o: GenOptions, e: Setup, source: Addr, asked: seq<Query>, best: Prefix)
    requires FaithfulPrefixes(c.prefix) && Complaint(o).None? && (o.rua == "" || MailboxText(o.rua))
    requires e.codec == c.prefix && e.net == Serving(RecordsFor(c, o)) && source.V6?
    requires LongestMatch(o.prefixes, source) == Some(best)
    ensures var d := ToLower(o.domain);
            ConfirmRun(e, d, source, asked) == Run(Confirmed(Expected(o, source, best)), asked + [PolicyQuery(d)])
  {
    CheckedIsListed(o);
    LowerDomain(o.domain);
    ToLowerIdempotent(o.domain);
    PolicyReply(c, o, asked);
    PolicyConfirms(c, o, source, best);
  }

  lemma PointerSkips(c: Codecs, o: GenOptions, e: Setup, source: Addr, n: nat, rest: seq<nat>, asked: seq<Query>)
    requires Listed(o) && e.net == Serving(RecordsFor(c, o)) && Ordinary(source)
    requires (n == 48 || n == 64) && HasReverseName(source, n) && !Lists(o.prefixes, source, n)
    ensures PointerRun(e, source, [n] + rest, asked) == PointerRun(e, source, rest, asked + [PointerQuery(source, n)])
  {
    assert ([n] + rest)[1..] == rest;
    PointerServed(c, o, e, source, n, asked);
  }

  /** Step 1 against the emitted records, when the policy lookup confirms whatever was asked before. */
  lemma PointersFind(c: Codecs, o: GenOptions, e: Setup, source: Addr, f: Finding)
    requires Listed(o) && e.net == Serving(RecordsFor(c, o)) && Ordinary(source)
    requires Lists(o.prefixes, source, 48) || Lists(o.prefixes, source, 64)
    requires var d := ToLower(o.domain);
             forall h :: ConfirmRun(e, d, source, h) == Run(Confirmed(f), h + [PolicyQuery(d)])
    ensures var r := PointerRun(e, source, POINTER_LENGTHS, []);
            r.verdict == Confirmed(f) && |r.asked| <= 3
  {
    assert POINTER_LENGTHS == [64] + [48];
    OrdinaryHasNames(source);
    if Lists(o.prefixes, source, 64) {
      PointerConfirms(c, o, e, source, 64, [48], [], f);
    } else {
      PointerSkips(c, o, e, source, 64, [48], []);
      assert [48] == [48] + [];
      PointerConfirms(c, o, e, source, 48, [], [] + [PointerQuery(source, 64)], f);
    }
  }

  lemma EligibleIsOrdinary(ineligible: seq<Prefix>, source: Addr)
    requires Eligible(ineligible, source)
    ensures Ordinary(source)
  {
  }

  lemma FoundInStepOne(e: Setup, source: Addr)
    requires Eligible(e.ineligible, source)
    requires var p := PointerRun(e, source, POINTER_LENGTHS, []); p.verdict.Confirmed? && |p.asked| <= 3
    ensures Stopped(FullRun(e, source)) == PointerRun(e, source, POINTER_LENGTHS, [])
  {
  }

  /** Step 1 against the emitted records for a source they do not list. */
  lemma PointersMiss(c: Codecs, o: GenOptions, e: Setup, source: Addr)
    requires Listed(o) && e.net == Serving(RecordsFor(c, o)) && Ordinary(source)
    requires !Lists(o.prefixes, source, 48) && !Lists(o.prefixes, source, 64)
    ensures HasReverseName(source, 48) && HasReverseName(source, 64)
    ensures PointerRun(e, source, POINTER_LENGTHS, [])
         == Run(Nobody, [PointerQuery(source, 64), PointerQuery(source, 48)])
  {
    OrdinaryHasNames(source);
    assert POINTER_LENGTHS == [64] + [48] && [48] == [48] + [];
    PointerSkips(c, o, e, source, 64, [48], []);
    PointerSkips(c, o, e, source, 48, [], [] + [PointerQuery(source, 64)]);
    TwoQueries(PointerQuery(source, 64), PointerQuery(source, 48));
  }

  lemma TwoQueries(p: Query, q: Query)
    ensures [] + [p] + [q] == [p, q]
  {
  }

  /** A network that serves the emitted records alone has no PTR record. */
  lemma NoHost(e: Setup, source: Addr, rs: RecordSet, asked: seq<Query>)
    requires e.net == Serving(rs) && source.V6?
    ensures HostRun(e, source, asked) == Run(Nobody, asked + [Ptr(source)])
  {
  }

  lemma EmittedIsSilent(c: Codecs, o: GenOptions, e: Setup, source: Addr)
    requires Listed(o) && e.net == Serving(RecordsFor(c, o)) && Eligible(e.ineligible, source)
    requires !Lists(o.prefixes, source, 48) && !Lists(o.prefixes, source, 64)
    ensures var r := Stopped(FullRun(e, source)); r.verdict.Nobody? && |r.asked| == 3
  {
    EligibleIsOrdinary(e.ineligible, source);
    PointersMiss(c, o, e, source);
    FullRunParts(e, source);
    NoHost(e, source, RecordsFor(c, o), PointerRun(e, source, POINTER_LENGTHS, []).asked);
  }

  lemma ListedIsFound(c: Codecs, o: GenOptions, e: Setup, source: Addr)
    requires FaithfulPrefixes(c.prefix) && Complaint(o).None? && (o.rua == "" || MailboxText(o.rua))
    requires e.codec == c.prefix && e.net == Serving(RecordsFor(c, o)) && Eligible(e.ineligible, source)
    requires Lists(o.prefixes, source, 48) || Lists(o.prefixes, source, 64)
    ensures source.V6? && 32 <= o.unit <= 64
    ensures LongestMatch(o.prefixes, source).Some?
    ensures var r := Stopped(FullRun(e, source));
            && r.verdict == Confirmed(Expected(o, source, LongestMatch(o.prefixes, source).value))
            && |r.asked| <= 3
  {
    CheckedIsListed(o);
    EligibleIsOrdinary(e.ineligible, source);
    LongestMatchIs(o.prefixes, source);
    var best := LongestMatch(o.prefixes, source).value;
    forall h ensures var d := ToLower(o.domain);
                     ConfirmRun(e, d, source, h) == Run(Confirmed(Expected(o, source, best)), h + [PolicyQuery(d)]) {
      PolicyAccepts(c, o, e, source, h, best);
    }
    PointersFind(c, o, e, source, Expected(o, source, best));
    FoundInStepOne(e, source);
  }

  /** For every input the generator accepts and every eligible source, against a network that serves exactly the emitted
      records: when the source lies in a listed /48 or /64, discovery confirms the lower-cased domain with the longest
      listed match, the chosen unit and the chosen testing flag; otherwise it finds nobody. Three queries suffice. */
  lemma EmittedIsFound(c: Codecs, o: GenOptions, rs: RecordSet, e: Setup, source: Addr)
    requires FaithfulPrefixes(c.prefix) && FaithfulKeys(c.key) && Generated(c, o) == Ok(rs)
    requires e.codec == c.prefix && e.net == Serving(rs) && Eligible(e.ineligible, source)
    ensures source.V6? && 32 <= o.unit <= 64 && |Stopped(FullRun(e, source)).asked| <= 3
    ensures var v := Stopped(FullRun(e, source)).verdict;
            if Lists(o.prefixes, source, 48) || Lists(o.prefixes, source, 64)
            then LongestMatch(o.prefixes, source).Some?
                 && v == Confirmed(Expected(o, source, LongestMatch(o.prefixes, source).value))
            else v == Nobody
  {
    GeneratesIff(c, o);
    CheckedIsListed(o);
    EligibleIsOrdinary(e.ineligible, source);
    if Lists(o.prefixes, source, 48) || Lists(o.prefixes, source, 64) {
      ListedIsFound(c, o, e, source);
    } else {
      EmittedIsSilent(c, o, e, source);
    }
  }
}
