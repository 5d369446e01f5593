/** What the generator accepts and what it writes, in raw terms. */
module GenerationMeaning {
  import opened Wrappers
  import opened Text
  import opened Netip
  import opened AddressRules
  import opened NamesMeaning
  import opened Names
  import opened Record
  import opened Resolver
  import opened Genrecord
  import opened EndToEnd

  // ---------- Accepted options ----------

  predicate ListedOnce(prefixes: seq<Prefix>) {
    forall i, j | 0 <= i < j < |prefixes| :: prefixes[i] != prefixes[j]
  }

  predicate AllValid(prefixes: seq<Prefix>) {
    forall i | 0 <= i < |prefixes| :: ValidatePrefix(prefixes[i])
  }

  predicate BitsFit(o: GenOptions) {
    forall i | 0 <= i < |o.prefixes| :: o.prefixes[i].bits <= o.unit
  }

  /** Options that break no rule. */
  ghost predicate Sound(o: GenOptions) {
    && DomainText(o.domain) && LabelText(o.selector) && |o.pubKey| == 32 && 1 <= |o.prefixes| <= 64
    && 32 <= o.unit <= 64 && AllValid(o.prefixes) && ListedOnce(o.prefixes)
    && BitsFit(o)
    && (o.rua == "" || LooseMailboxText(o.rua))
  }

  lemma {:induction false} PrefixesClean(prefixes: seq<Prefix>)
    ensures PrefixComplaint(prefixes).None? <==> AllValid(prefixes) && ListedOnce(prefixes)
    decreases |prefixes|
  {
    if prefixes != [] {
      var n := |prefixes| - 1;
      var init := prefixes[..n];
      PrefixesClean(init);
      assert forall i | 0 <= i < n :: init[i] == prefixes[i];
      if prefixes[n] in init {
        var i :| 0 <= i < n && init[i] == prefixes[n];
        assert prefixes[i] == prefixes[n];
      }
    }
  }

  lemma BitsFitIff(o: GenOptions)
    ensures UnitCoversPrefixes(o) <==> BitsFit(o)
  {
    assert forall i | 0 <= i < |o.prefixes| :: o.prefixes[i] in o.prefixes;
  }

  /** The options are accepted exactly when they break no rule. */
  lemma SoundIff(o: GenOptions)
    ensures Complaint(o).None? <==> Sound(o)
  {
    DomainIff(o.domain);
    LabelIff(o.selector);
    RuaIff(o.rua);
    PrefixesClean(o.prefixes);
    BitsFitIff(o);
  }

  /** The first rule the options break by their names, their key and the sizes they give. */
  ghost function FirstRule(o: GenOptions): Option<GenError> {
    if !DomainText(o.domain) then Some(InvalidDomain)
    else if !LabelText(o.selector) then Some(InvalidSelector)
    else if |o.pubKey| != 32 then Some(InvalidKeySize)
    else if |o.prefixes| == 0 then Some(NoPrefix)
    else if |o.prefixes| > 64 then Some(TooManyPrefixes)
    else if !(32 <= o.unit <= 64) then Some(UnitOutOfRange)
    else None
  }

  /** Otherwise the first rule broken is named: one of those; then that of the first prefix at fault; then a prefix
      longer than the unit; and last the mailbox. */
  lemma ComplaintIs(o: GenOptions)
    ensures FirstRule(o).Some? ==> Complaint(o) == FirstRule(o)
    ensures FirstRule(o).None? && !(AllValid(o.prefixes) && ListedOnce(o.prefixes)) ==>
              Complaint(o) == PrefixComplaint(o.prefixes)
    ensures FirstRule(o).None? && AllValid(o.prefixes) && ListedOnce(o.prefixes) ==>
              Complaint(o) == if !BitsFit(o) then Some(UnitTooCoarse)
                              else if o.rua != "" && !LooseMailboxText(o.rua) then Some(InvalidRua)
                              else None
  {
    DomainIff(o.domain);
    LabelIff(o.selector);
    if FirstRule(o).None? {
      RuaIff(o.rua);
      PrefixesClean(o.prefixes);
      BitsFitIff(o);
    }
  }

  /** Of the prefixes, the first that is invalid or repeats an earlier one decides. */
  lemma FirstOffender(prefixes: seq<Prefix>, i: nat)
    requires i < |prefixes| && AllValid(prefixes[..i]) && ListedOnce(prefixes[..i])
    requires !ValidatePrefix(prefixes[i]) || prefixes[i] in prefixes[..i]
    ensures PrefixComplaint(prefixes) == Some(if ValidatePrefix(prefixes[i]) then ListedTwice else InvalidPrefix)
  {
    PrefixesClean(prefixes[..i]);
    if ValidatePrefix(prefixes[i]) {
      TwiceAt(prefixes, i);
    } else {
      InvalidAt(prefixes, i);
    }
  }

  // ---------- Emitted records ----------

  /** The names of the key and policy records, and their texts. */
  lemma RecordsAre(c: Codecs, o: GenOptions)
    requires o.unit >= 0
    ensures var rs := RecordsFor(c, o);
            && rs.key == DnsRecord(o.selector + "._sworn." + o.domain,
                                   "v=SWORN1; k=ed25519; pk=" + c.key.text(o.pubKey))
            && rs.policy.qname == "_prefixes._sworn." + o.domain
            && rs.policy.value
               == "v=SWORN1; p=" + PrefixList(c.prefix, o.prefixes) + "; u=" + Itoa(o.unit)
                  + (if o.testing then "; t=y" else "") + (if o.rua == "" then "" else "; rua=" + o.rua)
  {
    assert o.selector + "." + DNS_LABEL + "." + o.domain == o.selector + "._sworn." + o.domain;
    assert "_prefixes." + DNS_LABEL + "." + o.domain == "_prefixes._sworn." + o.domain;
    assert "v=" + VERSION + "; k=" + ED25519 + "; pk=" == "v=SWORN1; k=ed25519; pk=";
    assert "v=" + VERSION + "; p=" == "v=SWORN1; p=";
  }

  predicate PointerOf(p: Prefix, domain: string, r: DnsRecord) {
    && (p.bits == 48 || p.bits == 64) && HasReverseName(p.addr, p.bits)
    && r == DnsRecord(ReverseName(p.addr, p.bits).value, "v=SWORN1; d=" + domain)
  }

  lemma PointerSays(domain: string)
    ensures PointerText(domain) == "v=SWORN1; d=" + domain
  {
    assert "v=" + VERSION + "; d=" == "v=SWORN1; d=";
  }

  lemma PointerAdded(init: seq<Prefix>, p: Prefix, domain: string, r: DnsRecord)
    requires ValidatePrefix(p)
    ensures r in PointersFor(init + [p], domain) <==> r in PointersFor(init, domain) || PointerOf(p, domain, r)
  {
    PointersSnoc(init, p, domain);
    PointerSays(domain);
  }

  /** The pointers are those of the listed /48 and /64 prefixes and no others, in the order listed. */
  lemma {:induction false} PointersAre(prefixes: seq<Prefix>, domain: string)
    requires AllValid(prefixes)
    ensures forall r :: r in PointersFor(prefixes, domain) <==> exists p | p in prefixes :: PointerOf(p, domain, r)
    decreases |prefixes|
  {
    if prefixes != [] {
      var n := |prefixes| - 1;
      var init, p := prefixes[..n], prefixes[n];
      assert prefixes == init + [p];
      assert forall i | 0 <= i < n :: init[i] == prefixes[i];
      PointersAre(init, domain);
      forall r ensures r in PointersFor(prefixes, domain) <==> exists x | x in prefixes :: PointerOf(x, domain, r) {
        PointerAdded(init, p, domain, r);
      }
    }
  }
}
