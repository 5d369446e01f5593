/** What a confirmation means: who is named, by whom, and how the source, the units and the prefix nest. */
module Soundness {
  import opened Wrappers
  import opened Text
  import opened Netip
  import opened AddressRules
  import opened Names
  import opened Tags
  import opened Record
  import opened RecordMeaning
  import opened Resolver
  import opened Walk
  import opened Budget

  // ---------- The prefix that matched ----------

  /** The reported match is an enumerated prefix holding the source, no shorter than any other that holds it. */
  lemma {:induction false} LongestMatchIs(prefixes: seq<Prefix>, source: Addr)
    ensures var best := LongestMatch(prefixes, source);
            && (best.None? <==> forall p | p in prefixes :: !p.Contains(source))
            && (best.Some? ==>
                  && best.value in prefixes && best.value.Contains(source)
                  && forall p | p in prefixes && p.Contains(source) :: p.bits <= best.value.bits)
    decreases |prefixes|
  {
    if prefixes != [] {
      var n := |prefixes| - 1;
      LongestMatchIs(prefixes[..n], source);
      assert prefixes == prefixes[..n] + [prefixes[n]];
    }
  }

  /** Every prefix of an accepted policy is attestable and no longer than the unit, and the unit is at most 64. */
  lemma AcceptedPolicy(codec: PrefixText, txt: string, policy: PolicyRecord)
    requires ParsePolicy(codec, txt) == Ok(policy)
    ensures policy.version == "SWORN1" && 1 <= policy.unit <= 64
    ensures |policy.prefixes| <= 64
    ensures forall p | p in policy.prefixes :: ValidatePrefix(p) && p.bits <= policy.unit
  {
    PolicyIff(codec, txt, policy);
    var tags := TagsOf(txt).value;
    forall p | p in policy.prefixes ensures ValidatePrefix(p) {
      var i :| 0 <= i < |policy.prefixes| && policy.prefixes[i] == p;
      assert Reads(codec, Elements(Value(tags, "p").value), policy.prefixes);
    }
  }

  /** The policy published for an operator, read from the answer to the last query. */
  ghost predicate PolicyFetched(e: Setup, asked: seq<Query>, operator: string, policy: PolicyRecord) {
    && asked != [] && asked[|asked| - 1] == PolicyQuery(operator)
    && e.net.txt(asked).Found?
    && SingleRecord(e.net.txt(asked).value).Some?
    && ParsePolicy(e.codec, SingleRecord(e.net.txt(asked).value).value) == Ok(policy)
  }

  /** A finding says what the fetched policy says about the source. */
  ghost predicate Follows(policy: PolicyRecord, source: Addr, f: Finding)
    requires source.V6? && policy.unit <= 64
  {
    && f.prefix in policy.prefixes && f.prefix.Contains(source)
    && (forall p | p in policy.prefixes && p.Contains(source) :: p.bits <= f.prefix.bits)
    && f.unit == Enclosing(source, policy.unit)
    && f.observedUnit == Enclosing(source, 64)
    && f.testing == policy.testing && f.mode == "dns"
  }

  lemma VerdictFollows(e: Setup, operator: string, source: Addr, asked: seq<Query>, f: Finding)
    requires source.V6? && asked != [] && asked[|asked| - 1] == PolicyQuery(operator)
    requires PolicyVerdict(e.codec, operator, source, e.net.txt(asked)) == Confirmed(f)
    ensures f.operator == operator
    ensures exists policy ::
              PolicyFetched(e, asked, operator, policy) && policy.unit <= 64 && Follows(policy, source, f)
  {
    var rec := SingleRecord(e.net.txt(asked).value).value;
    var policy := ParsePolicy(e.codec, rec).value;
    AcceptedPolicy(e.codec, rec, policy);
    LongestMatchIs(policy.prefixes, source);
    assert PolicyFetched(e, asked, operator, policy);
  }

  // ---------- Who named the operator ----------

  /** At step i a pointer for an enclosing prefix of the source was answered with the operator's name. */
  ghost predicate PointerAt(e: Setup, source: Addr, asked: seq<Query>, operator: string, i: nat) {
    && i < |asked| && HasReverseName(source, 64) && HasReverseName(source, 48)
    && (asked[i] == PointerQuery(source, 64) || asked[i] == PointerQuery(source, 48))
    && NamesOperator(e.net.txt(asked[..i + 1]), operator)
  }

  /** At steps i and i + 1 the PTR name of the source was asked for and led back to it, and the operator is one of
      that host's label suffixes. */
  ghost predicate HostAt(e: Setup, source: Addr, asked: seq<Query>, operator: string, host: string, i: nat) {
    && i + 1 < |asked|
    && asked[i] == Ptr(source) && asked[i + 1] == Ip6(Fqdn(host))
    && HostConfirmed(e, source, asked[..i], host)
    && LabelSuffix(operator, host)
  }

  /** How an operator came to be named. */
  ghost predicate Named(e: Setup, source: Addr, asked: seq<Query>, operator: string) {
    || (exists i :: PointerAt(e, source, asked, operator, i))
    || (exists host, i :: HostAt(e, source, asked, operator, host, i))
  }

  /** What a confirmed run proves about its finding. */
  ghost predicate Justified(e: Setup, source: Addr, r: Run)
    requires source.V6?
  {
    r.verdict.Confirmed? ==>
      var f := r.verdict.finding;
      && ValidDomain(f.operator) && ToLower(f.operator) == f.operator
      && Named(e, source, r.asked, f.operator)
      && exists policy ::
           PolicyFetched(e, r.asked, f.operator, policy) && policy.unit <= 64 && Follows(policy, source, f)
  }

  lemma ConfirmJustified(e: Setup, domain: string, source: Addr, asked: seq<Query>)
    requires source.V6? && ValidDomain(domain) && ToLower(domain) == domain
    requires Named(e, source, asked + [PolicyQuery(domain)], domain)
    ensures Justified(e, source, ConfirmRun(e, domain, source, asked))
  {
    var h := asked + [PolicyQuery(domain)];
    var r := ConfirmRun(e, domain, source, asked);
    if r.verdict.Confirmed? {
      VerdictFollows(e, domain, source, h, r.verdict.finding);
    }
  }

  lemma PointerNames(e: Setup, source: Addr, n: nat, asked: seq<Query>, domain: string)
    requires HasReverseName(source, 64) && HasReverseName(source, 48) && (n == 64 || n == 48)
    requires NamesOperator(e.net.txt(asked + [PointerQuery(source, n)]), domain)
    ensures Named(e, source, asked + [PointerQuery(source, n)] + [PolicyQuery(domain)], domain)
  {
    var h := asked + [PointerQuery(source, n)] + [PolicyQuery(domain)];
    assert h[..|asked| + 1] == asked + [PointerQuery(source, n)];
    assert PointerAt(e, source, h, domain, |asked|);
  }

  lemma {:induction false} PointerRunJustified(e: Setup, source: Addr, lengths: seq<nat>, asked: seq<Query>)
    requires HasReverseName(source, 64) && HasReverseName(source, 48)
    requires forall n | n in lengths :: n == 64 || n == 48
    ensures Justified(e, source, PointerRun(e, source, lengths, asked))
    decreases |lengths|
  {
    if lengths != [] {
      var n := lengths[0];
      assert n in lengths && forall m | m in lengths[1..] :: m in lengths;
      var h := asked + [PointerQuery(source, n)];
      PointerRunJustified(e, source, lengths[1..], h);
      var reply := e.net.txt(h);
      if reply.Found? && PointerDomain(reply.value).Some? {
        var d := PointerDomain(reply.value).value;
        PointerDomainValid(reply.value);
        PointerNames(e, source, n, asked, d);
        ConfirmJustified(e, d, source, h);
        PointerRunJustified(e, source, lengths[1..], ConfirmRun(e, d, source, h).asked);
      }
    }
  }

  lemma HostNames(e: Setup, source: Addr, host: string, base: seq<Query>, more: seq<Query>, operator: string)
    requires HostConfirmed(e, source, base, host) && LabelSuffix(operator, host)
    ensures Named(e, source, base + [Ptr(source), Ip6(Fqdn(host))] + more, operator)
  {
    var h := base + [Ptr(source), Ip6(Fqdn(host))] + more;
    assert h[..|base|] == base;
    assert HostAt(e, source, h, operator, host, |base|);
  }

  lemma {:induction false} CandidateRunJustified(
    e: Setup, source: Addr, host: string, candidates: seq<string>, base: seq<Query>, more: seq<Query>)
    requires source.V6? && HostConfirmed(e, source, base, host)
    requires forall c | c in candidates :: ValidDomain(c) && ToLower(c) == c && LabelSuffix(c, host)
    ensures Justified(e, source, CandidateRun(e, source, candidates, base + [Ptr(source), Ip6(Fqdn(host))] + more))
    decreases |candidates|
  {
    if candidates != [] {
      var c := candidates[0];
      assert c in candidates && forall d | d in candidates[1..] :: d in candidates;
      var g := base + [Ptr(source), Ip6(Fqdn(host))];
      var extended := more + [PolicyQuery(c)];
      Regroup(g, more, [PolicyQuery(c)]);
      HostNames(e, source, host, base, extended, c);
      ConfirmJustified(e, c, source, g + more);
      CandidateRunJustified(e, source, host, candidates[1..], base, extended);
    }
  }

  lemma CandidatesOfHost(e: Setup, names: seq<string>)
    requires HostOf(names).Some?
    ensures var host := HostOf(names).value;
            forall c | c in Candidates(host, e.publicSuffix) ::
              ValidDomain(c) && ToLower(c) == c && LabelSuffix(c, host)
  {
    var host := HostOf(names).value;
    var all := Candidates(host, e.publicSuffix);
    forall c | c in all ensures ValidDomain(c) && ToLower(c) == c && LabelSuffix(c, host) {
      var i :| 0 <= i < |all| && all[i] == c;
      HostCandidateValid(e, names, i);
    }
  }

  lemma HostRunJustified(e: Setup, source: Addr, asked: seq<Query>)
    requires source.V6?
    ensures Justified(e, source, HostRun(e, source, asked))
  {
    var h := asked + [Ptr(source)];
    var reply := e.net.ptr(h);
    if reply.Found? && HostOf(reply.value).Some? {
      var host := HostOf(reply.value).value;
      var g := h + [Ip6(Fqdn(host))];
      if e.net.ip6(g).Found? && LeadsBack(e.net.ip6(g).value, source) {
        CandidatesOfHost(e, reply.value);
        assert asked + [Ptr(source), Ip6(Fqdn(host))] + [] == g;
        CandidateRunJustified(e, source, host, Candidates(host, e.publicSuffix), asked, []);
      }
    }
  }

  /** Every finding, under the budget, has an eligible source, an operator named by a pointer or by a label suffix of a
      forward-confirmed PTR host, and says exactly what that operator's policy says about the source. */
  lemma DiscoverySound(e: Setup, source: Addr)
    requires Stopped(FullRun(e, source)).verdict.Confirmed?
    ensures Eligible(e.ineligible, source) && source.V6?
    ensures Justified(e, source, Stopped(FullRun(e, source)))
  {
    PointerRunJustified(e, source, POINTER_LENGTHS, []);
    HostRunJustified(e, source, PointerRun(e, source, POINTER_LENGTHS, []).asked);
  }

  /** The nesting a receiver relies on: the source lies in the observed unit, that in the declared unit, that in the
      prefix staked by the operator, and every address of that prefix is an eligible source. */
  lemma FindingNests(e: Setup, source: Addr)
    requires Stopped(FullRun(e, source)).verdict.Confirmed?
    ensures var f := Stopped(FullRun(e, source)).verdict.finding;
            && f.observedUnit.bits == 64 && f.observedUnit.Contains(source)
            && Subset(f.observedUnit, f.unit) && Subset(f.unit, f.prefix)
            && ValidatePrefix(f.prefix)
            && forall a: Addr :: f.prefix.Contains(a) ==> EligibleSource(a)
  {
    DiscoverySound(e, source);
    var r := Stopped(FullRun(e, source));
    var f := r.verdict.finding;
    var policy :| PolicyFetched(e, r.asked, f.operator, policy) && policy.unit <= 64 && Follows(policy, source, f);
    AcceptedPolicy(e.codec, SingleRecord(e.net.txt(r.asked).value).value, policy);
    EnclosingNests(source, policy.unit, 64);
    EnclosingWithin(source, policy.unit, f.prefix);
    ValidIffAllEligible(f.prefix);
  }
}
