/** What discovery must find, from raw answers: an operator named by a pointer, or by the host a PTR record names. */
module Completeness {
  import opened Wrappers
  import opened Text
  import opened Netip
  import opened AddressRules
  import opened Names
  import opened NamesMeaning
  import opened Record
  import opened Resolver
  import opened ResolverMeaning
  import opened Walk
  import opened Budget
  import opened Soundness
  import opened EndToEnd
  import opened Eleventh

  // ---------- Answers ----------

  /** The answer holds exactly one record that starts with v=SWORN1, and it is this one. */
  ghost predicate OneRecord(txts: seq<string>, rec: string) {
    exists i | 0 <= i < |txts| ::
      && txts[i] == rec && "v=SWORN1" <= txts[i]
      && forall j | 0 <= j < |txts| && j != i :: !("v=SWORN1" <= txts[j])
  }

  lemma SwornSnoc(init: seq<string>, last: string)
    ensures SwornRecords(init + [last]) == SwornRecords(init) + (if "v=SWORN1" <= last then [last] else [])
  {
    var txts := init + [last];
    assert txts[..|txts| - 1] == init;
    assert RECORD_PREFIX == "v=SWORN1";
  }

  lemma {:induction false} NoRecords(txts: seq<string>)
    ensures SwornRecords(txts) == [] <==> forall j | 0 <= j < |txts| :: !("v=SWORN1" <= txts[j])
    decreases |txts|
  {
    if txts != [] {
      var init, last := Unsnoc(txts);
      NoRecords(init);
      SwornSnoc(init, last);
      assert txts[|init|] == last && forall j | 0 <= j < |init| :: txts[j] == init[j];
    }
  }

  lemma OneRecordSnoc(init: seq<string>, last: string, rec: string)
    ensures OneRecord(init + [last], rec)
       <==> if "v=SWORN1" <= last then rec == last && SwornRecords(init) == [] else OneRecord(init, rec)
  {
    var txts := init + [last];
    NoRecords(init);
    assert txts[|init|] == last && forall j | 0 <= j < |init| :: txts[j] == init[j];
    if OneRecord(init, rec) && !("v=SWORN1" <= last) {
      var i :| 0 <= i < |init| && init[i] == rec && "v=SWORN1" <= init[i]
               && forall j | 0 <= j < |init| && j != i :: !("v=SWORN1" <= init[j]);
      assert txts[i] == rec;
    }
    if "v=SWORN1" <= last && rec == last && SwornRecords(init) == [] {
      assert txts[|init|] == rec;
    }
  }

  lemma {:induction false} SingleRecordIff(txts: seq<string>, rec: string)
    ensures SingleRecord(txts) == Some(rec) <==> OneRecord(txts, rec)
    decreases |txts|
  {
    if txts != [] {
      var init, last := Unsnoc(txts);
      SingleRecordIff(init, rec);
      SwornSnoc(init, last);
      OneRecordSnoc(init, last, rec);
    }
  }

  /** An answer to a policy query that makes its operator accountable for the source. */
  ghost predicate Vouches(codec: PrefixText, source: Addr, reply: Reply<seq<string>>, policy: PolicyRecord) {
    && reply.Found?
    && (exists rec :: OneRecord(reply.value, rec) && ParsePolicy(codec, rec) == Ok(policy))
    && exists p | p in policy.prefixes :: p.Contains(source)
  }

  /** An answer to a policy query that says nothing of the source: none, no single record, or one that does not parse or
      lists no prefix with the source. */
  ghost predicate Silent(codec: PrefixText, source: Addr, reply: Reply<seq<string>>) {
    !reply.Failed? && forall policy :: !Vouches(codec, source, reply, policy)
  }

  /** An answer to a pointer query that names an operator. */
  ghost predicate Points(reply: Reply<seq<string>>, domain: string) {
    reply.Found? && exists rec :: OneRecord(reply.value, rec) && ParsePointer(rec) == Ok(domain)
  }

  lemma PointsIff(reply: Reply<seq<string>>, domain: string)
    requires reply.Found?
    ensures PointerDomain(reply.value) == Some(domain) <==> Points(reply, domain)
  {
    var single := SingleRecord(reply.value);
    if single.Some? {
      SingleRecordIff(reply.value, single.value);
    }
    forall rec | OneRecord(reply.value, rec) ensures single == Some(rec) {
      SingleRecordIff(reply.value, rec);
    }
  }

  lemma VouchedVerdict(codec: PrefixText, domain: string, source: Addr, reply: Reply<seq<string>>, policy: PolicyRecord)
    requires source.V6? && Vouches(codec, source, reply, policy)
    ensures policy.unit <= 64
    ensures var v := PolicyVerdict(codec, domain, source, reply);
            v.Confirmed? && v.finding.operator == domain && Follows(policy, source, v.finding)
  {
    var rec :| OneRecord(reply.value, rec) && ParsePolicy(codec, rec) == Ok(policy);
    SingleRecordIff(reply.value, rec);
    AcceptedPolicy(codec, rec, policy);
    LongestMatchIs(policy.prefixes, source);
  }

  lemma SilentVerdict(codec: PrefixText, domain: string, source: Addr, reply: Reply<seq<string>>)
    requires source.V6? && Silent(codec, source, reply)
    ensures PolicyVerdict(codec, domain, source, reply).Nobody?
  {
    if PolicyVerdict(codec, domain, source, reply).Confirmed? {
      var rec := SingleRecord(reply.value).value;
      var policy := ParsePolicy(codec, rec).value;
      SingleRecordIff(reply.value, rec);
      LongestMatchIs(policy.prefixes, source);
      assert Vouches(codec, source, reply, policy);
    }
  }

  // ---------- The candidate walk ----------

  lemma {:induction false} FirstConfirmation(e: Setup, source: Addr, domains: seq<string>, asked: seq<Query>, i: nat)
    requires source.V6? && i < |domains| && forall d | d in domains :: ValidDomain(d)
    requires forall j | 0 <= j < i :: Unconfirmed(e, source, domains, asked, j)
    requires !Unconfirmed(e, source, domains, asked, i)
    ensures var h := asked + PolicyQueries(domains)[..i + 1];
            CandidateRun(e, source, domains, asked)
              == Run(PolicyVerdict(e.codec, ToLower(domains[i]), source, e.net.txt(h)), h)
    decreases i
  {
    var d, rest := Uncons(domains);
    assert d in domains && forall x | x in rest :: x in domains;
    PolicyQueriesCons(d, rest);
    TakeFirst(PolicyQuery(d), PolicyQueries(rest));
    if i == 0 {
      WalkStep(e, source, domains, asked);
    } else {
      assert Unconfirmed(e, source, domains, asked, 0);
      FirstFails(e, source, d, rest, asked);
      RestUnconfirmed(e, source, d, rest, asked, i);
      FirstConfirmation(e, source, rest, asked + [PolicyQuery(d)], i - 1);
      ShiftParts(asked, PolicyQuery(d), PolicyQueries(rest), i);
    }
  }

  /** The first confirmation of a walk is one place earlier in the walk of the rest. */
  lemma RestUnconfirmed(e: Setup, source: Addr, d: string, rest: seq<string>, asked: seq<Query>, i: nat)
    requires source.V6? && 0 < i <= |rest|
    requires forall j | 0 <= j < i :: Unconfirmed(e, source, [d] + rest, asked, j)
    requires !Unconfirmed(e, source, [d] + rest, asked, i)
    ensures forall j | 0 <= j < i - 1 :: Unconfirmed(e, source, rest, asked + [PolicyQuery(d)], j)
    ensures !Unconfirmed(e, source, rest, asked + [PolicyQuery(d)], i - 1)
  {
    ShiftUnconfirmed(e, source, [d] + rest, asked);
    assert ([d] + rest)[1..] == rest;
    assert forall j | 0 <= j < i ::
        Unconfirmed(e, source, rest, asked + [PolicyQuery(d)], j) == Unconfirmed(e, source, [d] + rest, asked, j + 1);
  }

  // ---------- From the PTR answer ----------

  /** The policy queries for a host and its parents, the first n of them. */
  function ParentQueries(host: string, n: nat): (qs: seq<Query>)
    requires n <= |Split(host, '.')|
    ensures |qs| == n
  {
    seq(n, j requires 0 <= j < n => Txt("_prefixes._sworn." + Without(host, j) + "."))
  }

  lemma ParentQueriesAre(host: string, publicSuffix: Option<string -> bool>, n: nat)
    requires ValidDomain(host) && ToLower(host) == host
    requires n <= |Candidates(host, publicSuffix)| && n <= |Split(host, '.')|
    ensures PolicyQueries(Candidates(host, publicSuffix))[..n] == ParentQueries(host, n)
  {
    var c := Candidates(host, publicSuffix);
    forall j | 0 <= j < n ensures PolicyQueries(c)[j] == ParentQueries(host, n)[j] {
      CandidateIff(host, publicSuffix, j);
      ParentValid(host, j);
      ParentLower(host, j);
      PolicyQueryIs(c[j]);
    }
  }

  /** Neither reverse-tree pointer of a source names anybody. */
  ghost predicate NoPointer(e: Setup, source: Addr)
    requires HasReverseName(source, 64) && HasReverseName(source, 48)
  {
    var first, second := e.net.txt([PointerQuery(source, 64)]), e.net.txt(BothPointers(source));
    && !first.Failed? && (forall d :: !Points(first, d))
    && !second.Failed? && (forall d :: !Points(second, d))
  }

  function BothPointers(source: Addr): (asked: seq<Query>)
    requires HasReverseName(source, 64) && HasReverseName(source, 48)
    ensures |asked| == 2
  {
    [PointerQuery(source, 64), PointerQuery(source, 48)]
  }

  lemma SilentPointer(e: Setup, source: Addr, n: nat, rest: seq<nat>, asked: seq<Query>)
    requires HasReverseName(source, n)
    requires var reply := e.net.txt(asked + [PointerQuery(source, n)]);
             !reply.Failed? && forall d :: !Points(reply, d)
    ensures PointerRun(e, source, [n] + rest, asked) == PointerRun(e, source, rest, asked + [PointerQuery(source, n)])
  {
    var reply := e.net.txt(asked + [PointerQuery(source, n)]);
    assert ([n] + rest)[0] == n && ([n] + rest)[1..] == rest;
    if reply.Found? && PointerDomain(reply.value).Some? {
      PointsIff(reply, PointerDomain(reply.value).value);
    }
  }

  lemma NoPointerRun(e: Setup, source: Addr)
    requires HasReverseName(source, 64) && HasReverseName(source, 48) && NoPointer(e, source)
    ensures PointerRun(e, source, POINTER_LENGTHS, []) == Run(Nobody, BothPointers(source))
  {
    assert POINTER_LENGTHS == [64] + [48] && [48] == [48] + [];
    var q, r := PointerQuery(source, 64), PointerQuery(source, 48);
    TwoQueries(q, r);
    assert [] + [q] == [q] && [q] + [r] == [q, r];
    SilentPointer(e, source, 64, [48], []);
    SilentPointer(e, source, 48, [], [q]);
  }

  /** A PTR name, absolute or not and in any letter case, leads to its host in lower case. */
  lemma HostNamed(h: string, name: string, more: seq<string>)
    requires ValidDomain(h) && (name == h || name == h + ".")
    ensures HostOf([name] + more) == Some(ToLower(h))
  {
    LastLabel(h);
    assert (h + ".")[..|h + "."| - 1] == h;
    assert ([name] + more)[0] == name;
  }

  /** The host a PTR answer names: that of its first name when it is a valid domain, once a final dot is taken off. */
  lemma HostOfIff(names: seq<string>, host: string)
    ensures HostOf(names) == Some(host)
       <==> names != [] && exists h :: DomainText(h) && (names[0] == h || names[0] == h + ".") && host == ToLower(h)
  {
    if HostOf(names) == Some(host) {
      var h := TrimDot(names[0]);
      DomainIff(h);
      assert names[0] == h || names[0] == h + ".";
    }
    forall h | names != [] && DomainText(h) && (names[0] == h || names[0] == h + ".")
      ensures HostOf(names) == Some(ToLower(h))
    {
      DomainIff(h);
      var name, more := Uncons(names);
      HostNamed(h, name, more);
    }
  }

  /** What is asked when the host of a PTR record is forward-confirmed: the pointers, the PTR name and the host. */
  function AskedForHost(source: Addr, host: string): (asked: seq<Query>)
    requires HasReverseName(source, 64) && HasReverseName(source, 48)
    ensures |asked| == 4
  {
    BothPointers(source) + [Ptr(source)] + [Ip6(host + ".")]
  }

  /** The answers that lead from a source without a pointer to the host named h in its PTR record: the record, in
      absolute form or not, and a forward lookup that holds the source. */
  ghost predicate LeadsTo(e: Setup, source: Addr, h: string)
    requires HasReverseName(source, 64) && HasReverseName(source, 48)
  {
    && NoPointer(e, source)
    && (var ptr := e.net.ptr(BothPointers(source) + [Ptr(source)]);
        ptr.Found? && ptr.value != [] && (ptr.value[0] == h || ptr.value[0] == h + "."))
    && (var forward := e.net.ip6(AskedForHost(source, ToLower(h)));
        forward.Found? && source in forward.value)
  }

  lemma LedHost(e: Setup, source: Addr, h: string)
    requires HasReverseName(source, 64) && HasReverseName(source, 48) && ValidDomain(h) && LeadsTo(e, source, h)
    ensures HostConfirmed(e, source, BothPointers(source), ToLower(h))
    ensures BothPointers(source) + [Ptr(source)] + [Ip6(Fqdn(ToLower(h)))] == AskedForHost(source, ToLower(h))
  {
    var ptr := e.net.ptr(BothPointers(source) + [Ptr(source)]).value;
    var name, more := Uncons(ptr);
    HostNamed(h, name, more);
    LowerDomain(h);
    FqdnOfDomain(ToLower(h));
    assert source.Unmap() == source;
  }

  /** The answer to the policy query for the j-th parent of a host, when every earlier one was asked too. */
  function ParentReply(e: Setup, source: Addr, host: string, j: nat): Reply<seq<string>>
    requires HasReverseName(source, 64) && HasReverseName(source, 48) && j < |Split(host, '.')|
  {
    e.net.txt(AskedForHost(source, host) + ParentQueries(host, j + 1))
  }

  /** The i-th parent of a host is the first whose policy vouches for the source, and it is a candidate at all. */
  ghost predicate FirstVouched(e: Setup, source: Addr, host: string, i: nat, policy: PolicyRecord)
    requires HasReverseName(source, 64) && HasReverseName(source, 48)
  {
    && i < 5 && i < |Split(host, '.')| && Reached(host, e.publicSuffix, i)
    && (forall j | 0 <= j < i :: Silent(e.codec, source, ParentReply(e, source, host, j)))
    && Vouches(e.codec, source, ParentReply(e, source, host, i), policy)
  }

  lemma ParentUnconfirmed(e: Setup, source: Addr, host: string, j: nat)
    requires HasReverseName(source, 64) && HasReverseName(source, 48) && ValidDomain(host) && ToLower(host) == host
    requires j < |Candidates(host, e.publicSuffix)| && j < |Split(host, '.')|
    ensures var c := Candidates(host, e.publicSuffix);
            && e.net.txt(AskedForHost(source, host) + PolicyQueries(c)[..j + 1]) == ParentReply(e, source, host, j)
            && ToLower(c[j]) == c[j] == Without(host, j)
            && (Unconfirmed(e, source, c, AskedForHost(source, host), j)
                <==> PolicyVerdict(e.codec, Without(host, j), source, ParentReply(e, source, host, j)).Nobody?)
  {
    var c := Candidates(host, e.publicSuffix);
    ParentQueriesAre(host, e.publicSuffix, j + 1);
    CandidateIff(host, e.publicSuffix, j);
    CandidatesNamed(host, e.publicSuffix);
    assert c[j] in c;
  }

  lemma WalkFinds(e: Setup, source: Addr, host: string, i: nat, policy: PolicyRecord)
    requires HasReverseName(source, 64) && HasReverseName(source, 48) && ValidDomain(host) && ToLower(host) == host
    requires FirstVouched(e, source, host, i, policy)
    ensures policy.unit <= 64
    ensures var r := CandidateRun(e, source, Candidates(host, e.publicSuffix), AskedForHost(source, host));
            && r.verdict.Confirmed? && r.verdict.finding.operator == Without(host, i)
            && Follows(policy, source, r.verdict.finding) && |r.asked| == 5 + i
  {
    var c := Candidates(host, e.publicSuffix);
    CandidateIff(host, e.publicSuffix, i);
    CandidatesNamed(host, e.publicSuffix);
    forall j | 0 <= j < i ensures Unconfirmed(e, source, c, AskedForHost(source, host), j) {
      ParentUnconfirmed(e, source, host, j);
      SilentVerdict(e.codec, Without(host, j), source, ParentReply(e, source, host, j));
    }
    ParentUnconfirmed(e, source, host, i);
    VouchedVerdict(e.codec, Without(host, i), source, ParentReply(e, source, host, i), policy);
    FirstConfirmation(e, source, c, AskedForHost(source, host), i);
  }

  lemma HostStep(e: Setup, source: Addr, h: string)
    requires Eligible(e.ineligible, source) && ValidDomain(h)
    requires HasReverseName(source, 64) && HasReverseName(source, 48) && LeadsTo(e, source, h)
    ensures FullRun(e, source)
         == CandidateRun(e, source, Candidates(ToLower(h), e.publicSuffix), AskedForHost(source, ToLower(h)))
  {
    LedHost(e, source, h);
    HostRunIsWalk(e, source, ToLower(h), BothPointers(source));
    NoPointerRun(e, source);
    FullRunParts(e, source);
  }

  /** Step 2 finds what it should: for an eligible source without a reverse-tree pointer whose PTR record names a valid
      host h, in any letter case and with or without the final dot, which leads back to the source: when the policy
      answers for the host and its first i - 1 parents say nothing of the source and the one for the i-th parent vouches
      for it, discovery confirms that parent, with what its policy says. */
  lemma HostIsFound(e: Setup, source: Addr, h: string, i: nat, policy: PolicyRecord)
    requires Eligible(e.ineligible, source) && ValidDomain(h)
    requires HasReverseName(source, 64) && HasReverseName(source, 48) && LeadsTo(e, source, h)
    requires FirstVouched(e, source, ToLower(h), i, policy)
    ensures policy.unit <= 64
    ensures var v := Stopped(FullRun(e, source)).verdict;
            v.Confirmed? && v.finding.operator == Without(ToLower(h), i) && Follows(policy, source, v.finding)
  {
    LowerDomain(h);
    ToLowerIdempotent(h);
    HostStep(e, source, h);
    WalkFinds(e, source, ToLower(h), i, policy);
  }

  lemma CandidatesNamed(host: string, publicSuffix: Option<string -> bool>)
    requires ValidDomain(host) && ToLower(host) == host
    ensures forall d | d in Candidates(host, publicSuffix) :: ValidDomain(d) && ToLower(d) == d
  {
    var c := Candidates(host, publicSuffix);
    forall d | d in c ensures ValidDomain(d) && ToLower(d) == d {
      var i :| 0 <= i < |c| && c[i] == d;
      CandidatesValid(host, publicSuffix, i);
    }
  }

  // ---------- From a pointer ----------

  lemma PointedRun(e: Setup, source: Addr, n: nat, rest: seq<nat>, asked: seq<Query>, d: string)
    requires HasReverseName(source, n) && Points(e.net.txt(asked + [PointerQuery(source, n)]), d)
    ensures ValidDomain(d) && ToLower(d) == d
    ensures var c := ConfirmRun(e, d, source, asked + [PointerQuery(source, n)]);
            && c == Run(PolicyVerdict(e.codec, d, source, e.net.txt(c.asked)),
                        asked + [PointerQuery(source, n)] + [PolicyQuery(d)])
            && PointerRun(e, source, [n] + rest, asked)
               == if c.verdict.Nobody? then PointerRun(e, source, rest, c.asked) else c
  {
    var reply := e.net.txt(asked + [PointerQuery(source, n)]);
    assert ([n] + rest)[0] == n && ([n] + rest)[1..] == rest;
    PointsIff(reply, d);
    PointerDomainValid(reply.value);
  }

  /** A /64 pointer that names an operator whose policy vouches for the source decides, whatever else is published. */
  lemma NearPointerIsFound(e: Setup, source: Addr, d: string, policy: PolicyRecord)
    requires Eligible(e.ineligible, source) && HasReverseName(source, 64)
    requires Points(e.net.txt([PointerQuery(source, 64)]), d)
    requires Vouches(e.codec, source, e.net.txt([PointerQuery(source, 64)] + [PolicyQuery(d)]), policy)
    ensures policy.unit <= 64
    ensures var v := Stopped(FullRun(e, source)).verdict;
            v.Confirmed? && v.finding.operator == d && Follows(policy, source, v.finding)
  {
    var q := PointerQuery(source, 64);
    assert [] + [q] == [q];
    assert POINTER_LENGTHS == [64] + [48];
    PointedRun(e, source, 64, [48], [], d);
    VouchedVerdict(e.codec, d, source, e.net.txt([q] + [PolicyQuery(d)]), policy);
    FoundInStepOne(e, source);
  }

  /** A /48 pointer does so when the /64 one names nobody. */
  lemma FarPointerIsFound(e: Setup, source: Addr, d: string, policy: PolicyRecord)
    requires Eligible(e.ineligible, source) && HasReverseName(source, 64) && HasReverseName(source, 48)
    requires var first := e.net.txt([PointerQuery(source, 64)]); !first.Failed? && forall x :: !Points(first, x)
    requires Points(e.net.txt(BothPointers(source)), d)
    requires Vouches(e.codec, source, e.net.txt(BothPointers(source) + [PolicyQuery(d)]), policy)
    ensures policy.unit <= 64
    ensures var v := Stopped(FullRun(e, source)).verdict;
            v.Confirmed? && v.finding.operator == d && Follows(policy, source, v.finding)
  {
    var q, r := PointerQuery(source, 64), PointerQuery(source, 48);
    assert [] + [q] == [q] && [q] + [r] == [q, r];
    assert POINTER_LENGTHS == [64] + [48] && [48] == [48] + [];
    SilentPointer(e, source, 64, [48], []);
    PointedRun(e, source, 48, [], [q], d);
    VouchedVerdict(e.codec, d, source, e.net.txt([q, r] + [PolicyQuery(d)]), policy);
    FoundInStepOne(e, source);
  }
}
