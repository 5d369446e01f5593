/** The budget is observable: whatever the answer to an eleventh query would say, some network hides it behind a
    temporary failure. */
module Eleventh {
  import opened Wrappers
  import opened Text
  import opened Netip
  import opened AddressRules
  import opened Names
  import opened Record
  import opened Resolver
  import opened Walk
  import opened Budget
  import opened Genrecord
  import opened EndToEnd

  /** A host, spelled as discovery spells it, from which five candidates are derived. */
  predicate FiveCandidates(host: string, publicSuffix: Option<string -> bool>) {
    ValidDomain(host) && ToLower(host) == host && |Candidates(host, publicSuffix)| == MAX_CANDIDATES
  }

  /** The candidate an eleventh query would ask about. */
  function Fifth(host: string, publicSuffix: Option<string -> bool>): string
    requires FiveCandidates(host, publicSuffix)
  {
    Candidates(host, publicSuffix)[4]
  }

  /** Both pointers name x, no policy is found, and the eleventh query is answered at will. */
  function TailReply(tail: Reply<seq<string>>, asked: seq<Query>): Reply<seq<string>> {
    if |asked| == MAX_QUERIES + 1 then tail
    else if |asked| == 1 || |asked| == 3 then Reply.Found([PointerText("x")])
    else NotFound
  }

  function LateNetwork(source: Addr, host: string, tail: Reply<seq<string>>): Network {
    Network(asked => TailReply(tail, asked), _ => Reply.Found([host]), _ => Reply.Found([source]))
  }

  /** A setup under that network, with a host of five candidates. */
  ghost predicate Late(e: Setup, source: Addr, host: string, tail: Reply<seq<string>>) {
    FiveCandidates(host, e.publicSuffix) && e.net == LateNetwork(source, host, tail)
  }

  // ---------- The host ----------

  lemma HostIsNamed(host: string)
    requires ValidDomain(host) && ToLower(host) == host
    ensures HostOf([host]) == Some(host) && NormalHost(host) == host
  {
    NormalOfValid(host);
    NoSpaceAtEnds(host);
  }

  /** Without a public-suffix list five candidates take seven labels: none is evaluated with fewer than three. */
  lemma FiveCandidatesIff(host: string)
    requires ValidDomain(host) && ToLower(host) == host
    ensures FiveCandidates(host, None) <==> |Split(host, '.')| >= 7
  {
    HostIsNamed(host);
    var n := |Candidates(host, None)|;
    CandidatesAreWalk(host, None);
    if n < |Split(host, '.')| {
      ParentValid(host, n);
    }
    if n == MAX_CANDIDATES {
      assert Evaluated(host, None, 4);
    }
  }

  const LABELS := ["a", "b", "c", "d", "e", "f", "g"]

  lemma LabelsValid()
    ensures forall l | l in LABELS :: ValidLabel(l) && '.' !in l && |l| == 1
    ensures LowerAll(LABELS) == LABELS
  {
    assert forall l | l in LABELS :: |l| == 1 && 'a' <= l[0] <= 'g';
    forall i | 0 <= i < 7 ensures LowerAll(LABELS)[i] == LABELS[i] {
      assert LABELS[i] in LABELS;
      assert ToLower(LABELS[i]) == LABELS[i];
    }
  }

  lemma {:induction false} JoinLength(parts: seq<string>)
    requires parts != [] && forall p | p in parts :: |p| == 1
    ensures |Join(parts, ".")| == 2 * |parts| - 1
  {
    assert parts[0] in parts;
    if |parts| > 1 {
      JoinLength(parts[1..]);
    }
  }

  /** There is such a host without a list: a.b.c.d.e.f.g. */
  lemma SomeHost()
    ensures FiveCandidates(Join(LABELS, "."), None)
  {
    LabelsValid();
    SplitJoin(LABELS, '.');
    JoinLength(LABELS);
    JoinLower(LABELS);
    FiveCandidatesIff(Join(LABELS, "."));
  }

  lemma HostCandidates(e: Setup, source: Addr, host: string, tail: Reply<seq<string>>)
    requires Late(e, source, host, tail)
    ensures var c := Candidates(host, e.publicSuffix);
            forall d | d in c :: ValidDomain(d) && ToLower(d) == d
  {
    HostIsNamed(host);
    var c := Candidates(host, e.publicSuffix);
    CandidatesAreWalk(host, e.publicSuffix);
    forall d | d in c ensures ValidDomain(d) && ToLower(d) == d {
      var i :| 0 <= i < |c| && c[i] == d;
      ParentValid(host, i);
      ParentLower(host, i);
    }
  }

  // ---------- The run ----------

  lemma PolicyQueriesCons(d: string, rest: seq<string>)
    ensures PolicyQueries([d] + rest) == [PolicyQuery(d)] + PolicyQueries(rest)
  {
    MapCons(PolicyQuery, d, rest);
  }

  lemma TakeFirst(q: Query, more: seq<Query>)
    ensures ([q] + more)[..1] == [q]
  {
  }

  lemma WalkStep(e: Setup, source: Addr, domains: seq<string>, asked: seq<Query>)
    requires source.V6? && domains != [] && ValidDomain(domains[0])
    ensures var c := ConfirmRun(e, domains[0], source, asked);
            var h := asked + [PolicyQuery(domains[0])];
            && c.verdict == PolicyVerdict(e.codec, ToLower(domains[0]), source, e.net.txt(h))
            && CandidateRun(e, source, domains, asked)
               == if c.verdict.Nobody? then CandidateRun(e, source, domains[1..], h) else c
  {
  }

  lemma LastCandidate(e: Setup, source: Addr, d: string, asked: seq<Query>)
    requires source.V6? && ValidDomain(d)
    ensures CandidateRun(e, source, [d], asked).verdict
         == PolicyVerdict(e.codec, ToLower(d), source, e.net.txt(asked + [PolicyQuery(d)]))
  {
    WalkStep(e, source, [d], asked);
    assert [d][1..] == [];
  }

  lemma FirstFails(e: Setup, source: Addr, d: string, rest: seq<string>, asked: seq<Query>)
    requires source.V6? && ValidDomain(d) && Unconfirmed(e, source, [d] + rest, asked, 0)
    ensures CandidateRun(e, source, [d] + rest, asked) == CandidateRun(e, source, rest, asked + [PolicyQuery(d)])
  {
    PolicyQueriesCons(d, rest);
    TakeFirst(PolicyQuery(d), PolicyQueries(rest));
    WalkStep(e, source, [d] + rest, asked);
    assert ([d] + rest)[1..] == rest;
  }

  lemma RestExhausted(e: Setup, source: Addr, d: string, rest: seq<string>, asked: seq<Query>)
    requires source.V6? && rest != [] && WalkExhausted(e, source, [d] + rest, asked)
    ensures Unconfirmed(e, source, [d] + rest, asked, 0) && WalkExhausted(e, source, rest, asked + [PolicyQuery(d)])
  {
    ExhaustedCons(e, source, [d] + rest, asked);
    assert ([d] + rest)[1..] == rest;
  }

  lemma FirstDomain(domains: seq<string>) returns (d: string, rest: seq<string>)
    requires |domains| > 1 && forall x | x in domains :: ValidDomain(x)
    ensures domains == [d] + rest && ValidDomain(d) && forall x | x in rest :: ValidDomain(x)
    ensures rest != [] && rest[|rest| - 1] == domains[|domains| - 1]
  {
    d, rest := domains[0], domains[1..];
    assert d in domains && forall x | x in rest :: x in domains;
  }

  /** What the policy answer to the last of some candidates says, after all of them were asked for. */
  function LastAnswer(e: Setup, source: Addr, domains: seq<string>, asked: seq<Query>): Verdict
    requires source.V6? && domains != []
  {
    PolicyVerdict(e.codec, ToLower(domains[|domains| - 1]), source, e.net.txt(asked + PolicyQueries(domains)))
  }

  /** A walk whose candidates all fail but the last ends with what the last policy answer says. */
  lemma {:induction false} LastVerdict(e: Setup, source: Addr, domains: seq<string>, asked: seq<Query>)
    requires source.V6? && domains != [] && WalkExhausted(e, source, domains, asked)
    requires forall d | d in domains :: ValidDomain(d)
    ensures CandidateRun(e, source, domains, asked).verdict == LastAnswer(e, source, domains, asked)
    decreases |domains|
  {
    if |domains| == 1 {
      assert domains[0] in domains;
      assert domains == [domains[0]] && PolicyQueries(domains) == [PolicyQuery(domains[0])];
      LastCandidate(e, source, domains[0], asked);
    } else {
      var d, rest := FirstDomain(domains);
      RestExhausted(e, source, d, rest, asked);
      FirstFails(e, source, d, rest, asked);
      LastVerdict(e, source, rest, asked + [PolicyQuery(d)]);
      PolicyQueriesCons(d, rest);
      Regroup(asked, [PolicyQuery(d)], PolicyQueries(rest));
    }
  }

  lemma PointerNamesX()
    ensures PointerDomain([PointerText("x")]) == Some("x")
  {
    SplitNone("x", '.');
    assert ValidLabel("x");
    PointerAnswerNames("x");
    assert ToLower("x") == "x";
  }

  lemma LateAnswers(e: Setup, source: Addr, host: string, tail: Reply<seq<string>>, asked: seq<Query>)
    requires Late(e, source, host, tail)
    ensures e.net.txt(asked) == TailReply(tail, asked)
  {
  }

  lemma LatePointers(e: Setup, source: Addr, host: string, tail: Reply<seq<string>>)
    requires HasReverseName(source, 64) && HasReverseName(source, 48) && Late(e, source, host, tail)
    ensures PointersSpent(e, source, "x", "x")
  {
    PointerNamesX();
    var q := PointerHistory(source, "x", "x");
    LateAnswers(e, source, host, tail, q[..1]);
    LateAnswers(e, source, host, tail, q[..2]);
    LateAnswers(e, source, host, tail, q[..3]);
    LateAnswers(e, source, host, tail, q[..4]);
  }

  lemma LateConfirmed(e: Setup, source: Addr, host: string, tail: Reply<seq<string>>, asked: seq<Query>)
    requires source.V6? && !source.Is4In6() && Late(e, source, host, tail)
    ensures HostConfirmed(e, source, asked, host)
  {
    HostIsNamed(host);
    assert source in [source] && source.Unmap() == source;
  }

  lemma LateUnconfirmed(
    e: Setup, source: Addr, host: string, tail: Reply<seq<string>>, domains: seq<string>, asked: seq<Query>, i: nat)
    requires source.V6? && Late(e, source, host, tail) && |asked| == 6 && i < 4 < |domains|
    ensures Unconfirmed(e, source, domains, asked, i)
  {
    var h := asked + PolicyQueries(domains)[..i + 1];
    LateAnswers(e, source, host, tail, h);
    assert |h| == 7 + i;
  }

  lemma LateHost(e: Setup, source: Addr, host: string, tail: Reply<seq<string>>, asked: seq<Query>)
    requires source.V6? && !source.Is4In6() && Late(e, source, host, tail) && |asked| == 4
    ensures HostExhausted(e, source, asked, host)
  {
    LateConfirmed(e, source, host, tail, asked);
    HostCandidates(e, source, host, tail);
    var g := asked + [Ptr(source)] + [Ip6(Fqdn(host))];
    var c := Candidates(host, e.publicSuffix);
    forall i | 0 <= i < 4 ensures Unconfirmed(e, source, c, g, i) {
      LateUnconfirmed(e, source, host, tail, c, g, i);
    }
  }

  lemma LateWalk(
    e: Setup, source: Addr, host: string, tail: Reply<seq<string>>, domains: seq<string>, asked: seq<Query>)
    requires source.V6? && Late(e, source, host, tail) && |asked| == 6 && |domains| == 5
    requires WalkExhausted(e, source, domains, asked)
    requires forall d | d in domains :: ValidDomain(d) && ToLower(d) == d
    ensures CandidateRun(e, source, domains, asked).verdict == PolicyVerdict(e.codec, domains[4], source, tail)
  {
    assert domains[4] in domains;
    LastVerdict(e, source, domains, asked);
    LateAnswers(e, source, host, tail, asked + PolicyQueries(domains));
  }

  lemma LateHostRun(e: Setup, source: Addr, host: string, tail: Reply<seq<string>>, asked: seq<Query>)
    requires source.V6? && !source.Is4In6() && Late(e, source, host, tail) && |asked| == 4
    ensures HostRun(e, source, asked).verdict == PolicyVerdict(e.codec, Fifth(host, e.publicSuffix), source, tail)
  {
    LateHost(e, source, host, tail, asked);
    HostCandidates(e, source, host, tail);
    HostRunIsWalk(e, source, host, asked);
    LateWalk(e, source, host, tail, Candidates(host, e.publicSuffix), asked + [Ptr(source)] + [Ip6(Fqdn(host))]);
  }

  lemma HostRunIsWalk(e: Setup, source: Addr, host: string, asked: seq<Query>)
    requires source.V6? && HostConfirmed(e, source, asked, host)
    ensures HostRun(e, source, asked)
         == CandidateRun(e, source, Candidates(host, e.publicSuffix), asked + [Ptr(source)] + [Ip6(Fqdn(host))])
  {
  }

  lemma LateRun(e: Setup, source: Addr, host: string, tail: Reply<seq<string>>)
    requires Eligible(e.ineligible, source) && Ordinary(source) && Late(e, source, host, tail)
    ensures NeedsEleventh(e, source)
    ensures FullRun(e, source).verdict == PolicyVerdict(e.codec, Fifth(host, e.publicSuffix), source, tail)
  {
    OrdinaryHasNames(source);
    var asked := PointerHistory(source, "x", "x");
    LatePointers(e, source, host, tail);
    LateHost(e, source, host, tail, asked);
    PointersSpentIff(e, source);
    FullRunParts(e, source);
    LateHostRun(e, source, host, tail, asked);
  }

  /** The search without a budget ends with what the last answer says of the host's fifth candidate, and discovery ends
      as a temporary failure. */
  ghost predicate Hides(e: Setup, source: Addr, host: string, tail: Reply<seq<string>>)
    requires source.V6? && FiveCandidates(host, e.publicSuffix)
  {
    && NeedsEleventh(e, source)
    && FullRun(e, source).verdict == PolicyVerdict(e.codec, Fifth(host, e.publicSuffix), source, tail)
    && Stopped(FullRun(e, source)).verdict.TempError?
  }

  lemma LateHides(e: Setup, source: Addr, host: string, tail: Reply<seq<string>>)
    requires Eligible(e.ineligible, source) && Late(e, source, host, tail)
    ensures source.V6? && Hides(e, source, host, tail)
  {
    EligibleIsOrdinary(e.ineligible, source);
    LateRun(e, source, host, tail);
    BudgetRefinement(e, source);
  }

  /** Whatever the public-suffix list, and without one: for every eligible source, every host of five candidates and
      every answer to the eleventh query, be it a policy that confirms, there is a network that hides that answer. */
  lemma BudgetObservable(
    codec: PrefixText, ineligible: seq<Prefix>, publicSuffix: Option<string -> bool>, source: Addr, host: string,
    tail: Reply<seq<string>>)
    requires Eligible(ineligible, source) && FiveCandidates(host, publicSuffix)
    ensures source.V6?
    ensures exists net: Network :: Hides(Setup(codec, net, publicSuffix, ineligible), source, host, tail)
  {
    var e := Setup(codec, LateNetwork(source, host, tail), publicSuffix, ineligible);
    LateHides(e, source, host, tail);
    assert Hides(Setup(codec, LateNetwork(source, host, tail), publicSuffix, ineligible), source, host, tail);
  }

  /** A setting in which the budget shows for a source under some network. */
  ghost predicate Observable(
    codec: PrefixText, ineligible: seq<Prefix>, publicSuffix: Option<string -> bool>, source: Addr)
  {
    exists net: Network :: NeedsEleventh(Setup(codec, net, publicSuffix, ineligible), source)
  }

  lemma ExhaustedHostIsFive(e: Setup, source: Addr, asked: seq<Query>, host: string)
    requires source.V6? && HostExhausted(e, source, asked, host)
    ensures FiveCandidates(host, e.publicSuffix)
  {
    HostValid(e.net.ptr(asked + [Ptr(source)]).value);
  }

  lemma EleventhHasHost(e: Setup, source: Addr)
    requires NeedsEleventh(e, source)
    ensures exists host :: FiveCandidates(host, e.publicSuffix)
  {
    var d64, d48, host
      :| PointersSpent(e, source, d64, d48) && HostExhausted(e, source, PointerHistory(source, d64, d48), host);
    ExhaustedHostIsFive(e, source, PointerHistory(source, d64, d48), host);
  }

  /** For an eligible source the budget shows under some network exactly when the public-suffix setting leaves some host
      five candidates; without a list it always does. */
  lemma ObservableIff(codec: PrefixText, ineligible: seq<Prefix>, publicSuffix: Option<string -> bool>, source: Addr)
    requires Eligible(ineligible, source)
    ensures Observable(codec, ineligible, publicSuffix, source) <==> exists host :: FiveCandidates(host, publicSuffix)
    ensures publicSuffix.None? ==> Observable(codec, ineligible, publicSuffix, source)
  {
    if Observable(codec, ineligible, publicSuffix, source) {
      var net: Network :| NeedsEleventh(Setup(codec, net, publicSuffix, ineligible), source);
      EleventhHasHost(Setup(codec, net, publicSuffix, ineligible), source);
    }
    if publicSuffix.None? {
      SomeHost();
    }
    forall host | FiveCandidates(host, publicSuffix) ensures Observable(codec, ineligible, publicSuffix, source) {
      BudgetObservable(codec, ineligible, publicSuffix, source, host, NotFound);
      var net: Network :| Hides(Setup(codec, net, publicSuffix, ineligible), source, host, NotFound);
    }
  }
}
