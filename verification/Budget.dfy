/** The query budget: when the walk needs an eleventh query, and what stopping at ten changes. */
module Budget {
  import opened Wrappers
  import opened Text
  import opened Netip
  import opened AddressRules
  import opened Names
  import opened Tags
  import opened Record
  import opened Resolver
  import opened Walk

  // ---------- The domain guard ----------

  /** Every domain that reaches confirmation is already valid and in lower case, so the guard there never fires. */
  lemma PointerDomainValid(txts: seq<string>)
    ensures var d := PointerDomain(txts); d.Some? ==> ValidDomain(d.value) && ToLower(d.value) == d.value
  {
    var rec := SingleRecord(txts);
    if rec.Some? && ParsePointer(rec.value).Ok? {
      var raw := ValueOrEmpty(TagsOf(rec.value).value, "d");
      LowerDomain(raw);
      ToLowerIdempotent(raw);
    }
  }

  lemma HostValid(names: seq<string>)
    ensures var h := HostOf(names); h.Some? ==> ValidDomain(h.value) && ToLower(h.value) == h.value
  {
    if HostOf(names).Some? {
      LowerDomain(TrimDot(names[0]));
      ToLowerIdempotent(TrimDot(names[0]));
    }
  }

  lemma HostCandidateValid(e: Setup, names: seq<string>, i: nat)
    requires HostOf(names).Some? && i < |Candidates(HostOf(names).value, e.publicSuffix)|
    ensures var host := HostOf(names).value;
            var c := Candidates(host, e.publicSuffix)[i];
            ValidDomain(c) && ToLower(c) == c && LabelSuffix(c, host)
  {
    HostValid(names);
    CandidatesValid(HostOf(names).value, e.publicSuffix, i);
  }

  // ---------- The budget ----------

  lemma {:induction false} PointerRunLength(e: Setup, source: Addr, lengths: seq<nat>, asked: seq<Query>)
    requires source.V6?
    ensures |PointerRun(e, source, lengths, asked).asked| <= |asked| + 2 * |lengths|
    decreases |lengths|
  {
    if lengths != [] {
      if ReverseName(source, lengths[0]).None? {
        PointerRunLength(e, source, lengths[1..], asked);
      } else {
        var h := asked + [PointerQuery(source, lengths[0])];
        PointerRunLength(e, source, lengths[1..], h);
        var reply := e.net.txt(h);
        if reply.Found? && PointerDomain(reply.value).Some? {
          PointerRunLength(e, source, lengths[1..], ConfirmRun(e, PointerDomain(reply.value).value, source, h).asked);
        }
      }
    }
  }

  function PolicyQueries(domains: seq<string>): (qs: seq<Query>)
    ensures |qs| == |domains|
  {
    Map(PolicyQuery, domains)
  }

  /** The policy of the i-th candidate does not confirm, given everything asked by then. */
  predicate Unconfirmed(e: Setup, source: Addr, domains: seq<string>, asked: seq<Query>, i: nat)
    requires source.V6? && i < |domains|
  {
    PolicyVerdict(e.codec, ToLower(domains[i]), source, e.net.txt(asked + PolicyQueries(domains)[..i + 1])).Nobody?
  }

  lemma ShiftQueries(domains: seq<string>, asked: seq<Query>, k: nat)
    requires k < |domains|
    ensures asked + [PolicyQuery(domains[0])] + PolicyQueries(domains[1..])[..k]
         == asked + PolicyQueries(domains)[..k + 1]
  {
    var d, rest := domains[0], domains[1..];
    assert domains == [d] + rest;
    MapCons(PolicyQuery, d, rest);
    ShiftParts(asked, PolicyQuery(d), PolicyQueries(rest), k);
  }

  lemma ShiftParts(asked: seq<Query>, q: Query, more: seq<Query>, k: nat)
    requires k <= |more|
    ensures asked + [q] + more[..k] == asked + ([q] + more)[..k + 1]
  {
  }

  lemma ShiftUnconfirmed(e: Setup, source: Addr, domains: seq<string>, asked: seq<Query>)
    requires source.V6? && domains != []
    ensures var h := asked + [PolicyQuery(domains[0])];
            forall i | 0 <= i < |domains| - 1 ::
              Unconfirmed(e, source, domains[1..], h, i) == Unconfirmed(e, source, domains, asked, i + 1)
  {
    var h := asked + [PolicyQuery(domains[0])];
    forall i | 0 <= i < |domains| - 1
      ensures Unconfirmed(e, source, domains[1..], h, i) == Unconfirmed(e, source, domains, asked, i + 1)
    {
      ShiftQueries(domains, asked, i + 1);
    }
  }

  /** All but the last of the candidates fail to confirm. */
  ghost predicate WalkExhausted(e: Setup, source: Addr, domains: seq<string>, asked: seq<Query>)
    requires source.V6?
  {
    forall i | 0 <= i < |domains| - 1 :: Unconfirmed(e, source, domains, asked, i)
  }

  lemma ExhaustedCons(e: Setup, source: Addr, domains: seq<string>, asked: seq<Query>)
    requires source.V6? && |domains| > 1
    ensures WalkExhausted(e, source, domains, asked)
       <==> && Unconfirmed(e, source, domains, asked, 0)
            && WalkExhausted(e, source, domains[1..], asked + [PolicyQuery(domains[0])])
  {
    var h := asked + [PolicyQuery(domains[0])];
    ShiftUnconfirmed(e, source, domains, asked);
    forall i | 0 < i < |domains| - 1
      ensures Unconfirmed(e, source, domains, asked, i) == Unconfirmed(e, source, domains[1..], h, i - 1)
    {
      assert Unconfirmed(e, source, domains[1..], h, i - 1) == Unconfirmed(e, source, domains, asked, (i - 1) + 1);
    }
  }

  /** The candidate walk asks for the policies of the first k candidates, and for all of them exactly when all but
      the last fail to confirm. */
  lemma {:induction false} CandidateRunShape(e: Setup, source: Addr, domains: seq<string>, asked: seq<Query>)
    returns (k: nat)
    requires source.V6? && forall d | d in domains :: ValidDomain(d)
    ensures k <= |domains|
    ensures CandidateRun(e, source, domains, asked).asked == asked + PolicyQueries(domains)[..k]
    ensures k == |domains| <==> WalkExhausted(e, source, domains, asked)
    decreases |domains|
  {
    if domains == [] {
      k := 0;
      assert asked + [] == asked;
    } else {
      var h := asked + [PolicyQuery(domains[0])];
      assert domains[0] in domains;
      ShiftQueries(domains, asked, 0);
      assert h + [] == h;
      assert ConfirmRun(e, domains[0], source, asked).verdict.Nobody? <==> Unconfirmed(e, source, domains, asked, 0);
      if |domains| > 1 {
        ExhaustedCons(e, source, domains, asked);
      }
      if Unconfirmed(e, source, domains, asked, 0) {
        var rest := CandidateRunShape(e, source, domains[1..], h);
        k := rest + 1;
        ShiftQueries(domains, asked, rest);
      } else {
        k := 1;
      }
    }
  }

  predicate NamesOperator(reply: Reply<seq<string>>, domain: string) {
    reply.Found? && PointerDomain(reply.value) == Some(domain)
  }

  /** Both pointers are usable and neither operator confirms. */
  predicate PointersSpent(e: Setup, source: Addr, d64: string, d48: string)
    requires HasReverseName(source, 64) && HasReverseName(source, 48)
  {
    var q := PointerHistory(source, d64, d48);
    && NamesOperator(e.net.txt(q[..1]), d64)
    && PolicyVerdict(e.codec, d64, source, e.net.txt(q[..2])).Nobody?
    && NamesOperator(e.net.txt(q[..3]), d48)
    && PolicyVerdict(e.codec, d48, source, e.net.txt(q[..4])).Nobody?
  }

  function PointerHistory(source: Addr, d64: string, d48: string): (q: seq<Query>)
    requires HasReverseName(source, 64) && HasReverseName(source, 48)
    ensures |q| == 4
  {
    [PointerQuery(source, 64), PolicyQuery(d64), PointerQuery(source, 48), PolicyQuery(d48)]
  }

  /** A usable pointer whose operator does not confirm. */
  predicate PointerSpent(e: Setup, source: Addr, n: nat, asked: seq<Query>, d: string)
    requires HasReverseName(source, n)
  {
    var h := asked + [PointerQuery(source, n)];
    NamesOperator(e.net.txt(h), d) && PolicyVerdict(e.codec, d, source, e.net.txt(h + [PolicyQuery(d)])).Nobody?
  }

  /** Only a usable and unconfirmed pointer costs two queries and lets the walk go on. */
  lemma OnePointer(e: Setup, source: Addr, n: nat, rest: seq<nat>, asked: seq<Query>)
    requires HasReverseName(source, n)
    ensures var r := PointerRun(e, source, [n] + rest, asked);
            && (forall d | PointerSpent(e, source, n, asked, d) ::
                  r == PointerRun(e, source, rest, asked + [PointerQuery(source, n)] + [PolicyQuery(d)]))
            && ((forall d :: !PointerSpent(e, source, n, asked, d)) ==>
                  !r.verdict.Nobody? || |r.asked| <= |asked| + 1 + 2 * |rest|)
  {
    assert ([n] + rest)[1..] == rest;
    var h := asked + [PointerQuery(source, n)];
    PointerRunLength(e, source, rest, h);
    var reply := e.net.txt(h);
    if reply.Found? && PointerDomain(reply.value).Some? {
      var d := PointerDomain(reply.value).value;
      PointerDomainValid(reply.value);
      PointerRunLength(e, source, rest, h + [PolicyQuery(d)]);
      assert ConfirmRun(e, d, source, h).verdict.Nobody? <==> PointerSpent(e, source, n, asked, d);
    }
  }

  lemma FourParts<T>(a: T, b: T, c: T, d: T)
    ensures [a, b, c, d][..1] == [] + [a]
    ensures [a, b, c, d][..2] == [] + [a] + [b]
    ensures [a, b, c, d][..3] == [] + [a] + [b] + [c]
    ensures [a, b, c, d][..4] == [] + [a] + [b] + [c] + [d] == [a, b, c, d]
  {
  }

  lemma SpentInTurn(e: Setup, source: Addr, d64: string, d48: string)
    requires HasReverseName(source, 64) && HasReverseName(source, 48)
    ensures PointersSpent(e, source, d64, d48)
       <==> && PointerSpent(e, source, 64, [], d64)
            && PointerSpent(e, source, 48, PointerHistory(source, d64, d48)[..2], d48)
  {
    FourParts(PointerQuery(source, 64), PolicyQuery(d64), PointerQuery(source, 48), PolicyQuery(d48));
  }

  /** Step 1 asks four queries and goes on to step 2 exactly when both pointers are usable and neither confirms. */
  lemma PointersSpentIff(e: Setup, source: Addr)
    requires HasReverseName(source, 64) && HasReverseName(source, 48)
    ensures var r := PointerRun(e, source, POINTER_LENGTHS, []);
            && (r.verdict.Nobody? ==> |r.asked| <= 4)
            && (r.verdict.Nobody? && |r.asked| == 4 <==> exists d64, d48 :: PointersSpent(e, source, d64, d48))
            && (forall d64, d48 | PointersSpent(e, source, d64, d48) ::
                  r == Run(Nobody, PointerHistory(source, d64, d48)))
  {
    assert POINTER_LENGTHS == [64] + [48];
    OnePointer(e, source, 64, [48], []);
    PointerRunLength(e, source, POINTER_LENGTHS, []);
    forall d64 | PointerSpent(e, source, 64, [], d64)
      ensures var r := PointerRun(e, source, POINTER_LENGTHS, []);
              && (r.verdict.Nobody? && |r.asked| == 4 ==> exists d48 :: PointersSpent(e, source, d64, d48))
              && (forall d48 | PointersSpent(e, source, d64, d48) :: r == Run(Nobody, PointerHistory(source, d64, d48)))
    {
      SecondPointer(e, source, d64);
    }
    forall d64, d48 | PointersSpent(e, source, d64, d48) ensures PointerSpent(e, source, 64, [], d64) {
      SpentInTurn(e, source, d64, d48);
    }
  }

  lemma SecondPointer(e: Setup, source: Addr, d64: string)
    requires HasReverseName(source, 64) && HasReverseName(source, 48) && PointerSpent(e, source, 64, [], d64)
    ensures var h := [] + [PointerQuery(source, 64)] + [PolicyQuery(d64)];
            var r := PointerRun(e, source, [48], h);
            && (r.verdict.Nobody? && |r.asked| == 4 ==> exists d48 :: PointersSpent(e, source, d64, d48))
            && (forall d48 | PointersSpent(e, source, d64, d48) :: r == Run(Nobody, PointerHistory(source, d64, d48)))
  {
    var h := [] + [PointerQuery(source, 64)] + [PolicyQuery(d64)];
    assert [48] == [48] + [];
    OnePointer(e, source, 48, [], h);
    forall d48
      ensures PointersSpent(e, source, d64, d48) <==> PointerSpent(e, source, 48, h, d48)
      ensures PointerHistory(source, d64, d48) == h + [PointerQuery(source, 48)] + [PolicyQuery(d48)]
    {
      SpentInTurn(e, source, d64, d48);
      FourParts(PointerQuery(source, 64), PolicyQuery(d64), PointerQuery(source, 48), PolicyQuery(d48));
    }
  }

  /** The PTR answer names a host and the forward lookup of that host leads back to the source. */
  predicate HostConfirmed(e: Setup, source: Addr, asked: seq<Query>, host: string) {
    var h := asked + [Ptr(source)];
    var g := h + [Ip6(Fqdn(host))];
    && e.net.ptr(h).Found? && HostOf(e.net.ptr(h).value) == Some(host)
    && e.net.ip6(g).Found? && LeadsBack(e.net.ip6(g).value, source)
  }

  /** A forward-confirmed host with five candidates, of which the first four fail to confirm. */
  ghost predicate HostExhausted(e: Setup, source: Addr, asked: seq<Query>, host: string)
    requires source.V6?
  {
    && HostConfirmed(e, source, asked, host)
    && |Candidates(host, e.publicSuffix)| == 5
    && WalkExhausted(e, source, Candidates(host, e.publicSuffix), asked + [Ptr(source)] + [Ip6(Fqdn(host))])
  }

  lemma CandidatesOf(e: Setup, names: seq<string>)
    requires HostOf(names).Some?
    ensures var c := Candidates(HostOf(names).value, e.publicSuffix);
            |c| <= MAX_CANDIDATES && forall d | d in c :: ValidDomain(d)
  {
    var c := Candidates(HostOf(names).value, e.publicSuffix);
    forall d | d in c ensures ValidDomain(d) {
      var i :| 0 <= i < |c| && c[i] == d;
      HostCandidateValid(e, names, i);
    }
    CandidatesAreWalk(HostOf(names).value, e.publicSuffix);
  }

  lemma NamedRunLength(e: Setup, source: Addr, names: seq<string>, asked: seq<Query>)
    requires source.V6? && HostOf(names).Some?
    requires e.net.ptr(asked + [Ptr(source)]) == Reply.Found(names)
    ensures var host := HostOf(names).value;
            var n := |NamedRun(e, source, host, asked + [Ptr(source)]).asked|;
            n <= |asked| + 7 && (n == |asked| + 7 <==> HostExhausted(e, source, asked, host))
  {
    var host := HostOf(names).value;
    var g := asked + [Ptr(source)] + [Ip6(Fqdn(host))];
    CandidatesOf(e, names);
    var c := Candidates(host, e.publicSuffix);
    var k := CandidateRunShape(e, source, c, g);
    assert |CandidateRun(e, source, c, g).asked| == |asked| + 2 + k;
  }

  /** Step 2 asks at most seven queries, and all seven exactly for an exhausted host. */
  lemma HostRunLength(e: Setup, source: Addr, asked: seq<Query>)
    requires source.V6?
    ensures |HostRun(e, source, asked).asked| <= |asked| + 7
    ensures |HostRun(e, source, asked).asked| == |asked| + 7 <==> exists host :: HostExhausted(e, source, asked, host)
  {
    var reply := e.net.ptr(asked + [Ptr(source)]);
    if reply.Found? && HostOf(reply.value).Some? {
      NamedRunLength(e, source, reply.value, asked);
    }
  }

  lemma EligibleHasNames(ineligible: seq<Prefix>, source: Addr)
    requires Eligible(ineligible, source)
    ensures HasReverseName(source, 64) && HasReverseName(source, 48)
  {
  }

  ghost predicate InFamily(e: Setup, source: Addr)
    requires HasReverseName(source, 64) && HasReverseName(source, 48)
  {
    exists d64, d48, host ::
      PointersSpent(e, source, d64, d48) && HostExhausted(e, source, PointerHistory(source, d64, d48), host)
  }

  /** The one family of runs that needs an eleventh query: both pointers usable but unconfirmed, the host
      forward-confirmed, four candidates failed and a fifth remaining. */
  ghost predicate NeedsEleventh(e: Setup, source: Addr) {
    Eligible(e.ineligible, source) && (EligibleHasNames(e.ineligible, source); InFamily(e, source))
  }

  lemma StepTwoLength(e: Setup, source: Addr, asked: seq<Query>)
    requires source.V6? && |asked| <= 4
    ensures |HostRun(e, source, asked).asked| <= 11
    ensures |HostRun(e, source, asked).asked| == 11
       <==> |asked| == 4 && exists host :: HostExhausted(e, source, asked, host)
  {
    HostRunLength(e, source, asked);
  }

  lemma FullRunParts(e: Setup, source: Addr)
    requires Eligible(e.ineligible, source)
    ensures var p := PointerRun(e, source, POINTER_LENGTHS, []);
            FullRun(e, source) == if p.verdict.Nobody? then HostRun(e, source, p.asked) else p
  {
  }

  /** A history of four queries in which both pointers were spent. */
  ghost predicate Spent(e: Setup, source: Addr, asked: seq<Query>)
    requires HasReverseName(source, 64) && HasReverseName(source, 48)
  {
    exists d64, d48 :: PointersSpent(e, source, d64, d48) && asked == PointerHistory(source, d64, d48)
  }

  lemma FourMeansSpent(e: Setup, source: Addr)
    requires HasReverseName(source, 64) && HasReverseName(source, 48)
    ensures var r := PointerRun(e, source, POINTER_LENGTHS, []);
            && (r.verdict.Nobody? ==> |r.asked| <= 4)
            && (r.verdict.Nobody? && |r.asked| == 4 <==> Spent(e, source, r.asked))
  {
    PointersSpentIff(e, source);
  }

  lemma SpentMeansFamily(e: Setup, source: Addr, asked: seq<Query>, host: string)
    requires HasReverseName(source, 64) && HasReverseName(source, 48)
    requires Spent(e, source, asked) && HostExhausted(e, source, asked, host)
    ensures InFamily(e, source)
  {
    var d64, d48 :| PointersSpent(e, source, d64, d48) && asked == PointerHistory(source, d64, d48);
  }

  /** In the family step 1 ends after four queries, with a host to exhaust. */
  lemma FamilyMeansSpent(e: Setup, source: Addr)
    requires HasReverseName(source, 64) && HasReverseName(source, 48) && InFamily(e, source)
    ensures var r := PointerRun(e, source, POINTER_LENGTHS, []);
            r.verdict.Nobody? && |r.asked| == 4 && exists host :: HostExhausted(e, source, r.asked, host)
  {
    PointersSpentIff(e, source);
    var d64, d48, host
      :| PointersSpent(e, source, d64, d48) && HostExhausted(e, source, PointerHistory(source, d64, d48), host);
    assert PointerRun(e, source, POINTER_LENGTHS, []) == Run(Nobody, PointerHistory(source, d64, d48));
  }

  /** Step 2 after an unsuccessful step 1 ends at eleven queries or fewer, and at eleven exactly in the family. */
  lemma WalkLength(e: Setup, source: Addr)
    requires HasReverseName(source, 64) && HasReverseName(source, 48)
    requires PointerRun(e, source, POINTER_LENGTHS, []).verdict.Nobody?
    ensures var n := |HostRun(e, source, PointerRun(e, source, POINTER_LENGTHS, []).asked).asked|;
            n <= 11 && (n == 11 <==> InFamily(e, source))
  {
    var asked := PointerRun(e, source, POINTER_LENGTHS, []).asked;
    FourMeansSpent(e, source);
    StepTwoLength(e, source, asked);
    if |HostRun(e, source, asked).asked| == 11 {
      var host :| HostExhausted(e, source, asked, host);
      SpentMeansFamily(e, source, asked, host);
    }
    if InFamily(e, source) {
      FamilyMeansSpent(e, source);
    }
  }

  lemma FullRunLength(e: Setup, source: Addr)
    ensures |FullRun(e, source).asked| <= 11
    ensures |FullRun(e, source).asked| == 11 <==> NeedsEleventh(e, source)
  {
    if Eligible(e.ineligible, source) {
      EligibleHasNames(e.ineligible, source);
      FullRunParts(e, source);
      PointerRunLength(e, source, POINTER_LENGTHS, []);
      if PointerRun(e, source, POINTER_LENGTHS, []).verdict.Nobody? {
        WalkLength(e, source);
      } else if InFamily(e, source) {
        FamilyMeansSpent(e, source);
      }
    }
  }

  /** The budget is observable in exactly one family of runs: every other run is the run without a budget, and a run
      of that family ends as a temporary failure after its tenth query. */
  lemma BudgetRefinement(e: Setup, source: Addr)
    ensures |Stopped(FullRun(e, source)).asked| <= 10
    ensures !NeedsEleventh(e, source) ==> Stopped(FullRun(e, source)) == FullRun(e, source)
    ensures NeedsEleventh(e, source) ==>
              && |FullRun(e, source).asked| == 11
              && Stopped(FullRun(e, source)) == Run(TempError, FullRun(e, source).asked[..10])
  {
    FullRunLength(e, source);
  }
}
