/** A temporary DNS failure is never read as absence, and nothing is asked after one. */
module TempErrors {
  import opened Netip
  import opened AddressRules
  import opened Resolver
  import opened Walk
  import opened Budget

  /** The last query of a history failed with something other than not-found. */
  predicate Failing(net: Network, asked: seq<Query>)
    requires asked != []
  {
    match asked[|asked| - 1]
    case Txt(_) => net.txt(asked).Failed?
    case Ptr(_) => net.ptr(asked).Failed?
    case Ip6(_) => net.ip6(asked).Failed?
  }

  /** No query of a history failed. */
  ghost predicate Clean(net: Network, asked: seq<Query>) {
    forall i | 0 < i <= |asked| :: !Failing(net, asked[..i])
  }

  /** A run that ends as a temporary failure ends on its first failing query; any other run has none. */
  ghost predicate Settled(net: Network, r: Run) {
    if r.verdict.TempError? then r.asked != [] && Clean(net, r.asked[..|r.asked| - 1]) && Failing(net, r.asked)
    else Clean(net, r.asked)
  }

  lemma OneMoreClean(net: Network, asked: seq<Query>, q: Query)
    requires Clean(net, asked)
    ensures Clean(net, asked + [q]) <==> !Failing(net, asked + [q])
    ensures (asked + [q])[..|asked|] == asked
  {
    var h := asked + [q];
    assert h[..|h|] == h;
    assert forall i | 0 < i <= |asked| :: h[..i] == asked[..i];
  }

  lemma ConfirmSettled(e: Setup, domain: string, source: Addr, asked: seq<Query>)
    requires source.V6? && Clean(e.net, asked)
    ensures Settled(e.net, ConfirmRun(e, domain, source, asked))
  {
    OneMoreClean(e.net, asked, PolicyQuery(domain));
  }

  lemma {:induction false} PointerRunSettled(e: Setup, source: Addr, lengths: seq<nat>, asked: seq<Query>)
    requires source.V6? && Clean(e.net, asked)
    ensures Settled(e.net, PointerRun(e, source, lengths, asked))
    decreases |lengths|
  {
    if lengths != [] {
      if ReverseName(source, lengths[0]).None? {
        PointerRunSettled(e, source, lengths[1..], asked);
      } else {
        var h := asked + [PointerQuery(source, lengths[0])];
        OneMoreClean(e.net, asked, PointerQuery(source, lengths[0]));
        var reply := e.net.txt(h);
        if !reply.Failed? {
          PointerRunSettled(e, source, lengths[1..], h);
        }
        if reply.Found? && PointerDomain(reply.value).Some? {
          var c := ConfirmRun(e, PointerDomain(reply.value).value, source, h);
          ConfirmSettled(e, PointerDomain(reply.value).value, source, h);
          if c.verdict.Nobody? {
            PointerRunSettled(e, source, lengths[1..], c.asked);
          }
        }
      }
    }
  }

  lemma {:induction false} CandidateRunSettled(e: Setup, source: Addr, candidates: seq<string>, asked: seq<Query>)
    requires source.V6? && Clean(e.net, asked)
    ensures Settled(e.net, CandidateRun(e, source, candidates, asked))
    decreases |candidates|
  {
    if candidates != [] {
      var c := ConfirmRun(e, candidates[0], source, asked);
      ConfirmSettled(e, candidates[0], source, asked);
      if c.verdict.Nobody? {
        CandidateRunSettled(e, source, candidates[1..], c.asked);
      }
    }
  }

  lemma HostRunSettled(e: Setup, source: Addr, asked: seq<Query>)
    requires source.V6? && Clean(e.net, asked)
    ensures Settled(e.net, HostRun(e, source, asked))
  {
    var h := asked + [Ptr(source)];
    OneMoreClean(e.net, asked, Ptr(source));
    var reply := e.net.ptr(h);
    if reply.Found? && HostOf(reply.value).Some? {
      var host := HostOf(reply.value).value;
      OneMoreClean(e.net, h, Ip6(Fqdn(host)));
      var g := h + [Ip6(Fqdn(host))];
      if e.net.ip6(g).Found? {
        CandidateRunSettled(e, source, Candidates(host, e.publicSuffix), g);
      }
    }
  }

  lemma FullRunSettled(e: Setup, source: Addr)
    ensures Settled(e.net, FullRun(e, source))
  {
    if Eligible(e.ineligible, source) {
      PointerRunSettled(e, source, POINTER_LENGTHS, []);
      var p := PointerRun(e, source, POINTER_LENGTHS, []);
      if p.verdict.Nobody? {
        HostRunSettled(e, source, p.asked);
      }
    }
  }

  lemma CleanPrefix(net: Network, asked: seq<Query>, n: nat)
    requires Clean(net, asked) && n <= |asked|
    ensures Clean(net, asked[..n])
  {
    assert forall i | 0 < i <= n :: asked[..n][..i] == asked[..i];
  }

  lemma SettledIff(net: Network, r: Run)
    requires Settled(net, r)
    ensures r.verdict.TempError? <==> r.asked != [] && Failing(net, r.asked)
    ensures r.asked != [] ==> Clean(net, r.asked[..|r.asked| - 1])
  {
    if !r.verdict.TempError? && r.asked != [] {
      CleanPrefix(net, r.asked, |r.asked| - 1);
      assert r.asked[..|r.asked|] == r.asked;
    }
  }

  lemma CutClean(net: Network, r: Run, n: nat)
    requires Settled(net, r) && 0 < n < |r.asked|
    ensures Clean(net, r.asked[..n][..n - 1])
  {
    SettledIff(net, r);
    CleanPrefix(net, r.asked[..|r.asked| - 1], n - 1);
    assert r.asked[..|r.asked| - 1][..n - 1] == r.asked[..n][..n - 1];
  }

  /** What stopping at the budget leaves of a settled run. */
  lemma StoppedSettled(net: Network, full: Run)
    requires Settled(net, full) && |full.asked| <= MAX_QUERIES + 1
    ensures var r := Stopped(full);
            && (r.verdict.TempError? <==> |full.asked| > MAX_QUERIES || (r.asked != [] && Failing(net, r.asked)))
            && (r.asked != [] ==> Clean(net, r.asked[..|r.asked| - 1]))
            && (!r.verdict.TempError? ==> Clean(net, r.asked))
  {
    if |full.asked| > MAX_QUERIES {
      CutClean(net, full, MAX_QUERIES);
    } else {
      SettledIff(net, full);
    }
  }

  /** Discovery, budget included: the outcome is a temporary failure exactly when the last query issued failed or an
      eleventh was needed; no query follows a failed one; and absence or a confirmation means that none failed. */
  lemma TempErrorIff(e: Setup, source: Addr)
    ensures var r := Stopped(FullRun(e, source));
            && (r.verdict.TempError? <==> NeedsEleventh(e, source) || (r.asked != [] && Failing(e.net, r.asked)))
            && (r.asked != [] ==> Clean(e.net, r.asked[..|r.asked| - 1]))
            && (!r.verdict.TempError? ==> Clean(e.net, r.asked))
  {
    FullRunSettled(e, source);
    FullRunLength(e, source);
    StoppedSettled(e.net, FullRun(e, source));
  }
}
