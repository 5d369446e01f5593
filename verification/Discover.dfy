/** Mode-1 discovery as it is carried out: an object that spends a query budget, lookup by lookup. */
module Discover {
  import opened Wrappers
  import opened Text
  import opened Netip
  import opened AddressRules
  import opened Names
  import opened Record
  import opened Resolver
  import opened Walk

  class Discovery {
    const e: Setup
    var budget: int
    /** Everything the network has been asked, which is what its next answer may depend on. */
    var asked: seq<Query>

    ghost predicate Valid()
      reads this
    {
      0 <= budget && budget + |asked| == MAX_QUERIES
    }

    constructor (e: Setup)
      ensures Valid() && this.e == e && asked == []
    {
      this.e := e;
      budget := MAX_QUERIES;
      asked := [];
    }

    method Spend(q: Query) returns (ok: bool)
      requires Valid()
      modifies this
      ensures Valid()
      ensures ok <==> |old(asked)| < 10
      ensures asked == if ok then old(asked) + [q] else old(asked)
    {
      if budget <= 0 {
        return false;
      }
      budget := budget - 1;
      asked := asked + [q];
      return true;
    }

    method LookupTxt(name: string) returns (r: Reply<seq<string>>)
      requires Valid()
      modifies this
      ensures Valid()
      ensures |old(asked)| < MAX_QUERIES ==> asked == old(asked) + [Txt(Fqdn(name))] && r == e.net.txt(asked)
      ensures |old(asked)| == MAX_QUERIES ==> asked == old(asked) && r == Failed
    {
      var ok := Spend(Txt(Fqdn(name)));
      r := if ok then e.net.txt(asked) else Failed;
    }

    method LookupAddr(source: Addr) returns (r: Reply<seq<string>>)
      requires Valid()
      modifies this
      ensures Valid()
      ensures |old(asked)| < MAX_QUERIES ==> asked == old(asked) + [Ptr(source)] && r == e.net.ptr(asked)
      ensures |old(asked)| == MAX_QUERIES ==> asked == old(asked) && r == Failed
    {
      var ok := Spend(Ptr(source));
      r := if ok then e.net.ptr(asked) else Failed;
    }

    method LookupNetIP(host: string) returns (r: Reply<seq<Addr>>)
      requires Valid()
      modifies this
      ensures Valid()
      ensures |old(asked)| < MAX_QUERIES ==> asked == old(asked) + [Ip6(Fqdn(host))] && r == e.net.ip6(asked)
      ensures |old(asked)| == MAX_QUERIES ==> asked == old(asked) && r == Failed
    {
      var ok := Spend(Ip6(Fqdn(host)));
      r := if ok then e.net.ip6(asked) else Failed;
    }

    /** Whether a record in a policy answer confirms the source. */
    method Confirm(domain: string, source: Addr) returns (v: Verdict)
      requires Valid() && source.V6?
      modifies this
      ensures Valid()
      ensures Run(v, asked) == Stopped(ConfirmRun(e, domain, source, old(asked)))
    {
      if !ValidDomain(domain) {
        return Nobody;
      }
      var name := ToLower(domain);
      var reply := LookupTxt(POLICY_PREFIX + name);
      if reply.Failed? {
        return TempError;
      }
      if reply.NotFound? {
        return Nobody;
      }
      v := ReadPolicy(e.codec, name, source, reply.value);
    }

    method ForwardConfirm(host: string, source: Addr) returns (r: Reply<bool>)
      requires Valid()
      modifies this
      ensures Valid()
      ensures |old(asked)| == MAX_QUERIES ==> asked == old(asked) && r == Failed
      ensures |old(asked)| < MAX_QUERIES ==> asked == old(asked) + [Ip6(Fqdn(host))]
      ensures |old(asked)| < MAX_QUERIES ==>
                r == match e.net.ip6(asked)
                     case Failed => Failed
                     case NotFound => Reply.Found(false)
                     case Found(addrs) => Reply.Found(LeadsBack(addrs, source))
    {
      var reply := LookupNetIP(host);
      if reply.Failed? {
        return Failed;
      }
      if reply.NotFound? {
        return Reply.Found(false);
      }
      var addrs := reply.value;
      for i := 0 to |addrs|
        invariant forall j | 0 <= j < i :: addrs[j].Unmap() != source
      {
        if addrs[i].Unmap() == source {
          return Reply.Found(true);
        }
      }
      return Reply.Found(false);
    }

    /** The pointer of one length: a verdict that ends step 1, or no operator and the rest of it to go. */
    method TryPointer(source: Addr, n: nat, ghost rest: seq<nat>) returns (v: Verdict)
      requires Valid() && source.V6?
      modifies this
      ensures Valid()
      ensures var all := PointerRun(e, source, [n] + rest, old(asked));
              if v.Nobody? then all == PointerRun(e, source, rest, asked) else Run(v, asked) == Stopped(all)
    {
      assert ([n] + rest)[1..] == rest;
      PointerRunExtends(e, source, [n] + rest, asked);
      var name := ReverseNibbleName(source, n);
      if name.None? {
        return Nobody;
      }
      PointerStepExtends(e, source, [n] + rest, asked);
      var reply := LookupTxt(name.value);
      if reply.Failed? {
        return TempError;
      }
      if reply.NotFound? {
        return Nobody;
      }
      var domain := ReadPointer(reply.value);
      if domain.None? {
        return Nobody;
      }
      v := Confirm(domain.value, source);
    }

    /** Step 1. */
    method Pointers(source: Addr) returns (v: Verdict)
      requires Valid() && asked == [] && source.V6?
      modifies this
      ensures Valid()
      ensures Run(v, asked) == Stopped(PointerRun(e, source, POINTER_LENGTHS, []))
    {
      for i := 0 to 2
        invariant Valid()
        invariant PointerRun(e, source, POINTER_LENGTHS, []) == PointerRun(e, source, POINTER_LENGTHS[i..], asked)
      {
        ghost var rest := POINTER_LENGTHS[i + 1..];
        assert POINTER_LENGTHS[i..] == [POINTER_LENGTHS[i]] + rest;
        v := TryPointer(source, POINTER_LENGTHS[i], rest);
        if !v.Nobody? {
          return v;
        }
      }
      assert POINTER_LENGTHS[2..] == [];
      return Nobody;
    }

    /** Step 2 from the confirmed host on. */
    method Walk(source: Addr, host: string) returns (v: Verdict)
      requires Valid() && source.V6?
      modifies this
      ensures Valid()
      ensures Run(v, asked) == Stopped(CandidateRun(e, source, Candidates(host, e.publicSuffix), old(asked)))
    {
      var candidates := CandidateDomains(host, e.publicSuffix);
      for i := 0 to |candidates|
        invariant Valid()
        invariant CandidateRun(e, source, candidates, old(asked)) == CandidateRun(e, source, candidates[i..], asked)
      {
        ghost var rest := candidates[i..];
        assert rest[0] == candidates[i] && rest[1..] == candidates[i + 1..];
        CandidateStepExtends(e, source, rest, asked);
        v := Confirm(candidates[i], source);
        if !v.Nobody? {
          return v;
        }
      }
      assert candidates[|candidates|..] == [];
      return Nobody;
    }

    /** Step 2 once the PTR answer has named a host. */
    method FromName(source: Addr, host: string) returns (v: Verdict)
      requires Valid() && source.V6?
      modifies this
      ensures Valid()
      ensures Run(v, asked) == Stopped(NamedRun(e, source, host, old(asked)))
    {
      NamedRunExtends(e, source, host, asked);
      var confirmed := ForwardConfirm(host, source);
      if confirmed.Failed? {
        return TempError;
      }
      if confirmed.NotFound? || !confirmed.value {
        return Nobody;
      }
      v := Walk(source, host);
    }

    /** Step 2. */
    method FromHost(source: Addr) returns (v: Verdict)
      requires Valid() && source.V6?
      modifies this
      ensures Valid()
      ensures Run(v, asked) == Stopped(HostRun(e, source, old(asked)))
    {
      HostRunExtends(e, source, asked);
      var ptrs := LookupAddr(source);
      if ptrs.Failed? {
        return TempError;
      }
      if ptrs.NotFound? || |ptrs.value| == 0 {
        return Nobody;
      }
      var host := TrimDot(ptrs.value[0]);
      if !ValidDomain(host) {
        return Nobody;
      }
      v := FromName(source, ToLower(host));
    }
  }

  /** What the policy answer says, by scanning its records and its prefixes. */
  method ReadPolicy(codec: PrefixText, domain: string, source: Addr, txts: seq<string>) returns (v: Verdict)
    requires source.V6?
    ensures v == PolicyVerdict(codec, domain, source, Reply.Found(txts))
  {
    var rec := SingleSwornRecord(txts);
    if rec.None? {
      return Nobody;
    }
    var parsed := ParsePolicyRecord(codec, rec.value);
    if parsed.Err? {
      return Nobody;
    }
    var policy := parsed.value;
    var best := BestPrefix(policy.prefixes, source);
    if best.None? || policy.unit > 128 {
      return Nobody;
    }
    return Confirmed(Finding(domain, Enclosing(source, policy.unit), "dns",
                             Enclosing(source, OBSERVED_UNIT_LEN), best.value, policy.testing));
  }

  method ReadPointer(txts: seq<string>) returns (domain: Option<string>)
    ensures domain == PointerDomain(txts)
  {
    var rec := SingleSwornRecord(txts);
    if rec.None? {
      return None;
    }
    var parsed := ParsePointerRecord(rec.value);
    return if parsed.Ok? then Some(parsed.value) else None;
  }

  method SingleSwornRecord(txts: seq<string>) returns (rec: Option<string>)
    ensures rec == SingleRecord(txts)
  {
    var found := "";
    var n := 0;
    for i := 0 to |txts|
      invariant n == |SwornRecords(txts[..i])|
      invariant n > 0 ==> found == SwornRecords(txts[..i])[n - 1]
    {
      assert txts[..i + 1][..i] == txts[..i];
      if RECORD_PREFIX <= txts[i] {
        found := txts[i];
        n := n + 1;
      }
    }
    assert txts[..|txts|] == txts;
    return if n == 1 then Some(found) else None;
  }

  method BestPrefix(prefixes: seq<Prefix>, source: Addr) returns (best: Option<Prefix>)
    ensures best == LongestMatch(prefixes, source)
  {
    best := None;
    for i := 0 to |prefixes|
      invariant best == LongestMatch(prefixes[..i], source)
    {
      assert prefixes[..i + 1][..i] == prefixes[..i];
      var p := prefixes[i];
      if p.Contains(source) && (best.None? || p.bits > best.value.bits) {
        best := Some(p);
      }
    }
    assert prefixes[..|prefixes|] == prefixes;
  }

  // ---------- Each lookup lies on the unbudgeted walk ----------

  lemma PointerStepExtends(e: Setup, source: Addr, lengths: seq<nat>, asked: seq<Query>)
    requires source.V6? && lengths != [] && ReverseName(source, lengths[0]).Some?
    ensures var h := asked + [PointerQuery(source, lengths[0])];
            && h <= PointerRun(e, source, lengths, asked).asked
            && (e.net.txt(h).Found? && PointerDomain(e.net.txt(h).value).Some? ==>
                  ConfirmRun(e, PointerDomain(e.net.txt(h).value).value, source, h).asked
                  <= PointerRun(e, source, lengths, asked).asked)
  {
    var h := asked + [PointerQuery(source, lengths[0])];
    PointerRunExtends(e, source, lengths[1..], h);
    var reply := e.net.txt(h);
    if reply.Found? && PointerDomain(reply.value).Some? {
      PointerRunExtends(e, source, lengths[1..], ConfirmRun(e, PointerDomain(reply.value).value, source, h).asked);
    }
  }

  lemma CandidateStepExtends(e: Setup, source: Addr, candidates: seq<string>, asked: seq<Query>)
    requires source.V6? && candidates != []
    ensures ConfirmRun(e, candidates[0], source, asked).asked <= CandidateRun(e, source, candidates, asked).asked
  {
    CandidateRunExtends(e, source, candidates[1..], ConfirmRun(e, candidates[0], source, asked).asked);
  }

  /** Discovery of one connecting source. It issues at most ten queries, and it gives the outcome of the walk without
      a budget unless that walk needs an eleventh. */
  method RunDiscovery(e: Setup, source: Addr) returns (r: Run)
    ensures r == Stopped(FullRun(e, source))
    ensures |r.asked| <= 10
  {
    if !Eligible(e.ineligible, source) {
      return Run(Nobody, []);
    }
    var d := new Discovery(e);
    var v := d.Pointers(source);
    if !v.Nobody? {
      StoppedPointers(e, source);
      return Run(v, d.asked);
    }
    v := d.FromHost(source);
    return Run(v, d.asked);
  }

  lemma StoppedPointers(e: Setup, source: Addr)
    requires Eligible(e.ineligible, source)
    ensures PointerRun(e, source, POINTER_LENGTHS, []).asked <= FullRun(e, source).asked
  {
    HostRunExtends(e, source, PointerRun(e, source, POINTER_LENGTHS, []).asked);
  }
}
