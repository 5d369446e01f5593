/** Mode-1 discovery without a query budget: what is asked, in which order, and what comes of it. The network is any
    adversary whose answer to a query may depend on everything asked before. */
module Walk {
  import opened Wrappers
  import opened Text
  import opened Netip
  import opened AddressRules
  import opened Names
  import opened Record
  import opened Resolver

  datatype Query = Txt(name: string) | Ptr(addr: Addr) | Ip6(host: string)

  datatype Reply<+T> = Found(value: T) | NotFound | Failed

  /** The answer to the last query of a history. */
  datatype Network = Network(
    txt: seq<Query> -> Reply<seq<string>>,
    ptr: seq<Query> -> Reply<seq<string>>,
    ip6: seq<Query> -> Reply<seq<Addr>>)

  datatype Setup = Setup(
    codec: PrefixText,
    net: Network,
    publicSuffix: Option<string -> bool>,
    ineligible: seq<Prefix>)

  datatype Finding = Finding(
    operator: string,
    unit: Prefix,
    mode: string,
    observedUnit: Prefix,
    prefix: Prefix,
    testing: bool)

  datatype Verdict = Confirmed(finding: Finding) | Nobody | TempError

  /** A verdict and every query issued up to it. */
  datatype Run = Run(verdict: Verdict, asked: seq<Query>)

  const POINTER_LENGTHS: seq<nat> := [64, 48]
  const RECORD_PREFIX := "v=" + VERSION
  const POLICY_PREFIX := "_prefixes._sworn."

  function PolicyQuery(domain: string): Query {
    Txt(Fqdn(POLICY_PREFIX + ToLower(domain)))
  }

  function PointerQuery(source: Addr, n: int): Query
    requires HasReverseName(source, n)
  {
    Txt(Fqdn(ReverseName(source, n).value))
  }

  // ---------- Reading answers ----------

  function SwornRecords(txts: seq<string>): seq<string> {
    if txts == [] then [] else
    var last := txts[|txts| - 1];
    SwornRecords(txts[..|txts| - 1]) + (if RECORD_PREFIX <= last then [last] else [])
  }

  /** The one usable record of a TXT answer. */
  function SingleRecord(txts: seq<string>): Option<string> {
    var found := SwornRecords(txts);
    if |found| == 1 then Some(found[0]) else None
  }

  function PointerDomain(txts: seq<string>): Option<string> {
    match SingleRecord(txts)
    case None => None
    case Some(rec) =>
      match ParsePointer(rec)
      case Ok(domain) => Some(domain)
      case Err(_) => None
  }

  /** The enumerated prefix a source matches: the longest, and the earliest of that length. */
  function LongestMatch(prefixes: seq<Prefix>, source: Addr): Option<Prefix> {
    if prefixes == [] then None else
    var p := prefixes[|prefixes| - 1];
    var best := LongestMatch(prefixes[..|prefixes| - 1], source);
    if p.Contains(source) && (best.None? || p.bits > best.value.bits) then Some(p) else best
  }

  /** What a policy answer says about a source. */
  function PolicyVerdict(codec: PrefixText, domain: string, source: Addr, reply: Reply<seq<string>>): Verdict
    requires source.V6?
  {
    match reply
    case Failed => TempError
    case NotFound => Nobody
    case Found(txts) =>
      match SingleRecord(txts)
      case None => Nobody
      case Some(rec) =>
        match ParsePolicy(codec, rec)
        case Err(_) => Nobody
        case Ok(policy) =>
          match LongestMatch(policy.prefixes, source)
          case None => Nobody
          case Some(best) =>
            if policy.unit > 128 then Nobody else
            Confirmed(Finding(domain, Enclosing(source, policy.unit), "dns",
                              Enclosing(source, OBSERVED_UNIT_LEN), best, policy.testing))
  }

  // ---------- The walk ----------

  function ConfirmRun(e: Setup, domain: string, source: Addr, asked: seq<Query>): Run
    requires source.V6?
  {
    if !ValidDomain(domain) then Run(Nobody, asked) else
    var h := asked + [PolicyQuery(domain)];
    Run(PolicyVerdict(e.codec, ToLower(domain), source, e.net.txt(h)), h)
  }

  /** Step 1: the reverse-tree pointers, more specific first. */
  function PointerRun(e: Setup, source: Addr, lengths: seq<nat>, asked: seq<Query>): Run
    requires source.V6?
    decreases |lengths|
  {
    if lengths == [] then Run(Nobody, asked) else
    if ReverseName(source, lengths[0]).None? then PointerRun(e, source, lengths[1..], asked) else
    var h := asked + [PointerQuery(source, lengths[0])];
    match e.net.txt(h)
    case Failed => Run(TempError, h)
    case NotFound => PointerRun(e, source, lengths[1..], h)
    case Found(txts) =>
      match PointerDomain(txts)
      case None => PointerRun(e, source, lengths[1..], h)
      case Some(domain) =>
        var c := ConfirmRun(e, domain, source, h);
        if c.verdict.Nobody? then PointerRun(e, source, lengths[1..], c.asked) else c
  }

  function CandidateRun(e: Setup, source: Addr, candidates: seq<string>, asked: seq<Query>): Run
    requires source.V6?
    decreases |candidates|
  {
    if candidates == [] then Run(Nobody, asked) else
    var c := ConfirmRun(e, candidates[0], source, asked);
    if c.verdict.Nobody? then CandidateRun(e, source, candidates[1..], c.asked) else c
  }

  /** Whether a forward lookup leads back to the source. */
  predicate LeadsBack(addrs: seq<Addr>, source: Addr) {
    exists a | a in addrs :: a.Unmap() == source
  }

  /** A PTR host name: its forward confirmation, then the candidates derived from it. */
  function NamedRun(e: Setup, source: Addr, host: string, asked: seq<Query>): Run
    requires source.V6?
  {
    var h := asked + [Ip6(Fqdn(host))];
    match e.net.ip6(h)
    case Failed => Run(TempError, h)
    case NotFound => Run(Nobody, h)
    case Found(addrs) =>
      if LeadsBack(addrs, source) then CandidateRun(e, source, Candidates(host, e.publicSuffix), h)
      else Run(Nobody, h)
  }

  /** The host a PTR answer names: at most one name is considered, and only a valid one. */
  function HostOf(names: seq<string>): Option<string> {
    if names == [] || !ValidDomain(TrimDot(names[0])) then None else Some(ToLower(TrimDot(names[0])))
  }

  /** Step 2. */
  function HostRun(e: Setup, source: Addr, asked: seq<Query>): Run
    requires source.V6?
  {
    var h := asked + [Ptr(source)];
    match e.net.ptr(h)
    case Failed => Run(TempError, h)
    case NotFound => Run(Nobody, h)
    case Found(names) =>
      match HostOf(names)
      case None => Run(Nobody, h)
      case Some(host) => NamedRun(e, source, host, h)
  }

  function FullRun(e: Setup, source: Addr): Run {
    if !Eligible(e.ineligible, source) then Run(Nobody, []) else
    var p := PointerRun(e, source, POINTER_LENGTHS, []);
    if p.verdict.Nobody? then HostRun(e, source, p.asked) else p
  }

  /** A run stopped at the query budget: needing one more query is a temporary failure. */
  function Stopped(r: Run): Run {
    if |r.asked| <= MAX_QUERIES then r else Run(TempError, r.asked[..MAX_QUERIES])
  }

  // ---------- Every run only adds queries ----------

  lemma {:induction false} PointerRunExtends(e: Setup, source: Addr, lengths: seq<nat>, asked: seq<Query>)
    requires source.V6?
    ensures asked <= PointerRun(e, source, lengths, asked).asked
    decreases |lengths|
  {
    if lengths != [] {
      if ReverseName(source, lengths[0]).None? {
        PointerRunExtends(e, source, lengths[1..], asked);
      } else {
        var h := asked + [PointerQuery(source, lengths[0])];
        PointerRunExtends(e, source, lengths[1..], h);
        var reply := e.net.txt(h);
        if reply.Found? && PointerDomain(reply.value).Some? {
          PointerRunExtends(e, source, lengths[1..], ConfirmRun(e, PointerDomain(reply.value).value, source, h).asked);
        }
      }
    }
  }

  lemma {:induction false} CandidateRunExtends(e: Setup, source: Addr, candidates: seq<string>, asked: seq<Query>)
    requires source.V6?
    ensures asked <= CandidateRun(e, source, candidates, asked).asked
    decreases |candidates|
  {
    if candidates != [] {
      CandidateRunExtends(e, source, candidates[1..], ConfirmRun(e, candidates[0], source, asked).asked);
    }
  }

  lemma NamedRunExtends(e: Setup, source: Addr, host: string, asked: seq<Query>)
    requires source.V6?
    ensures asked + [Ip6(Fqdn(host))] <= NamedRun(e, source, host, asked).asked
  {
    CandidateRunExtends(e, source, Candidates(host, e.publicSuffix), asked + [Ip6(Fqdn(host))]);
  }

  lemma HostRunExtends(e: Setup, source: Addr, asked: seq<Query>)
    requires source.V6?
    ensures asked + [Ptr(source)] <= HostRun(e, source, asked).asked
  {
    var h := asked + [Ptr(source)];
    var reply := e.net.ptr(h);
    if reply.Found? && HostOf(reply.value).Some? {
      NamedRunExtends(e, source, HostOf(reply.value).value, h);
    }
  }
}
