/** The record generator: what it checks, what it emits, and when its own round-trip check can fail. */
module Genrecord {
  import opened Wrappers
  import opened Text
  import opened Netip
  import opened AddressRules
  import opened Names
  import opened Tags
  import opened TagGrammar
  import opened Lines
  import opened Record
  import opened Resolver

  datatype GenOptions = GenOptions(
    domain: string,
    selector: string,
    pubKey: Bytes,
    prefixes: seq<Prefix>,
    unit: int,
    testing: bool,
    rua: string)

  datatype DnsRecord = DnsRecord(qname: string, value: string)

  datatype RecordSet = RecordSet(domain: string, key: DnsRecord, policy: DnsRecord, pointers: seq<DnsRecord>)

  datatype GenError =
    | InvalidDomain
    | InvalidSelector
    | InvalidKeySize
    | NoPrefix
    | TooManyPrefixes
    | UnitOutOfRange
    | InvalidPrefix
    | ListedTwice
    | UnitTooCoarse
    | InvalidRua
    | KeyRoundTrip
    | PolicyRoundTrip
    | PointerRoundTrip

  /** The text forms of prefixes and keys that the library provides. */
  datatype Codecs = Codecs(prefix: PrefixText, key: KeyText)

  // ---------- The checks, in order ----------

  const RUA_FORBIDDEN := " \t;,\"\\"

  predicate ValidateRua(rua: string) {
    || rua == ""
    || (&& (forall i | 0 <= i < |rua| :: rua[i] !in RUA_FORBIDDEN)
        && MAILTO <= rua
        && var (mailbox, domain, found) := Cut(rua[|MAILTO|..], '@');
           found && mailbox != "" && ValidDomain(domain))
  }

  /** What is wrong with a prefix listed after others. */
  function PrefixFault(p: Prefix, earlier: seq<Prefix>): Option<GenError> {
    if !ValidatePrefix(p) then Some(InvalidPrefix) else if p in earlier then Some(ListedTwice) else None
  }

  /** What is wrong with the first offending prefix. */
  function PrefixComplaint(prefixes: seq<Prefix>): Option<GenError> {
    if prefixes == [] then None else
    var n := |prefixes| - 1;
    var before := PrefixComplaint(prefixes[..n]);
    if before.Some? then before else PrefixFault(prefixes[n], prefixes[..n])
  }

  predicate UnitCoversPrefixes(o: GenOptions) {
    forall p | p in o.prefixes :: p.bits <= o.unit
  }

  /** The first rule the options break. */
  function Complaint(o: GenOptions): Option<GenError> {
    if !ValidDomain(o.domain) then Some(InvalidDomain)
    else if !ValidSelector(o.selector) then Some(InvalidSelector)
    else if |o.pubKey| != PUBLIC_KEY_SIZE then Some(InvalidKeySize)
    else if o.prefixes == [] then Some(NoPrefix)
    else if |o.prefixes| > MAX_POLICY_PREFIXES then Some(TooManyPrefixes)
    else if o.unit < MIN_PREFIX_LEN || o.unit > MAX_UNIT_PREFIX_LEN then Some(UnitOutOfRange)
    else if PrefixComplaint(o.prefixes).Some? then PrefixComplaint(o.prefixes)
    else if !UnitCoversPrefixes(o) then Some(UnitTooCoarse)
    else if !ValidateRua(o.rua) then Some(InvalidRua)
    else None
  }

  // ---------- The texts ----------

  function PrefixTexts(codec: PrefixText, prefixes: seq<Prefix>): (ts: seq<string>)
    ensures |ts| == |prefixes|
  {
    seq(|prefixes|, i requires 0 <= i < |prefixes| => codec.text(prefixes[i]))
  }

  function PrefixList(codec: PrefixText, prefixes: seq<Prefix>): string {
    Join(PrefixTexts(codec, prefixes), ",")
  }

  function PolicyText(codec: PrefixText, o: GenOptions): string
    requires o.unit >= 0
  {
    var base := "v=" + VERSION + "; p=" + PrefixList(codec, o.prefixes) + "; u=" + Itoa(o.unit);
    var flagged := if o.testing then base + "; t=y" else base;
    if o.rua != "" then flagged + "; rua=" + o.rua else flagged
  }

  function KeyRecordText(codec: KeyText, o: GenOptions): string {
    "v=" + VERSION + "; k=" + ED25519 + "; pk=" + codec.text(o.pubKey)
  }

  function PointerText(domain: string): string {
    "v=" + VERSION + "; d=" + domain
  }

  /** A pointer for each prefix of a length discovery asks for. */
  function PointersFor(prefixes: seq<Prefix>, domain: string): seq<DnsRecord> {
    if prefixes == [] then [] else
    var n := |prefixes| - 1;
    var p := prefixes[n];
    var before := PointersFor(prefixes[..n], domain);
    if (p.bits == 48 || p.bits == 64) && ReverseName(p.addr, p.bits).Some?
    then before + [DnsRecord(ReverseName(p.addr, p.bits).value, PointerText(domain))]
    else before
  }

  function RecordsFor(c: Codecs, o: GenOptions): RecordSet
    requires o.unit >= 0
  {
    RecordSet(
      o.domain,
      DnsRecord(o.selector + "." + DNS_LABEL + "." + o.domain, KeyRecordText(c.key, o)),
      DnsRecord("_prefixes." + DNS_LABEL + "." + o.domain, PolicyText(c.prefix, o)),
      PointersFor(o.prefixes, o.domain))
  }

  /** What the emitted policy record is meant to say. */
  function IntendedPolicy(o: GenOptions): PolicyRecord
    requires o.unit >= 0
  {
    PolicyRecord(VERSION, o.prefixes, o.unit, o.testing, o.rua)
  }

  // ---------- Building ----------

  method PolicyValue(codec: PrefixText, o: GenOptions) returns (v: string)
    requires o.unit >= 0
    ensures v == PolicyText(codec, o)
  {
    var ps: seq<string> := [];
    for i := 0 to |o.prefixes|
      invariant ps == PrefixTexts(codec, o.prefixes)[..i]
    {
      ps := ps + [codec.text(o.prefixes[i])];
    }
    assert ps == PrefixTexts(codec, o.prefixes);
    v := "v=" + VERSION + "; p=" + Join(ps, ",") + "; u=" + Itoa(o.unit);
    if o.testing {
      v := v + "; t=y";
    }
    if o.rua != "" {
      v := v + "; rua=" + o.rua;
    }
  }

  method PointerRecords(o: GenOptions) returns (r: Result<seq<DnsRecord>, GenError>)
    ensures ParsePointer(PointerText(o.domain)).Ok? ==> r == Ok(PointersFor(o.prefixes, o.domain))
    ensures r.Ok? ==> r.value == PointersFor(o.prefixes, o.domain)
  {
    var out: seq<DnsRecord> := [];
    for i := 0 to |o.prefixes|
      invariant out == PointersFor(o.prefixes[..i], o.domain)
    {
      var p := o.prefixes[i];
      assert o.prefixes[..i + 1][..i] == o.prefixes[..i];
      if p.bits != 48 && p.bits != 64 {
        continue;
      }
      var name := ReverseNibbleName(p.addr, p.bits);
      if name.None? {
        continue;
      }
      var rec := DnsRecord(name.value, PointerText(o.domain));
      var parsed := ParsePointerRecord(rec.value);
      if parsed.Err? {
        return Err(PointerRoundTrip);
      }
      out := out + [rec];
    }
    assert o.prefixes[..|o.prefixes|] == o.prefixes;
    return Ok(out);
  }

  predicate SaysSame(r: Result<PolicyRecord, RecordError>, o: GenOptions) {
    && r.Ok? && r.value.prefixes == o.prefixes && r.value.unit == o.unit
    && r.value.testing == o.testing && r.value.rua == o.rua
  }

  method ComparePolicy(read: PolicyRecord, o: GenOptions) returns (same: bool)
    ensures same <==> SaysSame(Ok(read), o)
  {
    if |read.prefixes| != |o.prefixes| {
      return false;
    }
    for i := 0 to |read.prefixes|
      invariant forall j | 0 <= j < i :: read.prefixes[j] == o.prefixes[j]
    {
      if read.prefixes[i] != o.prefixes[i] {
        return false;
      }
    }
    assert read.prefixes == o.prefixes;
    return read.unit == o.unit && read.testing == o.testing && read.rua == o.rua;
  }

  /** The generator's own check: what it is about to emit, read back by the protocol's parsers. */
  method CheckRoundTrip(c: Codecs, key: string, policy: string, o: GenOptions) returns (fault: Option<GenError>)
    ensures fault == if ParseKey(c.key, key) != Ok(o.pubKey) then Some(KeyRoundTrip)
                     else if !SaysSame(ParsePolicy(c.prefix, policy), o) then Some(PolicyRoundTrip)
                     else None
  {
    var k := ParseRecord(c.key, key);
    if k.Err? || k.value != o.pubKey {
      return Some(KeyRoundTrip);
    }
    var p := ParsePolicyRecord(c.prefix, policy);
    if p.Err? {
      return Some(PolicyRoundTrip);
    }
    var same := ComparePolicy(p.value, o);
    return if same then None else Some(PolicyRoundTrip);
  }

  /** The state of the scan before prefix i: what has been seen, and the longest length so far. */
  ghost predicate Scanned(prefixes: seq<Prefix>, i: nat, seen: set<Prefix>, longest: int, unit: int)
    requires i <= |prefixes|
  {
    && PrefixComplaint(prefixes[..i]).None?
    && (forall p :: p in seen <==> p in prefixes[..i])
    && (longest <= unit <==> forall p | p in prefixes[..i] :: p.bits <= unit)
  }

  lemma TakeOneMore<T>(s: seq<T>, i: nat)
    requires i < |s|
    ensures s[..i + 1] == s[..i] + [s[i]]
  {
  }

  lemma ScannedOneMore(prefixes: seq<Prefix>, i: nat, seen: set<Prefix>, longest: int, unit: int)
    requires i < |prefixes| && Scanned(prefixes, i, seen, longest, unit)
    requires PrefixFault(prefixes[i], prefixes[..i]).None?
    ensures var p := prefixes[i];
            Scanned(prefixes, i + 1, seen + {p}, if p.bits > longest then p.bits else longest, unit)
  {
    ComplaintStep(prefixes, i);
    TakeOneMore(prefixes, i);
    assert forall p :: p in prefixes[..i] + [prefixes[i]] <==> p in prefixes[..i] || p == prefixes[i];
  }

  lemma ScannedAll(o: GenOptions, seen: set<Prefix>, longest: int)
    requires Scanned(o.prefixes, |o.prefixes|, seen, longest, o.unit)
    ensures PrefixComplaint(o.prefixes).None? && (longest <= o.unit <==> UnitCoversPrefixes(o))
  {
    assert o.prefixes[..|o.prefixes|] == o.prefixes;
  }

  lemma InvalidAt(prefixes: seq<Prefix>, i: nat)
    requires i < |prefixes| && PrefixComplaint(prefixes[..i]).None? && !ValidatePrefix(prefixes[i])
    ensures PrefixComplaint(prefixes) == Some(InvalidPrefix)
  {
    ComplaintStep(prefixes, i);
    ComplaintStays(prefixes, i + 1);
  }

  lemma TwiceAt(prefixes: seq<Prefix>, i: nat)
    requires i < |prefixes| && PrefixComplaint(prefixes[..i]).None?
    requires ValidatePrefix(prefixes[i]) && prefixes[i] in prefixes[..i]
    ensures PrefixComplaint(prefixes) == Some(ListedTwice)
  {
    ComplaintStep(prefixes, i);
    ComplaintStays(prefixes, i + 1);
  }

  method CheckPrefixes(o: GenOptions) returns (fault: Option<GenError>)
    requires o.unit >= 0
    ensures fault == if PrefixComplaint(o.prefixes).Some? then PrefixComplaint(o.prefixes)
                     else if !UnitCoversPrefixes(o) then Some(UnitTooCoarse) else None
  {
    var seen: set<Prefix> := {};
    var longest := 0;
    for i := 0 to |o.prefixes|
      invariant Scanned(o.prefixes, i, seen, longest, o.unit)
    {
      var p := o.prefixes[i];
      if !ValidatePrefix(p) {
        InvalidAt(o.prefixes, i);
        return Some(InvalidPrefix);
      }
      if p in seen {
        TwiceAt(o.prefixes, i);
        return Some(ListedTwice);
      }
      ScannedOneMore(o.prefixes, i, seen, longest, o.unit);
      seen := seen + {p};
      if p.bits > longest {
        longest := p.bits;
      }
    }
    ScannedAll(o, seen, longest);
    if o.unit < longest {
      return Some(UnitTooCoarse);
    }
    return None;
  }

  lemma ComplaintStep(prefixes: seq<Prefix>, i: nat)
    requires i < |prefixes| && PrefixComplaint(prefixes[..i]).None?
    ensures PrefixComplaint(prefixes[..i + 1]) == PrefixFault(prefixes[i], prefixes[..i])
  {
    assert prefixes[..i + 1][..i] == prefixes[..i];
  }

  lemma {:induction false} ComplaintStays(prefixes: seq<Prefix>, n: nat)
    requires n <= |prefixes| && PrefixComplaint(prefixes[..n]).Some?
    ensures PrefixComplaint(prefixes) == PrefixComplaint(prefixes[..n])
    decreases |prefixes|
  {
    if n == |prefixes| {
      assert prefixes[..n] == prefixes;
    } else {
      assert prefixes[..|prefixes| - 1][..n] == prefixes[..n];
      ComplaintStays(prefixes[..|prefixes| - 1], n);
    }
  }

  lemma DomainIsClean(domain: string)
    requires ValidDomain(domain)
    ensures CleanValue(domain)
  {
    DomainCharacters(domain);
    assert forall i | 0 <= i < |domain| :: domain[i] in domain;
  }

  function PointerTags(domain: string): seq<Pair> {
    [("v", VERSION)] + [("d", domain)]
  }

  lemma PointerTextIsLine(domain: string)
    ensures Line(PointerTags(domain)) == PointerText(domain)
  {
    LineSnoc([], "v", VERSION);
    assert [] + [("v", VERSION)] == [("v", VERSION)];
    LineSnoc([("v", VERSION)], "d", domain);
  }

  lemma PointerTagsClean(domain: string)
    requires ValidDomain(domain)
    ensures CleanTags(PointerTags(domain)) && Admissible(PointerTags(domain))
  {
    DomainIsClean(domain);
    assert CleanName("v") && CleanName("d") && CleanValue(VERSION);
  }

  lemma PointerValue(domain: string)
    ensures Value(PointerTags(domain), "d") == Some(domain) && Value(PointerTags(domain), "v") == Some(VERSION)
  {
    ValueSnoc([("v", VERSION)], ("d", domain), "d");
    ValueSnoc([("v", VERSION)], ("d", domain), "v");
    ValueSnoc([], ("v", VERSION), "v");
    assert [] + [("v", VERSION)] == [("v", VERSION)];
  }

  /** A pointer record for a valid domain names that domain, in lower case. */
  lemma PointerTextReads(domain: string)
    requires ValidDomain(domain)
    ensures ParsePointer(PointerText(domain)) == Ok(ToLower(domain))
  {
    PointerTextIsLine(domain);
    PointerTagsClean(domain);
    LineReads(PointerTags(domain));
    PointerValue(domain);
  }

  /** The outcome of generation: the checks first, then the round trip of the key and of the policy. */
  function Generated(c: Codecs, o: GenOptions): Result<RecordSet, GenError> {
    if Complaint(o).Some? then Err(Complaint(o).value)
    else if ParseKey(c.key, KeyRecordText(c.key, o)) != Ok(o.pubKey) then Err(KeyRoundTrip)
    else if !SaysSame(ParsePolicy(c.prefix, PolicyText(c.prefix, o)), o) then Err(PolicyRoundTrip)
    else Ok(RecordsFor(c, o))
  }

  method BuildRecords(c: Codecs, o: GenOptions) returns (r: Result<RecordSet, GenError>)
    ensures r == Generated(c, o)
  {
    if !ValidDomain(o.domain) {
      return Err(InvalidDomain);
    }
    if !ValidSelector(o.selector) {
      return Err(InvalidSelector);
    }
    if |o.pubKey| != PUBLIC_KEY_SIZE {
      return Err(InvalidKeySize);
    }
    if |o.prefixes| == 0 {
      return Err(NoPrefix);
    }
    if |o.prefixes| > MAX_POLICY_PREFIXES {
      return Err(TooManyPrefixes);
    }
    if o.unit < MIN_PREFIX_LEN || o.unit > MAX_UNIT_PREFIX_LEN {
      return Err(UnitOutOfRange);
    }
    var fault := CheckPrefixes(o);
    if fault.Some? {
      return Err(fault.value);
    }
    if !ValidateRua(o.rua) {
      return Err(InvalidRua);
    }
    var key := KeyRecordText(c.key, o);
    var policy := PolicyValue(c.prefix, o);
    fault := CheckRoundTrip(c, key, policy, o);
    if fault.Some? {
      return Err(fault.value);
    }
    PointerTextReads(o.domain);
    var pointers := PointerRecords(o);
    if pointers.Err? {
      return Err(PointerRoundTrip);
    }
    return Ok(RecordSet(
                o.domain,
                DnsRecord(o.selector + "." + DNS_LABEL + "." + o.domain, key),
                DnsRecord("_prefixes." + DNS_LABEL + "." + o.domain, policy),
                pointers.value));
  }
}
