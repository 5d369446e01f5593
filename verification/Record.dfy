/** Policy, pointer and key records: the loops that parse them and what those loops compute. */
module Record {
  import Bits
  import opened Wrappers
  import opened Text
  import opened Netip
  import opened AddressRules
  import opened Names
  import opened Tags

  const MAX_POLICY_PREFIXES := 64

  /** How prefixes are written as text: netip.Prefix.String and netip.ParsePrefix. */
  datatype PrefixText = PrefixText(text: Prefix -> string, parse: string -> Option<Prefix>)

  datatype PolicyRecord = PolicyRecord(
    version: string,
    prefixes: seq<Prefix>,
    unit: nat,
    testing: bool,
    rua: string)
  {
    /** Whether the policy explicitly covers a signed token prefix. */
    predicate Authorizes(tokenPrefix: Prefix) {
      && version == VERSION && ValidatePrefix(tokenPrefix)
      && exists allowed | allowed in prefixes ::
           ValidatePrefix(allowed) && tokenPrefix.bits >= allowed.bits && allowed.Contains(tokenPrefix.addr)
    }
  }

  // ---------- Numbers ----------

  predicate AllDigits(v: string) {
    forall i | 0 <= i < |v| :: IsDigit(v[i])
  }

  function DigitsValue(v: string): nat
    requires AllDigits(v)
  {
    if v == "" then 0 else 10 * DigitsValue(v[..|v| - 1]) + (v[|v| - 1] as int - '0' as int)
  }

  function DecimalOf(v: string): Option<nat> {
    if v == "" || |v| > 3 || (|v| > 1 && v[0] == '0') || !AllDigits(v) then None else Some(DigitsValue(v))
  }

  method Decimal(v: string) returns (r: Option<nat>)
    ensures r == DecimalOf(v)
  {
    if v == "" || |v| > 3 || (|v| > 1 && v[0] == '0') {
      return None;
    }
    var n := 0;
    for i := 0 to |v|
      invariant AllDigits(v[..i]) && n == DigitsValue(v[..i])
    {
      if v[i] < '0' || v[i] > '9' {
        return None;
      }
      assert v[..i + 1][..i] == v[..i];
      n := n * 10 + (v[i] as int - '0' as int);
    }
    assert v[..|v|] == v;
    return Some(n);
  }

  // ---------- Mailboxes ----------

  const ATOM_PUNCTUATION := "!#$%&'*+-/=?^_`{|}~"

  predicate IsAtomChar(c: char) { IsLetter(c) || IsDigit(c) || c in ATOM_PUNCTUATION }

  predicate IsAtom(atom: string) {
    atom != "" && forall i | 0 <= i < |atom| :: IsAtomChar(atom[i])
  }

  const MAILTO := "mailto:"

  /** One dot-atom mailbox behind the mailto: scheme; the domain rule leaves no room for a second '@'. */
  predicate ValidRuaMailto(value: string) {
    && MAILTO <= value
    && var (local, domain, found) := Cut(value[|MAILTO|..], '@');
       && found && '@' !in domain
       && local != "" && ValidDomain(domain)
       && forall atom | atom in Split(local, '.') :: IsAtom(atom)
  }

  // ---------- Prefix enumeration ----------

  function TakePrefix(codec: PrefixText, part: string, have: seq<Prefix>): Result<seq<Prefix>, RecordError> {
    if part == "" || |have| >= MAX_POLICY_PREFIXES then Ok(have) else
    match codec.parse(part)
    case None => Err(BadPrefix)
    case Some(p) => if ValidatePrefix(p) then Ok(have + [p]) else Err(BadPrefix)
  }

  function TakePrefixes(codec: PrefixText, parts: seq<string>, have: seq<Prefix>): Result<seq<Prefix>, RecordError> {
    if parts == [] then Ok(have) else
    var before := TakePrefixes(codec, parts[..|parts| - 1], have);
    if before.Err? then before else TakePrefix(codec, parts[|parts| - 1], before.value)
  }

  lemma {:induction false} TakeStops(codec: PrefixText, parts: seq<string>, have: seq<Prefix>, n: nat)
    requires n <= |parts|
    requires var r := TakePrefixes(codec, parts[..n], have);
             r.Err? || |r.value| >= MAX_POLICY_PREFIXES
    ensures TakePrefixes(codec, parts, have) == TakePrefixes(codec, parts[..n], have)
    decreases |parts|
  {
    if n == |parts| {
      assert parts[..n] == parts;
    } else {
      assert parts[..|parts| - 1][..n] == parts[..n];
      TakeStops(codec, parts[..|parts| - 1], have, n);
    }
  }

  method ReadPrefixes(codec: PrefixText, v: string, have: seq<Prefix>) returns (r: Result<seq<Prefix>, RecordError>)
    ensures r == TakePrefixes(codec, Split(v, ','), have)
  {
    var parts := Split(v, ',');
    var prefixes := have;
    for i := 0 to |parts|
      invariant TakePrefixes(codec, parts[..i], have) == Ok(prefixes)
    {
      assert parts[..i + 1][..i] == parts[..i];
      var part := parts[i];
      if part == "" {
        continue;
      }
      if |prefixes| >= MAX_POLICY_PREFIXES {
        TakeStops(codec, parts, have, i);
        return Ok(prefixes);
      }
      var parsed := codec.parse(part);
      if parsed.None? || !ValidatePrefix(parsed.value) {
        TakeStops(codec, parts, have, i + 1);
        return Err(BadPrefix);
      }
      prefixes := prefixes + [parsed.value];
    }
    assert parts[..|parts|] == parts;
    return Ok(prefixes);
  }

  // ---------- Policy records ----------

  const EMPTY_POLICY := PolicyRecord("", [], DEFAULT_UNIT_PREFIX_LEN, false, "")

  /** The effect of one tag on the record read so far; an unknown tag has none. */
  function ApplyTag(codec: PrefixText, rec: PolicyRecord, kv: Pair): Result<PolicyRecord, RecordError> {
    var (k, v) := kv;
    if k == "v" then
      if v == VERSION then Ok(rec.(version := v)) else Err(UnsupportedVersion)
    else if k == "p" then
      var r := TakePrefixes(codec, Split(v, ','), rec.prefixes);
      if r.Ok? then Ok(rec.(prefixes := r.value)) else Err(r.error)
    else if k == "u" then
      var n := DecimalOf(v);
      if n.Some? && 1 <= n.value <= MAX_UNIT_PREFIX_LEN then Ok(rec.(unit := n.value)) else Err(BadUnit)
    else if k == "t" then
      Ok(rec.(testing := rec.testing || "y" in Split(v, ':')))
    else if k == "rua" then
      if ValidRuaMailto(v) then Ok(rec.(rua := v)) else Err(BadRua)
    else
      Ok(rec)
  }

  function ApplyTags(codec: PrefixText, tags: seq<Pair>): Result<PolicyRecord, RecordError> {
    if tags == [] then Ok(EMPTY_POLICY) else
    var before := ApplyTags(codec, tags[..|tags| - 1]);
    if before.Err? then before else ApplyTag(codec, before.value, tags[|tags| - 1])
  }

  predicate UnitCovers(rec: PolicyRecord) {
    forall p | p in rec.prefixes :: p.bits <= rec.unit
  }

  function ParsePolicy(codec: PrefixText, txt: string): Result<PolicyRecord, RecordError> {
    match TagsOf(txt)
    case Err(e) => Err(e)
    case Ok(tags) =>
      match ApplyTags(codec, tags)
      case Err(e) => Err(e)
      case Ok(rec) =>
        if rec.version == "" then Err(Syntax)
        else if UnitCovers(rec) then Ok(rec)
        else Err(BadUnit)
  }

  lemma {:induction false} ApplyStops(codec: PrefixText, tags: seq<Pair>, n: nat)
    requires n <= |tags| && ApplyTags(codec, tags[..n]).Err?
    ensures ApplyTags(codec, tags) == ApplyTags(codec, tags[..n])
    decreases |tags|
  {
    if n == |tags| {
      assert tags[..n] == tags;
    } else {
      assert tags[..|tags| - 1][..n] == tags[..n];
      ApplyStops(codec, tags[..|tags| - 1], n);
    }
  }

  lemma ApplyStep(codec: PrefixText, tags: seq<Pair>, i: nat, rec: PolicyRecord)
    requires i < |tags| && ApplyTags(codec, tags[..i]) == Ok(rec)
    ensures ApplyTags(codec, tags[..i + 1]) == ApplyTag(codec, rec, tags[i])
    ensures ApplyTag(codec, rec, tags[i]).Err? ==> ApplyTags(codec, tags) == ApplyTag(codec, rec, tags[i])
  {
    assert tags[..i + 1][..i] == tags[..i];
    if ApplyTag(codec, rec, tags[i]).Err? {
      ApplyStops(codec, tags, i + 1);
    }
  }

  method HasTestingFlag(v: string) returns (found: bool)
    ensures found == ("y" in Split(v, ':'))
  {
    found := false;
    var flags := Split(v, ':');
    for i := 0 to |flags|
      invariant found == ("y" in flags[..i])
    {
      assert flags[..i + 1] == flags[..i] + [flags[i]];
      if flags[i] == "y" {
        found := true;
      }
    }
    assert flags[..|flags|] == flags;
  }

  /** One pass of the tag loop: the switch on the tag name. */
  method ReadTag(codec: PrefixText, rec: PolicyRecord, k: string, v: string)
    returns (r: Result<PolicyRecord, RecordError>)
    ensures r == ApplyTag(codec, rec, (k, v))
  {
    r := Ok(rec);
    if k == "v" {
      if v != VERSION {
        return Err(UnsupportedVersion);
      }
      r := Ok(rec.(version := v));
    } else if k == "p" {
      var ps := ReadPrefixes(codec, v, rec.prefixes);
      if ps.Err? {
        return Err(ps.error);
      }
      r := Ok(rec.(prefixes := ps.value));
    } else if k == "u" {
      var n := Decimal(v);
      if n.None? || n.value < 1 || n.value > MAX_UNIT_PREFIX_LEN {
        return Err(BadUnit);
      }
      r := Ok(rec.(unit := n.value));
    } else if k == "t" {
      var flagged := HasTestingFlag(v);
      if flagged {
        r := Ok(rec.(testing := true));
      }
    } else if k == "rua" {
      if !ValidRuaMailto(v) {
        return Err(BadRua);
      }
      r := Ok(rec.(rua := v));
    }
  }

  method CheckUnit(rec: PolicyRecord) returns (ok: bool)
    ensures ok == UnitCovers(rec)
  {
    for i := 0 to |rec.prefixes|
      invariant forall j | 0 <= j < i :: rec.prefixes[j].bits <= rec.unit
    {
      if rec.unit < rec.prefixes[i].bits {
        return false;
      }
    }
    return true;
  }

  method ParsePolicyRecord(codec: PrefixText, txt: string) returns (r: Result<PolicyRecord, RecordError>)
    ensures r == ParsePolicy(codec, txt)
  {
    var pairs := SplitTags(txt);
    if pairs.Err? {
      return Err(pairs.error);
    }
    var tags := pairs.value;
    var rec := EMPTY_POLICY;
    for i := 0 to |tags|
      invariant ApplyTags(codec, tags[..i]) == Ok(rec)
    {
      ApplyStep(codec, tags, i, rec);
      var next := ReadTag(codec, rec, tags[i].0, tags[i].1);
      if next.Err? {
        return next;
      }
      rec := next.value;
    }
    assert tags[..|tags|] == tags;
    if rec.version == "" {
      return Err(Syntax);
    }
    var covers := CheckUnit(rec);
    if !covers {
      return Err(BadUnit);
    }
    return Ok(rec);
  }

  // ---------- Pointer records ----------

  /** The value last given to a name, which is the only one once names are distinct. */
  function Value(tags: seq<Pair>, k: string): Option<string> {
    if tags == [] then None else
    var last := tags[|tags| - 1];
    if last.0 == k then Some(last.1) else Value(tags[..|tags| - 1], k)
  }

  /** What a tag contributes, read as the empty string when it is absent. */
  function ValueOrEmpty(tags: seq<Pair>, k: string): string {
    match Value(tags, k)
    case None => ""
    case Some(v) => v
  }

  lemma ValueStep(tags: seq<Pair>, i: nat, k: string)
    requires i < |tags|
    ensures Value(tags[..i + 1], k) == if tags[i].0 == k then Some(tags[i].1) else Value(tags[..i], k)
    ensures ValueOrEmpty(tags[..i + 1], k) == if tags[i].0 == k then tags[i].1 else ValueOrEmpty(tags[..i], k)
  {
    assert tags[..i + 1][..i] == tags[..i];
  }

  lemma ValueSnoc(tags: seq<Pair>, kv: Pair, k: string)
    ensures Value(tags + [kv], k) == if kv.0 == k then Some(kv.1) else Value(tags, k)
  {
    var longer := tags + [kv];
    assert longer[..|longer| - 1] == tags;
  }

  predicate WrongVersion(tags: seq<Pair>) {
    exists kv | kv in tags :: kv.0 == "v" && kv.1 != VERSION
  }

  /** The operator domain a pointer record names. */
  function ParsePointer(txt: string): Result<string, RecordError> {
    match TagsOf(txt)
    case Err(e) => Err(e)
    case Ok(tags) =>
      var domain := ValueOrEmpty(tags, "d");
      if WrongVersion(tags) then Err(UnsupportedVersion)
      else if ValueOrEmpty(tags, "v") == "" || !ValidDomain(domain) then Err(Syntax)
      else Ok(ToLower(domain))
  }

  method ReadPointerTags(tags: seq<Pair>) returns (ok: bool, version: string, domain: string)
    ensures ok <==> !WrongVersion(tags)
    ensures ok ==> version == ValueOrEmpty(tags, "v") && domain == ValueOrEmpty(tags, "d")
  {
    version, domain := "", "";
    for i := 0 to |tags|
      invariant forall j | 0 <= j < i :: tags[j].0 == "v" ==> tags[j].1 == VERSION
      invariant version == ValueOrEmpty(tags[..i], "v")
      invariant domain == ValueOrEmpty(tags[..i], "d")
    {
      var (k, v) := tags[i];
      ValueStep(tags, i, "v");
      ValueStep(tags, i, "d");
      if k == "v" {
        if v != VERSION {
          assert tags[i] in tags;
          return false, "", "";
        }
        version := v;
      } else if k == "d" {
        domain := v;
      }
    }
    assert tags[..|tags|] == tags;
    return true, version, domain;
  }

  method ParsePointerRecord(txt: string) returns (r: Result<string, RecordError>)
    ensures r == ParsePointer(txt)
  {
    var pairs := SplitTags(txt);
    if pairs.Err? {
      return Err(pairs.error);
    }
    var ok, version, domain := ReadPointerTags(pairs.value);
    if !ok {
      return Err(UnsupportedVersion);
    }
    if version == "" || domain == "" || !ValidDomain(domain) {
      return Err(Syntax);
    }
    return Ok(ToLower(domain));
  }

  // ---------- Key records ----------

  type Bytes = seq<Bits.Byte>

  const PUBLIC_KEY_SIZE := 32
  const ED25519 := "ed25519"

  /** Base64 text of a key (section 4 of RFC 4648, decoded strictly) and the test that a key is a curve point. */
  datatype KeyText = KeyText(text: Bytes -> string, decode: string -> Option<Bytes>, isPoint: Bytes -> bool)
  {
    function Read(v: string): Option<Bytes> {
      var raw := decode(v);
      if raw.Some? && |raw.value| == PUBLIC_KEY_SIZE && isPoint(raw.value) then raw else None
    }
  }

  /** A tag that makes a key record unusable wherever it stands. */
  predicate BadKeyTag(codec: KeyText, kv: Pair) {
    || (kv.0 == "v" && kv.1 != VERSION)
    || (kv.0 == "k" && kv.1 != ED25519)
    || (kv.0 == "pk" && codec.Read(kv.1).None?)
  }

  function KeyFault(k: string): RecordError {
    if k == "v" then UnsupportedVersion else if k == "k" then UnsupportedAlgorithm else BadKey
  }

  /** The complaint of the first unusable tag. */
  function FirstFault(codec: KeyText, tags: seq<Pair>): Option<RecordError> {
    if tags == [] then None
    else if BadKeyTag(codec, tags[0]) then Some(KeyFault(tags[0].0))
    else FirstFault(codec, tags[1..])
  }

  lemma {:induction false} FirstFaultAt(codec: KeyText, tags: seq<Pair>, i: nat)
    requires i <= |tags| && forall j | 0 <= j < i :: !BadKeyTag(codec, tags[j])
    ensures i == |tags| ==> FirstFault(codec, tags).None?
    ensures i < |tags| && BadKeyTag(codec, tags[i]) ==> FirstFault(codec, tags) == Some(KeyFault(tags[i].0))
  {
    if i > 0 {
      FirstFaultAt(codec, tags[1..], i - 1);
    }
  }

  /** The key a record carries, or why it is not usable. */
  function ParseKey(codec: KeyText, txt: string): Result<Bytes, RecordError> {
    match TagsOf(txt)
    case Err(e) => Err(e)
    case Ok(tags) =>
      var fault := FirstFault(codec, tags);
      var key := ReadOptional(codec, Value(tags, "pk"));
      if fault.Some? then Err(fault.value)
      else if ValueOrEmpty(tags, "v") == "" || ValueOrEmpty(tags, "k") == "" || key.None? then Err(Syntax)
      else Ok(key.value)
  }

  function ReadOptional(codec: KeyText, v: Option<string>): Option<Bytes> {
    match v
    case None => None
    case Some(text) => codec.Read(text)
  }

  method ReadKeyTags(codec: KeyText, tags: seq<Pair>)
    returns (fault: Option<RecordError>, version: string, algorithm: string, key: Option<Bytes>)
    ensures fault == FirstFault(codec, tags)
    ensures fault.None? ==> version == ValueOrEmpty(tags, "v") && algorithm == ValueOrEmpty(tags, "k")
    ensures fault.None? ==> key == ReadOptional(codec, Value(tags, "pk"))
  {
    version, algorithm, key := "", "", None;
    for i := 0 to |tags|
      invariant forall j | 0 <= j < i :: !BadKeyTag(codec, tags[j])
      invariant version == ValueOrEmpty(tags[..i], "v")
      invariant algorithm == ValueOrEmpty(tags[..i], "k")
      invariant key == ReadOptional(codec, Value(tags[..i], "pk"))
    {
      var (k, v) := tags[i];
      ValueStep(tags, i, "v");
      ValueStep(tags, i, "k");
      ValueStep(tags, i, "pk");
      if BadKeyTag(codec, tags[i]) {
        FirstFaultAt(codec, tags, i);
        fault := Some(KeyFault(k));
        return;
      }
      if k == "v" {
        version := v;
      } else if k == "k" {
        algorithm := v;
      } else if k == "pk" {
        key := codec.Read(v);
      }
    }
    FirstFaultAt(codec, tags, |tags|);
    assert tags[..|tags|] == tags;
    fault := None;
  }

  method ParseRecord(codec: KeyText, txt: string) returns (r: Result<Bytes, RecordError>)
    ensures r == ParseKey(codec, txt)
  {
    var pairs := SplitTags(txt);
    if pairs.Err? {
      return Err(pairs.error);
    }
    var fault, version, algorithm, key := ReadKeyTags(codec, pairs.value);
    if fault.Some? {
      return Err(fault.value);
    }
    if version == "" || algorithm == "" || key.None? {
      return Err(Syntax);
    }
    return Ok(key.value);
  }
}
