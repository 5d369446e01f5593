/** Mode-2 tokens: the payload and its validity bounds, signing, the protected headers and the staged verifier. The
    payload is modelled as decoded CBOR items, the signature as a predicate. */
module Token {
  import opened Bits
  import opened Wrappers
  import opened Text
  import opened Netip
  import opened AddressRules
  import opened Names
  import opened Record
  import opened WirePrefix
  import opened Items

  const SECOND := 1_000_000_000
  /** 24 hours, in seconds. */
  const MAX_TOKEN_LIFETIME := 86_400
  const MAX_TOKEN_SIZE := 3072
  const SKEW_TOLERANCE := 300
  const CONTENT_TYPE := "application/sworn-token+cbor"
  const MAX_UNIX_SECONDS: U64 := 0x4000_0000_0000_0000

  const KEY_OPERATOR: U64 := 1
  const KEY_PREFIX: U64 := 2
  const KEY_UNIT: U64 := 3
  const KEY_ISSUED_AT: U64 := 4
  const KEY_EXPIRES: U64 := 5
  const KEY_ROLE: U64 := 6

  const VALID_ROLES := {"mta", "esp-tenant", "forwarder"}

  datatype TokenError =
    | Malformed | BadSignature | TokenExpired | NotYetValid | LifetimeTooLong | OffPrefix | IneligibleSource
    | BadTokenUnit | BadTokenPrefix | WrongContentType | NoSelector | HeaderConfusion | BadRole | BadValidity
    | UnauthorizedPrefix | PolicyUnitMismatch

  /** A moment, in nanoseconds since 1970; its whole seconds fit 64 bits. */
  type Instant = t: int | -0x8000_0000_0000_0000 * SECOND <= t < 0x8000_0000_0000_0000 * SECOND

  /** The whole seconds of a moment, rounded towards the past. */
  function Unix(t: Instant): (s: int)
    ensures s * SECOND <= t < (s + 1) * SECOND
  {
    t / SECOND
  }

  datatype Payload = Payload(
    operator: string,
    prefix: Prefix,
    unit: Byte,
    issuedAt: Instant,
    expires: Instant,
    role: string)

  // ---------- Decoding a payload ----------

  /** The fields of a payload map read under their declared types, before anything is checked about them. */
  datatype Fields = Fields(operator: string, prefix: seq<Byte>, unit: Byte, iat: U64, exp: U64, role: string)

  function ReadItem<T>(read: Item -> Option<T>, item: Option<Item>): Option<T> {
    match item
    case None => None
    case Some(i) => read(i)
  }

  /** An absent unit means the default; one that does not read is an error. */
  function UnitField(lib: Library, item: Option<Item>): Option<Byte> {
    match item
    case None => Some(DEFAULT_UNIT_PREFIX_LEN)
    case Some(i) => lib.ReadUint8(i)
  }

  /** The entries are a payload map that carries these fields. */
  predicate Carries(lib: Library, entries: seq<Entry>, f: Fields) {
    && KeysOk(entries)
    && ReadItem(lib.ReadText, Lookup(entries, KEY_OPERATOR)) == Some(f.operator)
    && ReadItem(lib.ReadBytes, Lookup(entries, KEY_PREFIX)) == Some(f.prefix)
    && UnitField(lib, Lookup(entries, KEY_UNIT)) == Some(f.unit)
    && ReadItem(lib.ReadUint64, Lookup(entries, KEY_ISSUED_AT)) == Some(f.iat)
    && ReadItem(lib.ReadUint64, Lookup(entries, KEY_EXPIRES)) == Some(f.exp)
    && ReadItem(lib.ReadText, Lookup(entries, KEY_ROLE)) == Some(f.role)
    && ValidDomain(f.operator)
  }

  function Clamp(n: U64): U64 { if n < MAX_UNIX_SECONDS then n else MAX_UNIX_SECONDS }

  /** What a set of readable fields means: role, prefix and the validity bounds, in the order they are checked. The
      bounds look at the raw times and the payload holds the clamped ones. */
  function Judge(f: Fields): Result<Payload, TokenError> {
    if f.role !in VALID_ROLES then Err(BadRole) else
    match DecodePrefix(f.prefix)
    case Err(WrongLength) => Err(Malformed)
    case Err(NotAttestable) => Err(BadTokenPrefix)
    case Ok(prefix) =>
      if f.exp <= f.iat then Err(BadValidity)
      else if f.exp - f.iat > MAX_TOKEN_LIFETIME then Err(LifetimeTooLong)
      else Ok(Payload(ToLower(f.operator), prefix, f.unit, Clamp(f.iat) * SECOND, Clamp(f.exp) * SECOND, f.role))
  }

  /** The one text field a key must hold, or nothing. */
  method RequiredText(lib: Library, raw: map<nat, Item>, key: nat) returns (r: Option<string>)
    ensures r == ReadItem(lib.ReadText, if key in raw then Some(raw[key]) else None)
  {
    if key !in raw {
      return None;
    }
    r := lib.ReadText(raw[key]);
  }

  /** The one unsigned field a key must hold, or nothing. */
  method RequiredTime(lib: Library, raw: map<nat, Item>, key: nat) returns (r: Option<U64>)
    ensures r == ReadItem(lib.ReadUint64, if key in raw then Some(raw[key]) else None)
  {
    if key !in raw {
      return None;
    }
    r := lib.ReadUint64(raw[key]);
  }

  /** The fields of a payload map, or nothing when one is missing or of another type. */
  method ReadFields(lib: Library, entries: seq<Entry>) returns (r: Option<Fields>)
    ensures r == FieldsOf(lib, entries)
  {
    var keys := PayloadKeys(entries);
    if keys.Err? {
      return None;
    }
    var raw := keys.value;
    var operator := RequiredText(lib, raw, KEY_OPERATOR);
    var prefix := ReadItem(lib.ReadBytes, if KEY_PREFIX in raw then Some(raw[KEY_PREFIX]) else None);
    var iat := RequiredTime(lib, raw, KEY_ISSUED_AT);
    var exp := RequiredTime(lib, raw, KEY_EXPIRES);
    var role := RequiredText(lib, raw, KEY_ROLE);
    if operator.None? || prefix.None? || iat.None? || exp.None? || role.None? || !ValidDomain(operator.value) {
      return None;
    }
    var unit: Option<Byte> := Some(DEFAULT_UNIT_PREFIX_LEN);
    if KEY_UNIT in raw {
      unit := lib.ReadUint8(raw[KEY_UNIT]);
    }
    if unit.None? {
      return None;
    }
    return Some(Fields(operator.value, prefix.value, unit.value, iat.value, exp.value, role.value));
  }

  /** The fields a map carries, which the map determines. */
  ghost function FieldsOf(lib: Library, entries: seq<Entry>): (r: Option<Fields>)
    ensures r.Some? ==> Carries(lib, entries, r.value)
    ensures r.None? ==> forall f :: !Carries(lib, entries, f)
    ensures forall f :: Carries(lib, entries, f) ==> r == Some(f)
  {
    if exists f :: Carries(lib, entries, f) then
      var f :| Carries(lib, entries, f);
      Some(f)
    else None
  }

  /** A map that carries no fields is malformed, and any other is judged by them. */
  ghost function Decoded(lib: Library, entries: seq<Entry>): Result<Payload, TokenError> {
    match FieldsOf(lib, entries)
    case None => Err(Malformed)
    case Some(f) => Judge(f)
  }

  method DecodePayload(lib: Library, entries: seq<Entry>) returns (r: Result<Payload, TokenError>)
    ensures r == Decoded(lib, entries)
  {
    var fields := ReadFields(lib, entries);
    if fields.None? {
      return Err(Malformed);
    }
    r := Judge(fields.value);
  }

  // ---------- Messages and their protected headers ----------

  datatype Label = IntLabel(n: int) | TextLabel(s: string)

  type Headers = map<Label, Item>

  /** A COSE_Sign1 message as the library presents it. */
  datatype Message = Message(protected: Headers, unprotected: Headers, payload: seq<Entry>, signature: seq<Byte>)

  /** A token on the wire: its length, and the message it decodes to if it does. */
  datatype Token = Token(size: nat, message: Option<Message>)

  const ALGORITHM := IntLabel(1)
  const CRITICAL := IntLabel(2)
  const CONTENT := IntLabel(3)
  const KEY_ID := IntLabel(4)

  /** The identifiers -8 and -19; a negative integer n is carried as -1 - n. */
  const EDDSA := NInt(7)
  const FULLY_SPECIFIED_ED25519 := NInt(18)

  function Chars(b: seq<Byte>): (s: string)
    ensures |s| == |b|
  {
    seq(|b|, i requires 0 <= i < |b| => b[i] as char)
  }

  function CharBytes(s: string): (b: seq<Byte>)
    requires forall i | 0 <= i < |s| :: s[i] as int < 256
    ensures |b| == |s|
  {
    seq(|s|, i requires 0 <= i < |s| => s[i] as int)
  }

  /** No critical header, no label in both buckets, and none of the three labels the protocol reads unprotected. */
  predicate Separated(msg: Message) {
    && CRITICAL !in msg.protected
    && (forall l | l in msg.unprotected :: l !in msg.protected)
    && ALGORITHM !in msg.unprotected && CONTENT !in msg.unprotected && KEY_ID !in msg.unprotected
  }

  predicate NamesEd25519(h: Headers) {
    ALGORITHM in h && (h[ALGORITHM] == EDDSA || h[ALGORITHM] == FULLY_SPECIFIED_ED25519)
  }

  predicate NamesContent(h: Headers) { CONTENT in h && h[CONTENT] == TextItem(CONTENT_TYPE) }

  predicate NamesKey(h: Headers) { KEY_ID in h && h[KEY_ID].BytesItem? && ValidSelector(Chars(h[KEY_ID].b)) }

  /** The selector a message's headers name, or the first fault found in them. */
  function SelectorOf(msg: Message): Result<string, TokenError> {
    if !Separated(msg) || !NamesEd25519(msg.protected) then Err(HeaderConfusion)
    else if !NamesContent(msg.protected) then Err(WrongContentType)
    else if !NamesKey(msg.protected) then Err(NoSelector)
    else Ok(ToLower(Chars(msg.protected[KEY_ID].b)))
  }

  method ProtectedHeaders(msg: Message) returns (r: Result<string, TokenError>)
    ensures r == SelectorOf(msg)
  {
    if CRITICAL in msg.protected {
      return Err(HeaderConfusion);
    }
    var labels := msg.unprotected.Keys;
    while labels != {}
      invariant labels <= msg.unprotected.Keys
      invariant forall l | l in msg.unprotected && l !in labels :: l !in msg.protected
      decreases |labels|
    {
      var l :| l in labels;
      if l in msg.protected {
        return Err(HeaderConfusion);
      }
      labels := labels - {l};
    }
    var own := [ALGORITHM, CONTENT, KEY_ID];
    for i := 0 to |own|
      invariant forall j | 0 <= j < i :: own[j] !in msg.unprotected
    {
      if own[i] in msg.unprotected {
        return Err(HeaderConfusion);
      }
    }
    assert own[0] !in msg.unprotected && own[1] !in msg.unprotected && own[2] !in msg.unprotected;
    if !NamesEd25519(msg.protected) {
      return Err(HeaderConfusion);
    }
    if !NamesContent(msg.protected) {
      return Err(WrongContentType);
    }
    if !NamesKey(msg.protected) {
      return Err(NoSelector);
    }
    return Ok(ToLower(Chars(msg.protected[KEY_ID].b)));
  }

  // ---------- Signing ----------

  /** The unit lies between the prefix and /64, and an esp-tenant's is the prefix itself. */
  predicate UnitFits(p: Payload) {
    && p.prefix.bits <= p.unit <= MAX_UNIT_PREFIX_LEN
    && (p.role == "esp-tenant" ==> p.unit == p.prefix.bits)
  }

  function Seconds(s: int): Item
    requires -0x8000_0000_0000_0000 <= s < 0x8000_0000_0000_0000
  {
    if s >= 0 then UInt(s) else NInt(-1 - s)
  }

  /** The payload map; deterministic encoding sorts the keys. */
  function EncodePayload(p: Payload): Result<seq<Entry>, TokenError> {
    if !ValidDomain(p.operator) then Err(Malformed)
    else if !ValidatePrefix(p.prefix) then Err(BadTokenPrefix)
    else Ok([
      (UInt(KEY_OPERATOR), TextItem(ToLower(p.operator))),
      (UInt(KEY_PREFIX), BytesItem(EncodePrefix(p.prefix))),
      (UInt(KEY_UNIT), UInt(p.unit)),
      (UInt(KEY_ISSUED_AT), Seconds(Unix(p.issuedAt))),
      (UInt(KEY_EXPIRES), Seconds(Unix(p.expires))),
      (UInt(KEY_ROLE), TextItem(p.role))])
  }

  /** Signing, with what the signer makes of the protected headers and the payload left open. */
  function Sign(p: Payload, selector: string, signer: (Headers, seq<Entry>) -> seq<Byte>): Result<Message, TokenError> {
    if !ValidSelector(selector) then Err(NoSelector)
    else if p.expires <= p.issuedAt then Err(BadValidity)
    else if p.expires - p.issuedAt > MAX_TOKEN_LIFETIME * SECOND then Err(LifetimeTooLong)
    else if p.role !in VALID_ROLES then Err(BadRole)
    else if !ValidatePrefix(p.prefix) then Err(BadTokenPrefix)
    else if !UnitFits(p) then Err(BadTokenUnit)
    else
      match EncodePayload(p)
      case Err(e) => Err(e)
      case Ok(entries) =>
        SelectorIsAscii(selector);
        var headers: Headers := map[
          ALGORITHM := EDDSA, KEY_ID := BytesItem(CharBytes(ToLower(selector))), CONTENT := TextItem(CONTENT_TYPE)];
        Ok(Message(headers, map[], entries, signer(headers, entries)))
  }

  lemma SelectorIsAscii(s: string)
    requires ValidSelector(s)
    ensures ValidSelector(ToLower(s))
    ensures forall i | 0 <= i < |ToLower(s)| :: ToLower(s)[i] as int < 256
  {
    LowerLabel(s);
    assert forall i | 0 <= i < |ToLower(s)| :: IsLdh(ToLower(s)[i]);
  }

  // ---------- The staged verifier ----------

  datatype Prepared = Prepared(message: Message, payload: Payload, selector: string, unit: Prefix, observed: Prefix)

  datatype Timing = TooEarly | TooLate | InWindow

  /** Where a moment lies against the issue and expiry times, in seconds, with the fixed clock-skew tolerance. */
  function TimingOf(now: int, issuedAt: int, expires: int): Timing {
    if now < issuedAt - SKEW_TOLERANCE * SECOND then TooEarly
    else if now > expires + SKEW_TOLERANCE * SECOND then TooLate
    else InWindow
  }

  /** The local checks on a decoded payload, in order: unit, source, membership, time. */
  function LocalFault(p: Payload, source: Addr, now: Instant, ineligible: seq<Prefix>): Option<TokenError> {
    if !UnitFits(p) then Some(BadTokenUnit)
    else if !Eligible(ineligible, source) then Some(IneligibleSource)
    else if !p.prefix.Contains(source) then Some(OffPrefix)
    else
      match TimingOf(now, p.issuedAt, p.expires)
      case TooEarly => Some(NotYetValid)
      case TooLate => Some(TokenExpired)
      case InWindow => None
  }

  /** Everything that can be checked without DNS or a key. */
  ghost function Preparation(
    lib: Library, token: Token, source: Addr, now: Instant, ineligible: seq<Prefix>): Result<Prepared, TokenError>
  {
    if token.size > MAX_TOKEN_SIZE || token.message.None? then Err(Malformed) else
    var msg := token.message.value;
    match SelectorOf(msg)
    case Err(e) => Err(e)
    case Ok(selector) =>
      match Decoded(lib, msg.payload)
      case Err(e) => Err(e)
      case Ok(p) =>
        match LocalFault(p, source, now, ineligible)
        case Some(e) => Err(e)
        case None => Ok(Prepared(msg, p, selector, Enclosing(source, p.unit), Enclosing(source, OBSERVED_UNIT_LEN)))
  }

  method PrepareVerification(lib: Library, token: Token, source: Addr, now: Instant, ineligible: seq<Prefix>)
    returns (r: Result<Prepared, TokenError>)
    ensures r == Preparation(lib, token, source, now, ineligible)
  {
    if token.size > MAX_TOKEN_SIZE || token.message.None? {
      return Err(Malformed);
    }
    var msg := token.message.value;
    var selector := ProtectedHeaders(msg);
    if selector.Err? {
      return Err(selector.error);
    }
    var payload := DecodePayload(lib, msg.payload);
    if payload.Err? {
      return Err(payload.error);
    }
    var p := payload.value;
    var fault := LocalFault(p, source, now, ineligible);
    if fault.Some? {
      return Err(fault.value);
    }
    return Ok(Prepared(msg, p, selector.value, Enclosing(source, p.unit), Enclosing(source, OBSERVED_UNIT_LEN)));
  }

  datatype Authorized = Authorized(prepared: Prepared, policy: PolicyRecord)

  function Authorize(p: Prepared, policy: PolicyRecord): Result<Authorized, TokenError> {
    if !policy.Authorizes(p.payload.prefix) then Err(UnauthorizedPrefix)
    else if policy.unit != p.payload.unit then Err(PolicyUnitMismatch)
    else Ok(Authorized(p, policy))
  }

  datatype Report = Report(
    operator: string, unit: Prefix, observedUnit: Prefix, prefix: Prefix, selector: string, testing: bool, rua: string)

  datatype Outcome = Pass(report: Report) | TestingMode(report: Report) | Failed(error: TokenError)

  /** The cryptography: which 32 bytes decode to no point or to one of small order, and which messages a key
      verifies. */
  datatype Curve = Curve(smallOrder: seq<Byte> -> bool, verifies: (seq<Byte>, Message) -> bool)

  const SIGNATURE_SIZE := 64

  predicate Genuine(curve: Curve, pub: seq<Byte>, msg: Message) {
    && |msg.signature| == SIGNATURE_SIZE
    && !curve.smallOrder(pub) && !curve.smallOrder(msg.signature[..32])
    && curve.verifies(pub, msg)
  }

  function VerifySignature(curve: Curve, a: Authorized, pub: seq<Byte>): Outcome {
    var p := a.prepared;
    if !Genuine(curve, pub, p.message) then Failed(BadSignature) else
    var report := Report(
      p.payload.operator, p.unit, p.observed, p.payload.prefix, p.selector, a.policy.testing, a.policy.rua);
    if a.policy.testing then TestingMode(report) else Pass(report)
  }

  /** The whole verification, for a caller that already holds both DNS records. */
  ghost function Verify(
    lib: Library, curve: Curve, token: Token, pub: seq<Byte>, policy: PolicyRecord, source: Addr, now: Instant,
    ineligible: seq<Prefix>): Outcome
  {
    match Preparation(lib, token, source, now, ineligible)
    case Err(e) => Failed(e)
    case Ok(p) =>
      match Authorize(p, policy)
      case Err(e) => Failed(e)
      case Ok(a) => VerifySignature(curve, a, pub)
  }
}
