/** What Sign accepts, and what each refusal of a verifier means: one condition after the other, each in raw terms. */
module Refusals {
  import opened Wrappers
  import opened Bits
  import opened Text
  import opened Netip
  import opened AddressRules
  import opened NamesMeaning
  import opened Record
  import opened RecordMeaning
  import opened WirePrefix
  import opened Items
  import opened Token
  import opened TokenMeaning
  import opened TokenProofs

  predicate Registered(role: string) { role == "mta" || role == "esp-tenant" || role == "forwarder" }

  predicate UnitInOrder(prefix: Prefix, unit: int, role: string) {
    prefix.bits <= unit <= 64 && (role == "esp-tenant" ==> unit == prefix.bits)
  }

  /** Sign accepts exactly a valid selector, a positive lifetime of at most 24 hours, a registered role, an attestable
      prefix, a unit between it and /64, equal to it for an esp-tenant, and a valid operator. */
  lemma SignIff(p: Payload, selector: string, signer: (Headers, seq<Entry>) -> seq<Byte>)
    ensures Sign(p, selector, signer).Ok?
       <==> && LabelText(selector) && 0 < p.expires - p.issuedAt <= 86_400_000_000_000
            && Registered(p.role) && ValidatePrefix(p.prefix) && UnitInOrder(p.prefix, p.unit, p.role)
            && DomainText(p.operator)
  {
    LabelIff(selector);
    DomainIff(p.operator);
  }

  /** Which of its checks Sign refuses by: the first that fails. */
  lemma SignFaultIs(p: Payload, selector: string, signer: (Headers, seq<Entry>) -> seq<Byte>)
    requires Sign(p, selector, signer).Err?
    ensures Sign(p, selector, signer).error
         == if !LabelText(selector) then NoSelector
            else if p.expires - p.issuedAt <= 0 then BadValidity
            else if p.expires - p.issuedAt > 86_400_000_000_000 then LifetimeTooLong
            else if !Registered(p.role) then BadRole
            else if !ValidatePrefix(p.prefix) then BadTokenPrefix
            else if !UnitInOrder(p.prefix, p.unit, p.role) then BadTokenUnit
            else Malformed
  {
    LabelIff(selector);
  }

  /** The message Sign emits: EdDSA by its older number, the content type and the lowered selector in the protected
      headers, nothing else, and what the signer made of those headers and the payload. */
  lemma SignedMessageIs(p: Payload, selector: string, signer: (Headers, seq<Entry>) -> seq<Byte>)
    requires Sign(p, selector, signer).Ok?
    ensures var msg := Sign(p, selector, signer).value;
            && msg.protected.Keys == {IntLabel(1), IntLabel(3), IntLabel(4)} && msg.unprotected == map[]
            && msg.protected[IntLabel(1)] == NInt(8 - 1) && ContentFits(msg.protected)
            && msg.protected[IntLabel(4)].BytesItem?
            && Chars(msg.protected[IntLabel(4)].b) == ToLower(selector)
            && msg.signature == signer(msg.protected, msg.payload)
  {
    SelectorIsAscii(selector);
    assert Chars(CharBytes(ToLower(selector))) == ToLower(selector);
  }

  // ---------- Preparation ----------

  /** What is wrong with fields by themselves. */
  ghost function FieldFault(f: Fields): Option<TokenError> {
    if !Registered(f.role) then Some(BadRole)
    else if |f.prefix| != 17 then Some(Malformed)
    else if !(exists p :: ValidatePrefix(p) && EncodePrefix(p) == f.prefix) then Some(BadTokenPrefix)
    else if f.exp <= f.iat then Some(BadValidity)
    else if f.exp > f.iat + 86_400 then Some(LifetimeTooLong)
    else None
  }

  /** What is wrong with them for a source and a moment, on unbounded times. */
  function SourceFault(f: Fields, prefix: Prefix, source: Addr, now: int, ineligible: seq<Prefix>): Option<TokenError> {
    if !UnitInOrder(prefix, f.unit, f.role) then Some(BadTokenUnit)
    else if !Eligible(ineligible, source) then Some(IneligibleSource)
    else if !prefix.Contains(source) then Some(OffPrefix)
    else if now < (f.iat - 300) * 1_000_000_000 then Some(NotYetValid)
    else if now > (f.exp + 300) * 1_000_000_000 then Some(TokenExpired)
    else None
  }

  lemma JudgeFaultIs(f: Fields)
    ensures Judge(f).Ok? <==> FieldFault(f).None?
    ensures Judge(f).Err? ==> FieldFault(f) == Some(Judge(f).error)
  {
    forall p ensures DecodePrefix(f.prefix) == Ok(p) <==> ValidatePrefix(p) && EncodePrefix(p) == f.prefix {
      WireIff(f.prefix, p);
    }
    if DecodePrefix(f.prefix).Ok? {
      assert DecodePrefix(f.prefix) == Ok(DecodePrefix(f.prefix).value);
    }
  }

  lemma SourceFaultIs(f: Fields, prefix: Prefix, source: Addr, now: Instant, ineligible: seq<Prefix>)
    requires now < CLAMP_HORIZON && Judge(f).Ok? && ValidatePrefix(prefix) && EncodePrefix(prefix) == f.prefix
    ensures LocalFault(Judge(f).value, source, now, ineligible) == SourceFault(f, prefix, source, now, ineligible)
  {
    WireIff(f.prefix, prefix);
    BeforeHorizon(now, f.iat, f.exp);
  }

  /** A token that is too long or does not decode is malformed. */
  lemma UndecodedRefused(lib: Library, token: Token, source: Addr, now: Instant, ineligible: seq<Prefix>)
    requires token.size > 3072 || token.message.None?
    ensures Preparation(lib, token, source, now, ineligible) == Err(Malformed)
  {
  }

  /** Then the headers decide. */
  lemma HeadersRefused(lib: Library, token: Token, source: Addr, now: Instant, ineligible: seq<Prefix>)
    requires token.size <= 3072 && token.message.Some? && !HeadersFit(token.message.value)
    ensures var msg := token.message.value;
            Preparation(lib, token, source, now, ineligible)
              == Err(if !BucketsApart(msg) || !AlgorithmFits(msg.protected) then HeaderConfusion
                     else if !ContentFits(msg.protected) then WrongContentType
                     else NoSelector)
  {
    HeaderFaultIs(token.message.value);
  }

  /** Then the payload map: one that says no fields is malformed. */
  lemma PayloadRefused(lib: Library, token: Token, source: Addr, now: Instant, ineligible: seq<Prefix>)
    requires token.size <= 3072 && token.message.Some? && HeadersFit(token.message.value)
    requires forall f :: !Says(lib, token.message.value.payload, f)
    ensures Preparation(lib, token, source, now, ineligible) == Err(Malformed)
  {
    HeaderFaultIs(token.message.value);
    forall f ensures !Carries(lib, token.message.value.payload, f) {
      CarriesIff(lib, token.message.value.payload, f);
    }
  }

  /** Then the fields it says. */
  lemma FieldsRefused(lib: Library, token: Token, source: Addr, now: Instant, ineligible: seq<Prefix>, f: Fields)
    requires token.size <= 3072 && token.message.Some? && HeadersFit(token.message.value)
    requires Says(lib, token.message.value.payload, f) && FieldFault(f).Some?
    ensures Preparation(lib, token, source, now, ineligible) == Err(FieldFault(f).value)
  {
    HeaderFaultIs(token.message.value);
    CarriesIff(lib, token.message.value.payload, f);
    JudgeFaultIs(f);
  }

  /** And last the unit, the source and the clock; when they have no fault either the token prepares. */
  lemma SourceRefused(
    lib: Library, token: Token, source: Addr, now: Instant, ineligible: seq<Prefix>, f: Fields, prefix: Prefix)
    requires now < (0x4000_0000_0000_0000 - 300) * 1_000_000_000
    requires token.size <= 3072 && token.message.Some? && HeadersFit(token.message.value)
    requires Says(lib, token.message.value.payload, f) && FieldFault(f).None?
    requires ValidatePrefix(prefix) && EncodePrefix(prefix) == f.prefix
    ensures var fault := SourceFault(f, prefix, source, now, ineligible);
            var r := Preparation(lib, token, source, now, ineligible);
            if fault.Some? then r == Err(fault.value) else r.Ok?
  {
    HeaderFaultIs(token.message.value);
    CarriesIff(lib, token.message.value.payload, f);
    JudgeFaultIs(f);
    SourceFaultIs(f, prefix, source, now, ineligible);
  }

  // ---------- Authorization and signature ----------

  /** The policy covers the signed prefix. */
  ghost predicate Covered(policy: PolicyRecord, prefix: Prefix) {
    && policy.version == "SWORN1"
    && exists allowed | allowed in policy.prefixes :: ValidatePrefix(allowed) && Subset(prefix, allowed)
  }

  lemma AuthorizesIff(policy: PolicyRecord, prefix: Prefix)
    requires ValidatePrefix(prefix)
    ensures policy.Authorizes(prefix) <==> Covered(policy, prefix)
  {
    if policy.version == "SWORN1" {
      AuthorizesIffSubset(policy, prefix);
    }
  }

  lemma PreparedPrefixValid(lib: Library, token: Token, source: Addr, now: Instant, ineligible: seq<Prefix>)
    requires Preparation(lib, token, source, now, ineligible).Ok?
    ensures ValidatePrefix(Preparation(lib, token, source, now, ineligible).value.payload.prefix)
  {
    var f := PreparedFields(lib, token, source, now, ineligible);
    JudgedNames(f);
  }

  /** What becomes of a prepared token: refused for its prefix, for its unit, for its signature, or reported, as a pass
      exactly when the policy is not testing. */
  lemma OutcomeIs(
    lib: Library, curve: Curve, token: Token, pub: seq<Byte>, policy: PolicyRecord, source: Addr, now: Instant,
    ineligible: seq<Prefix>, p: Prepared)
    requires Preparation(lib, token, source, now, ineligible) == Ok(p)
    ensures var o := Verify(lib, curve, token, pub, policy, source, now, ineligible);
            if !Covered(policy, p.payload.prefix) then o == Failed(UnauthorizedPrefix)
            else if policy.unit != p.payload.unit then o == Failed(PolicyUnitMismatch)
            else if !SignatureHolds(curve, pub, p.message) then o == Failed(BadSignature)
            else if policy.testing then o.TestingMode? else o.Pass?
  {
    PreparedPrefixValid(lib, token, source, now, ineligible);
    AuthorizesIff(policy, p.payload.prefix);
  }
}
