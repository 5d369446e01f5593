/** What the staged verifier guarantees: clamped times give the verdicts of unbounded ones, signed tokens prepare, and a
    verified token nests the source, both units, the signed prefix and the policy. */
module TokenProofs {
  import opened Wrappers
  import opened Bits
  import opened Text
  import opened Netip
  import opened AddressRules
  import opened Names
  import opened Record
  import opened RecordMeaning
  import opened WirePrefix
  import opened Items
  import opened Token
  import opened TokenMeaning

  // ---------- Clamping ----------

  /** Raw times that pass the bounds checked before clamping. */
  predicate RawTimesPass(iat: U64, exp: U64) { iat < exp && exp - iat <= MAX_TOKEN_LIFETIME }

  predicate SameVerdict(now: int, iat: U64, exp: U64) {
    TimingOf(now, Clamp(iat) * SECOND, Clamp(exp) * SECOND) == TimingOf(now, iat * SECOND, exp * SECOND)
  }

  /** The first moment at which the clamped window can be open although the unbounded one is not. */
  const CLAMP_HORIZON := (MAX_UNIX_SECONDS - SKEW_TOLERANCE) * SECOND

  /** A time that the clamp moves, and that is more than the tolerance ahead of a moment at or past the horizon. */
  function FarTime(now: Instant): (iat: U64)
    requires now >= CLAMP_HORIZON
    ensures iat > MAX_UNIX_SECONDS && now < (iat - SKEW_TOLERANCE) * SECOND
    ensures iat + 1 < 0x1_0000_0000_0000_0000
  {
    Unix(now) + SKEW_TOLERANCE + 2
  }

  lemma FarTimeDiffers(now: Instant)
    requires now >= CLAMP_HORIZON
    ensures !SameVerdict(now, FarTime(now), FarTime(now) + 1)
  {
    var iat := FarTime(now);
    assert Clamp(iat) == MAX_UNIX_SECONDS;
  }

  lemma BeforeHorizon(now: Instant, iat: U64, exp: U64)
    requires now < CLAMP_HORIZON && RawTimesPass(iat, exp)
    ensures SameVerdict(now, iat, exp)
  {
    assert iat <= Clamp(iat) || Clamp(iat) == MAX_UNIX_SECONDS < iat;
    assert exp <= Clamp(exp) || Clamp(exp) == MAX_UNIX_SECONDS < exp;
  }

  /** Clamping changes no verdict exactly at the moments before the horizon, 300 seconds short of the clamp. */
  lemma ClampingAgreesIff(now: Instant)
    ensures (forall iat, exp | RawTimesPass(iat, exp) :: SameVerdict(now, iat, exp)) <==> now < CLAMP_HORIZON
  {
    if now < CLAMP_HORIZON {
      forall iat, exp | RawTimesPass(iat, exp) ensures SameVerdict(now, iat, exp) {
        BeforeHorizon(now, iat, exp);
      }
    } else {
      FarTimeDiffers(now);
      assert RawTimesPass(FarTime(now), FarTime(now) + 1);
    }
  }

  /** Seconds from year 1 to 1970, the origin from which Go counts in 64 signed bits. */
  const YEAR_ONE_TO_UNIX := 62_135_596_800

  predicate FitsGoTime(t: int) {
    -0x8000_0000_0000_0000 * SECOND <= t + YEAR_ONE_TO_UNIX * SECOND < 0x8000_0000_0000_0000 * SECOND
  }

  /** No raw time makes the widened window leave what a Go time can hold; without the clamp one would. */
  lemma WindowFits()
    ensures forall n: U64 ::
              FitsGoTime((Clamp(n) - SKEW_TOLERANCE) * SECOND) && FitsGoTime((Clamp(n) + SKEW_TOLERANCE) * SECOND)
    ensures exists n: U64 :: !FitsGoTime(n * SECOND)
  {
    var big: U64 := 0xffff_ffff_ffff_ffff;
    assert !FitsGoTime(big * SECOND);
  }

  // ---------- Which tokens prepare ----------

  /** The fields of a token are all in order for a source and a moment, on unbounded times. */
  predicate InOrder(f: Fields, prefix: Prefix, source: Addr, now: int, ineligible: seq<Prefix>) {
    && (f.role == "mta" || f.role == "esp-tenant" || f.role == "forwarder")
    && ValidatePrefix(prefix) && EncodePrefix(prefix) == f.prefix
    && f.iat < f.exp <= f.iat + 86_400
    && prefix.bits <= f.unit <= 64 && (f.role == "esp-tenant" ==> f.unit == prefix.bits)
    && Eligible(ineligible, source) && prefix.Contains(source)
    && (f.iat - 300) * 1_000_000_000 <= now <= (f.exp + 300) * 1_000_000_000
  }

  lemma JudgeIff(f: Fields, prefix: Prefix)
    ensures Judge(f).Ok? && Judge(f).value.prefix == prefix
       <==> && f.role in VALID_ROLES && ValidatePrefix(prefix) && EncodePrefix(prefix) == f.prefix
            && f.iat < f.exp <= f.iat + MAX_TOKEN_LIFETIME
  {
    WireIff(f.prefix, prefix);
  }

  lemma FaultIff(f: Fields, source: Addr, now: Instant, ineligible: seq<Prefix>)
    requires now < CLAMP_HORIZON && Judge(f).Ok?
    ensures LocalFault(Judge(f).value, source, now, ineligible).None?
       <==> InOrder(f, Judge(f).value.prefix, source, now, ineligible)
  {
    JudgeIff(f, Judge(f).value.prefix);
    BeforeHorizon(now, f.iat, f.exp);
  }

  lemma JudgedOnce(f: Fields, prefix: Prefix, source: Addr, now: Instant, ineligible: seq<Prefix>)
    requires InOrder(f, prefix, source, now, ineligible)
    ensures Judge(f).Ok? && Judge(f).value.prefix == prefix
  {
    JudgeIff(f, prefix);
  }

  lemma CarriedPrepares(
    lib: Library, token: Token, source: Addr, now: Instant, ineligible: seq<Prefix>, f: Fields, prefix: Prefix)
    requires now < CLAMP_HORIZON && token.size <= MAX_TOKEN_SIZE && token.message.Some?
    requires SelectorOf(token.message.value).Ok? && Carries(lib, token.message.value.payload, f)
    requires InOrder(f, prefix, source, now, ineligible)
    ensures Preparation(lib, token, source, now, ineligible).Ok?
  {
    JudgedOnce(f, prefix, source, now, ineligible);
    FaultIff(f, source, now, ineligible);
  }

  lemma PreparedCarries(lib: Library, token: Token, source: Addr, now: Instant, ineligible: seq<Prefix>)
    returns (f: Fields, prefix: Prefix)
    requires now < CLAMP_HORIZON && Preparation(lib, token, source, now, ineligible).Ok?
    ensures token.size <= MAX_TOKEN_SIZE && token.message.Some? && SelectorOf(token.message.value).Ok?
    ensures Carries(lib, token.message.value.payload, f) && InOrder(f, prefix, source, now, ineligible)
  {
    f := FieldsOf(lib, token.message.value.payload).value;
    prefix := Judge(f).value.prefix;
    FaultIff(f, source, now, ineligible);
  }

  /** Before the clamping horizon any token at all, signed by whomever, prepares exactly when it is at most 3072 octets
      and decodes, its headers fit, and its payload says fields that are in order on unbounded times. */
  lemma PreparesIff(lib: Library, token: Token, source: Addr, now: Instant, ineligible: seq<Prefix>)
    requires now < (0x4000_0000_0000_0000 - 300) * 1_000_000_000
    ensures Preparation(lib, token, source, now, ineligible).Ok?
       <==> && token.size <= 3072 && token.message.Some? && HeadersFit(token.message.value)
            && exists f, prefix ::
                 Says(lib, token.message.value.payload, f) && InOrder(f, prefix, source, now, ineligible)
  {
    if token.message.Some? {
      var msg := token.message.value;
      HeaderFaultIs(msg);
      forall f ensures Carries(lib, msg.payload, f) <==> Says(lib, msg.payload, f) {
        CarriesIff(lib, msg.payload, f);
      }
      forall f, prefix
        | && token.size <= 3072 && HeadersFit(msg) && Says(lib, msg.payload, f)
          && InOrder(f, prefix, source, now, ineligible)
        ensures Preparation(lib, token, source, now, ineligible).Ok?
      {
        CarriedPrepares(lib, token, source, now, ineligible, f, prefix);
      }
    }
    if Preparation(lib, token, source, now, ineligible).Ok? {
      var f, prefix := PreparedCarries(lib, token, source, now, ineligible);
    }
  }

  // ---------- What a signed payload decodes to ----------

  /** The fields a signed payload is meant to carry. */
  function SignedFields(p: Payload): Fields
    requires ValidatePrefix(p.prefix) && 0 <= Unix(p.issuedAt) && 0 <= Unix(p.expires)
  {
    Fields(ToLower(p.operator), EncodePrefix(p.prefix), p.unit, Unix(p.issuedAt), Unix(p.expires), p.role)
  }

  lemma EncodedKeys(p: Payload)
    requires EncodePayload(p).Ok?
    ensures var e := EncodePayload(p).value; KeysOk(e) && |e| == 6 && forall i: nat | i < 6 :: e[i].0 == UInt(i + 1)
  {
  }

  /** Each key of an encoded payload finds the field written under it. */
  lemma EncodedLookups(p: Payload)
    requires EncodePayload(p).Ok?
    ensures var e := EncodePayload(p).value;
            && Lookup(e, KEY_OPERATOR) == Some(TextItem(ToLower(p.operator)))
            && Lookup(e, KEY_PREFIX) == Some(BytesItem(EncodePrefix(p.prefix)))
            && Lookup(e, KEY_UNIT) == Some(UInt(p.unit))
            && Lookup(e, KEY_ISSUED_AT) == Some(Seconds(Unix(p.issuedAt)))
            && Lookup(e, KEY_EXPIRES) == Some(Seconds(Unix(p.expires)))
            && Lookup(e, KEY_ROLE) == Some(TextItem(p.role))
  {
    var e := EncodePayload(p).value;
    EncodedKeys(p);
    forall i: nat | i < 6 ensures Lookup(e, i + 1) == Some(e[i].1) {
      assert e[i].0 == UInt(i + 1);
      LookupAt(e, i);
    }
    assert Lookup(e, 0 + 1) == Some(e[0].1) && Lookup(e, 1 + 1) == Some(e[1].1) && Lookup(e, 2 + 1) == Some(e[2].1);
    assert Lookup(e, 3 + 1) == Some(e[3].1) && Lookup(e, 4 + 1) == Some(e[4].1) && Lookup(e, 5 + 1) == Some(e[5].1);
  }

  /** An encoded payload carries the fields it was built from, unless a time before 1970 made one of them negative. */
  lemma EncodedCarries(lib: Library, p: Payload, f: Fields)
    requires EncodePayload(p).Ok?
    ensures Carries(lib, EncodePayload(p).value, f)
       <==> 0 <= Unix(p.issuedAt) && 0 <= Unix(p.expires) && f == SignedFields(p)
  {
    EncodedKeys(p);
    EncodedLookups(p);
    LowerDomain(p.operator);
  }

  /** The lifetime bound survives rounding both times down to seconds. */
  lemma RoundedLifetime(p: Payload)
    requires p.expires - p.issuedAt <= MAX_TOKEN_LIFETIME * SECOND
    ensures Unix(p.expires) - Unix(p.issuedAt) <= MAX_TOKEN_LIFETIME
  {
    var a, b := Unix(p.issuedAt), Unix(p.expires);
    assert b * SECOND <= p.expires <= p.issuedAt + MAX_TOKEN_LIFETIME * SECOND < (a + 1 + MAX_TOKEN_LIFETIME) * SECOND;
  }

  /** The payload a verifier reads back: the operator lowered, times in whole seconds and clamped, everything else as
      signed. */
  function AsDecoded(p: Payload): Payload
    requires 0 <= Unix(p.issuedAt) && 0 <= Unix(p.expires)
  {
    p.(
      operator := ToLower(p.operator),
      issuedAt := Clamp(Unix(p.issuedAt)) * SECOND,
      expires := Clamp(Unix(p.expires)) * SECOND)
  }

  /** Decoding what Sign encoded never complains of anything but a time before 1970 or a lifetime that rounds to
      nothing. */
  lemma SignedDecodes(lib: Library, p: Payload, selector: string, signer: (Headers, seq<Entry>) -> seq<Byte>)
    requires Sign(p, selector, signer).Ok?
    ensures Decoded(lib, Sign(p, selector, signer).value.payload)
         == if Unix(p.issuedAt) < 0 || Unix(p.expires) < 0 then Err(Malformed)
            else if Unix(p.expires) <= Unix(p.issuedAt) then Err(BadValidity)
            else Ok(AsDecoded(p))
  {
    var e := EncodePayload(p).value;
    if 0 <= Unix(p.issuedAt) && 0 <= Unix(p.expires) {
      var f := SignedFields(p);
      EncodedCarries(lib, p, f);
      WireIff(f.prefix, p.prefix);
      ToLowerIdempotent(p.operator);
      RoundedLifetime(p);
    } else {
      forall f ensures !Carries(lib, e, f) {
        EncodedCarries(lib, p, f);
      }
    }
  }

  lemma SignedSelector(p: Payload, selector: string, signer: (Headers, seq<Entry>) -> seq<Byte>)
    requires Sign(p, selector, signer).Ok?
    ensures SelectorOf(Sign(p, selector, signer).value) == Ok(ToLower(selector))
  {
    SelectorIsAscii(selector);
    var s := ToLower(selector);
    assert Chars(CharBytes(s)) == s;
    ToLowerIdempotent(selector);
  }

  // ---------- How long a signed token is ----------

  /** The length of a head with its argument, section 3 of RFC 8949. */
  function HeadSize(n: nat): (k: nat)
    ensures 1 <= k <= 9
  {
    if n < 24 then 1 else if n < 0x100 then 2 else if n < 0x1_0000 then 3 else if n < 0x1_0000_0000 then 5 else 9
  }

  function ItemSize(i: Item): nat {
    match i
    case UInt(n) => HeadSize(n)
    case NInt(m) => HeadSize(m)
    case TextItem(s) => HeadSize(|s|) + |s|
    case BytesItem(b) => HeadSize(|b|) + |b|
    case Tagged(number, content) => HeadSize(number) + ItemSize(content)
    case OtherItem(_) => 9
  }

  function EntriesSize(entries: seq<Entry>): nat {
    if entries == [] then 0
    else EntriesSize(entries[..|entries| - 1]) + ItemSize(entries[|entries| - 1].0) + ItemSize(entries[|entries| - 1].1)
  }

  function MapSize(entries: seq<Entry>): nat { HeadSize(|entries|) + EntriesSize(entries) }

  function StringSize(n: nat): nat { HeadSize(n) + n }

  /** The length of the tagged four-element array Sign emits: its three protected headers, an empty unprotected map, the
      payload and the signature. */
  function WireSize(msg: Message): nat
    requires ALGORITHM in msg.protected && CONTENT in msg.protected && KEY_ID in msg.protected
  {
    var headers := [
      (UInt(1), msg.protected[ALGORITHM]), (UInt(3), msg.protected[CONTENT]), (UInt(4), msg.protected[KEY_ID])];
    1 + 1 + StringSize(MapSize(headers)) + 1 + StringSize(MapSize(msg.payload)) + StringSize(|msg.signature|)
  }

  lemma {:induction false} EntriesBounded(entries: seq<Entry>, bound: nat)
    requires forall i | 0 <= i < |entries| :: ItemSize(entries[i].0) + ItemSize(entries[i].1) <= bound
    ensures EntriesSize(entries) <= bound * |entries|
  {
    if entries != [] {
      EntriesBounded(entries[..|entries| - 1], bound);
      assert bound * |entries| == bound * (|entries| - 1) + bound;
    }
  }

  /** Every token Sign emits with a 64-octet signature is short enough for a verifier to decode. */
  lemma SignedFits(p: Payload, selector: string, signer: (Headers, seq<Entry>) -> seq<Byte>)
    requires Sign(p, selector, signer).Ok? && |Sign(p, selector, signer).value.signature| == SIGNATURE_SIZE
    ensures WireSize(Sign(p, selector, signer).value) <= MAX_TOKEN_SIZE
  {
    var msg := Sign(p, selector, signer).value;
    var e := msg.payload;
    assert |p.operator| <= 253;
    forall i | 0 <= i < |e| ensures ItemSize(e[i].0) + ItemSize(e[i].1) <= 270 {
      SmallEntry(p, i);
    }
    EntriesBounded(e, 270);
    SelectorIsAscii(selector);
    var headers := [
      (UInt(1), msg.protected[ALGORITHM]), (UInt(3), msg.protected[CONTENT]), (UInt(4), msg.protected[KEY_ID])];
    EntriesBounded(headers, 270);
  }

  lemma SmallEntry(p: Payload, i: nat)
    requires EncodePayload(p).Ok? && p.role in VALID_ROLES && i < 6
    ensures var e := EncodePayload(p).value[i]; ItemSize(e.0) + ItemSize(e.1) <= 270
  {
    assert |p.role| <= 10;
  }

  // ---------- Signed tokens prepare ----------

  /** What is asked of the times, the source and the clock once a token is signed. */
  predicate Acceptable(p: Payload, source: Addr, now: Instant, ineligible: seq<Prefix>) {
    && 0 <= Unix(p.issuedAt) < Unix(p.expires)
    && Eligible(ineligible, source) && p.prefix.Contains(source)
    && TimingOf(now, Clamp(Unix(p.issuedAt)) * SECOND, Clamp(Unix(p.expires)) * SECOND).InWindow?
  }

  /** Signing has checked the unit, and reading back changes neither it nor the role. */
  lemma SignedUnitFits(p: Payload, selector: string, signer: (Headers, seq<Entry>) -> seq<Byte>)
    requires Sign(p, selector, signer).Ok? && 0 <= Unix(p.issuedAt) && 0 <= Unix(p.expires)
    ensures UnitFits(AsDecoded(p))
  {
  }

  lemma SignedFault(
    p: Payload, selector: string, signer: (Headers, seq<Entry>) -> seq<Byte>, source: Addr, now: Instant,
    ineligible: seq<Prefix>)
    requires Sign(p, selector, signer).Ok? && 0 <= Unix(p.issuedAt) < Unix(p.expires)
    ensures LocalFault(AsDecoded(p), source, now, ineligible).None? <==> Acceptable(p, source, now, ineligible)
  {
    SignedUnitFits(p, selector, signer);
  }

  /** A signed token prepares exactly when its encoded times are in order and not negative, the source is eligible and
      in the prefix, and the clock is within the window; it then shows what was signed, with both names lowered. */
  lemma SignedPreparesIff(
    lib: Library, p: Payload, selector: string, signer: (Headers, seq<Entry>) -> seq<Byte>, size: nat, source: Addr,
    now: Instant, ineligible: seq<Prefix>)
    requires Sign(p, selector, signer).Ok? && size <= MAX_TOKEN_SIZE
    ensures var r := Preparation(lib, Token(size, Some(Sign(p, selector, signer).value)), source, now, ineligible);
            && (r.Ok? <==> Acceptable(p, source, now, ineligible))
            && (r.Ok? ==>
                  && r.value.payload == AsDecoded(p) && r.value.selector == ToLower(selector)
                  && r.value.unit == Enclosing(source, p.unit) && r.value.observed == Enclosing(source, 64))
  {
    SignedSelector(p, selector, signer);
    SignedDecodes(lib, p, selector, signer);
    if 0 <= Unix(p.issuedAt) < Unix(p.expires) {
      SignedFault(p, selector, signer, source, now, ineligible);
    }
  }

  /** Every signed payload with times in [0, 2^62) seconds and a lifetime of at least one second is accepted for every
      eligible source in its prefix at every moment from iat - 300 to exp + 300 in encoded seconds. */
  lemma SignedPrepares(
    lib: Library, p: Payload, selector: string, signer: (Headers, seq<Entry>) -> seq<Byte>, source: Addr, now: Instant,
    ineligible: seq<Prefix>)
    requires Sign(p, selector, signer).Ok? && |Sign(p, selector, signer).value.signature| == SIGNATURE_SIZE
    requires 0 <= p.issuedAt && Unix(p.expires) < MAX_UNIX_SECONDS && p.expires - p.issuedAt >= SECOND
    requires Eligible(ineligible, source) && p.prefix.Contains(source)
    requires (Unix(p.issuedAt) - SKEW_TOLERANCE) * SECOND <= now <= (Unix(p.expires) + SKEW_TOLERANCE) * SECOND
    ensures var msg := Sign(p, selector, signer).value;
            var r := Preparation(lib, Token(WireSize(msg), Some(msg)), source, now, ineligible);
            && r.Ok? && r.value.payload.prefix == p.prefix && r.value.payload.unit == p.unit
            && r.value.payload.operator == ToLower(p.operator) && r.value.selector == ToLower(selector)
  {
    SignedFits(p, selector, signer);
    var msg := Sign(p, selector, signer).value;
    SignedPreparesIff(lib, p, selector, signer, WireSize(msg), source, now, ineligible);
    assert Unix(p.issuedAt) < Unix(p.expires);
  }

  /** A lifetime of less than a second can round to nothing: such a token is signed and no verifier ever prepares it. */
  lemma SubsecondNeverPrepares(
    lib: Library, p: Payload, selector: string, signer: (Headers, seq<Entry>) -> seq<Byte>, source: Addr, now: Instant,
    ineligible: seq<Prefix>, size: nat)
    requires Sign(p, selector, signer).Ok? && Unix(p.expires) == Unix(p.issuedAt)
    ensures Preparation(lib, Token(size, Some(Sign(p, selector, signer).value)), source, now, ineligible).Err?
  {
    if size <= MAX_TOKEN_SIZE {
      SignedPreparesIff(lib, p, selector, signer, size, source, now, ineligible);
    }
  }

  // ---------- Soundness ----------

  /** A prepared token nests the source, the observed unit, the declared unit and the signed prefix. */
  lemma PreparedNests(lib: Library, token: Token, source: Addr, now: Instant, ineligible: seq<Prefix>)
    requires Preparation(lib, token, source, now, ineligible).Ok?
    ensures var p := Preparation(lib, token, source, now, ineligible).value;
            && Eligible(ineligible, source)
            && p.observed.bits == 64 && p.observed.Contains(source)
            && p.unit.bits == p.payload.unit
            && Subset(p.observed, p.unit) && Subset(p.unit, p.payload.prefix)
  {
    var payload := Preparation(lib, token, source, now, ineligible).value.payload;
    EnclosingNests(source, payload.unit, 64);
    EnclosingWithin(source, payload.unit, payload.prefix);
  }

  lemma AuthorizedIsCovered(policy: PolicyRecord, prefix: Prefix)
    requires policy.Authorizes(prefix)
    ensures exists allowed | allowed in policy.prefixes :: ValidatePrefix(allowed) && Subset(prefix, allowed)
  {
    AuthorizesIffSubset(policy, prefix);
  }

  /** The report of a verification that got as far as the signature. */
  predicate Reported(o: Outcome) { o.Pass? || o.TestingMode? }

  /** A reported verification passed every stage, and its report is what the last stage makes of the prepared token. */
  lemma StagesPassed(
    lib: Library, curve: Curve, token: Token, pub: seq<Byte>, policy: PolicyRecord, source: Addr, now: Instant,
    ineligible: seq<Prefix>) returns (p: Prepared)
    requires Reported(Verify(lib, curve, token, pub, policy, source, now, ineligible))
    ensures Preparation(lib, token, source, now, ineligible) == Ok(p)
    ensures policy.Authorizes(p.payload.prefix) && policy.unit == p.payload.unit
    ensures Verify(lib, curve, token, pub, policy, source, now, ineligible)
         == VerifySignature(curve, Authorized(p, policy), pub)
  {
    p := Preparation(lib, token, source, now, ineligible).value;
  }

  /** What the last stage reports. */
  lemma ReportSays(curve: Curve, a: Authorized, pub: seq<Byte>)
    requires Reported(VerifySignature(curve, a, pub))
    ensures var o := VerifySignature(curve, a, pub);
            var rep := o.report;
            && Genuine(curve, pub, a.prepared.message)
            && rep.operator == a.prepared.payload.operator && rep.prefix == a.prepared.payload.prefix
            && rep.selector == a.prepared.selector
            && rep.unit == a.prepared.unit && rep.observedUnit == a.prepared.observed
            && rep.testing == a.policy.testing && rep.rua == a.policy.rua
            && (o.Pass? <==> !a.policy.testing)
  {
  }

  /** 64 octets that the key verifies, neither of whose points is of small order. */
  predicate SignatureHolds(curve: Curve, pub: seq<Byte>, msg: Message) {
    && |msg.signature| == 64 && !curve.smallOrder(pub) && !curve.smallOrder(msg.signature[..32])
    && curve.verifies(pub, msg)
  }

  lemma VerifyNests(
    lib: Library, curve: Curve, token: Token, pub: seq<Byte>, policy: PolicyRecord, source: Addr, now: Instant,
    ineligible: seq<Prefix>)
    requires Reported(Verify(lib, curve, token, pub, policy, source, now, ineligible))
    ensures var rep := Verify(lib, curve, token, pub, policy, source, now, ineligible).report;
            && Eligible(ineligible, source)
            && rep.observedUnit.bits == 64 && rep.observedUnit.Contains(source)
            && Subset(rep.observedUnit, rep.unit) && Subset(rep.unit, rep.prefix)
  {
    var p := StagesPassed(lib, curve, token, pub, policy, source, now, ineligible);
    ReportSays(curve, Authorized(p, policy), pub);
    PreparedNests(lib, token, source, now, ineligible);
  }

  lemma VerifyCovered(
    lib: Library, curve: Curve, token: Token, pub: seq<Byte>, policy: PolicyRecord, source: Addr, now: Instant,
    ineligible: seq<Prefix>)
    requires Reported(Verify(lib, curve, token, pub, policy, source, now, ineligible))
    ensures var o := Verify(lib, curve, token, pub, policy, source, now, ineligible);
            var rep := o.report;
            && rep.unit.bits == policy.unit
            && (exists allowed | allowed in policy.prefixes :: ValidatePrefix(allowed) && Subset(rep.prefix, allowed))
            && (o.Pass? <==> !policy.testing) && rep.testing == policy.testing && rep.rua == policy.rua
  {
    var p := StagesPassed(lib, curve, token, pub, policy, source, now, ineligible);
    ReportSays(curve, Authorized(p, policy), pub);
    PreparedNests(lib, token, source, now, ineligible);
    AuthorizedIsCovered(policy, p.payload.prefix);
  }

  /** The fields a message carries and its headers are the ones a report names. */
  ghost predicate NamedBy(lib: Library, msg: Message, rep: Report)
    requires ValidatePrefix(rep.prefix)
  {
    && HeadersFit(msg) && LoweredBytes(msg.protected[IntLabel(4)].b, rep.selector)
    && exists f :: Says(lib, msg.payload, f) && rep.operator == ToLower(f.operator)
                   && EncodePrefix(rep.prefix) == f.prefix && rep.unit.bits == f.unit
  }

  lemma PreparedFields(lib: Library, token: Token, source: Addr, now: Instant, ineligible: seq<Prefix>)
    returns (f: Fields)
    requires Preparation(lib, token, source, now, ineligible).Ok?
    ensures var p := Preparation(lib, token, source, now, ineligible).value;
            && token.message == Some(p.message) && SelectorOf(p.message) == Ok(p.selector)
            && Carries(lib, p.message.payload, f) && Judge(f) == Ok(p.payload)
            && p.unit.bits == f.unit
  {
    f := FieldsOf(lib, token.message.value.payload).value;
  }

  lemma JudgedNames(f: Fields)
    requires Judge(f).Ok?
    ensures var p := Judge(f).value;
            && p.operator == ToLower(f.operator) && ValidatePrefix(p.prefix) && EncodePrefix(p.prefix) == f.prefix
  {
    JudgeIff(f, Judge(f).value.prefix);
  }

  /** A report names what was signed: the operator and the prefix are those of the payload the message carries, the
      selector that of its headers, and the key verifies that very message. */
  lemma VerifyNames(
    lib: Library, curve: Curve, token: Token, pub: seq<Byte>, policy: PolicyRecord, source: Addr, now: Instant,
    ineligible: seq<Prefix>)
    requires Reported(Verify(lib, curve, token, pub, policy, source, now, ineligible))
    ensures var rep := Verify(lib, curve, token, pub, policy, source, now, ineligible).report;
            && token.message.Some? && SignatureHolds(curve, pub, token.message.value)
            && ValidatePrefix(rep.prefix) && NamedBy(lib, token.message.value, rep)
  {
    var p := StagesPassed(lib, curve, token, pub, policy, source, now, ineligible);
    ReportSays(curve, Authorized(p, policy), pub);
    var f := PreparedFields(lib, token, source, now, ineligible);
    JudgedNames(f);
    HeadersIff(p.message, p.selector);
    CarriesIff(lib, p.message.payload, f);
  }

  /** A report means: the source is eligible and lies in the observed /64, that in the declared unit, that in the signed
      prefix, and that in one single attestable prefix of the policy, whose unit is the declared one; operator, prefix
      and selector are those of the message the key verifies; and a testing policy is never reported as a pass. */
  lemma VerifySound(
    lib: Library, curve: Curve, token: Token, pub: seq<Byte>, policy: PolicyRecord, source: Addr, now: Instant,
    ineligible: seq<Prefix>)
    requires Reported(Verify(lib, curve, token, pub, policy, source, now, ineligible))
    ensures var o := Verify(lib, curve, token, pub, policy, source, now, ineligible);
            var rep := o.report;
            && Eligible(ineligible, source)
            && rep.observedUnit.bits == 64 && rep.observedUnit.Contains(source)
            && Subset(rep.observedUnit, rep.unit) && Subset(rep.unit, rep.prefix)
            && rep.unit.bits == policy.unit
            && (exists allowed | allowed in policy.prefixes :: ValidatePrefix(allowed) && Subset(rep.prefix, allowed))
            && (o.Pass? <==> !policy.testing) && rep.testing == policy.testing && rep.rua == policy.rua
            && token.message.Some? && SignatureHolds(curve, pub, token.message.value)
            && ValidatePrefix(rep.prefix) && NamedBy(lib, token.message.value, rep)
  {
    VerifyNests(lib, curve, token, pub, policy, source, now, ineligible);
    VerifyCovered(lib, curve, token, pub, policy, source, now, ineligible);
    VerifyNames(lib, curve, token, pub, policy, source, now, ineligible);
  }
}
