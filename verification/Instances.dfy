/** Concrete inputs that meet the premises of the main results: a generated record set and its source, a token that
    verifies, and a signed token that never does. */
module Instances {
  import opened Wrappers
  import opened Bits
  import opened Text
  import opened Netip
  import opened AddressRules
  import opened Names
  import opened Record
  import opened Genrecord
  import opened RoundTrip
  import opened LibraryText
  import opened EndToEnd
  import opened Items
  import T = Token
  import P = TokenProofs

  // ---------- A prefix ----------

  const BASE := V6(0x3000_0000_0000_0000_0000_0000_0000_0000, false)

  /** The prefix of length n that begins 3000:0000. */
  function SamplePrefix(n: nat): (p: Prefix)
    requires 32 <= n <= 64
    ensures p.addr.V6? && p.bits == n && p.Contains(BASE)
  {
    Enclosing(BASE, n)
  }

  lemma TopFour(a: Addr)
    requires a.V6?
    ensures a.Top(4) == a.v6 / 0x1000_0000_0000_0000_0000_0000_0000_0000
    ensures a.Top(3) == a.v6 / 0x2000_0000_0000_0000_0000_0000_0000_0000
  {
    TopThree(a);
    var c := a.BitLen() - 4;
    assert Pow2(c + 4) == 2 * Pow2(c + 3) == 4 * Pow2(c + 2) == 8 * Pow2(c + 1) == 16 * Pow2(c);
    WordSpace(a.BitLen());
  }

  lemma SampleTop(n: nat)
    requires 32 <= n <= 64
    ensures SamplePrefix(n).addr.Top(4) == 3 && SamplePrefix(n).addr.Top(3) == 1
  {
    TopFour(BASE);
    TopNests(BASE, SamplePrefix(n).addr, 3, n);
    TopNests(BASE, SamplePrefix(n).addr, 4, n);
  }

  lemma SampleClear(n: nat, r: Prefix)
    requires 32 <= n <= 64 && (r == TEREDO || r == SIX_TO_FOUR)
    ensures !SamplePrefix(n).Overlaps(r)
  {
    SampleTop(n);
    TopFour(r.addr);
    if SamplePrefix(n).Overlaps(r) {
      TopNests(SamplePrefix(n).addr, r.addr, 4, if r.bits < n then r.bits else n);
    }
  }

  lemma SampleValid(n: nat)
    requires 32 <= n <= 64
    ensures ValidatePrefix(SamplePrefix(n)) && Eligible([], BASE)
  {
    SampleTop(n);
    TopFour(GLOBAL_UNICAST.addr);
    SampleClear(n, TEREDO);
    SampleClear(n, SIX_TO_FOUR);
    ValidPrefixHoldsEligible(SamplePrefix(n), BASE);
  }

  lemma SampleNames()
    ensures ValidDomain("a") && ValidSelector("s")
  {
    SplitNone("a", '.');
    assert ValidLabel("a") && ValidLabel("s");
  }

  // ---------- Generation ----------

  const SAMPLE_OPTIONS := GenOptions("a", "s", seq(PUBLIC_KEY_SIZE, _ => 0), [SamplePrefix(48)], 64, false, "")

  lemma SampleAccepted()
    ensures Complaint(SAMPLE_OPTIONS).None?
  {
    SampleValid(48);
    SampleNames();
    var ps := SAMPLE_OPTIONS.prefixes;
    assert ps[..0] == [] && ps[0] == SamplePrefix(48);
    assert PrefixComplaint(ps) == PrefixFault(ps[0], ps[..0]);
  }

  /** There are options for which generation succeeds, with an eligible source in a listed /48, so that
      EndToEnd.EmittedIsFound speaks of something. */
  lemma GenerationHappens(isPoint: Bytes -> bool)
    requires isPoint(SAMPLE_OPTIONS.pubKey)
    ensures Generated(LibraryCodecs(isPoint), SAMPLE_OPTIONS).Ok?
    ensures Lists(SAMPLE_OPTIONS.prefixes, BASE, 48) && Eligible([], BASE)
  {
    LibraryFaithful(isPoint);
    SampleAccepted();
    GeneratesIff(LibraryCodecs(isPoint), SAMPLE_OPTIONS);
    SampleValid(48);
    assert SamplePrefix(48) in SAMPLE_OPTIONS.prefixes;
  }

  // ---------- Tokens ----------

  /** Issued in 1970, with a lifetime in nanoseconds. */
  function SamplePayload(lifetime: nat): T.Payload
    requires lifetime <= T.SECOND
  {
    T.Payload("a", SamplePrefix(32), 64, 0, lifetime, "mta")
  }

  /** Sign accepts every lifetime of at least a nanosecond. */
  lemma SampleSigns(lifetime: nat, signer: (T.Headers, seq<Entry>) -> seq<Byte>)
    requires 1 <= lifetime <= T.SECOND
    ensures T.Sign(SamplePayload(lifetime), "s", signer).Ok?
  {
    SampleValid(32);
    SampleNames();
  }

  /** A token that Sign accepts and that no verifier ever prepares: it expires one nanosecond after it is issued. */
  lemma SubsecondExample(
    lib: Library, signer: (T.Headers, seq<Entry>) -> seq<Byte>, source: Addr, now: T.Instant, ineligible: seq<Prefix>,
    size: nat)
    ensures var signed := T.Sign(SamplePayload(1), "s", signer);
            signed.Ok? && T.Preparation(lib, T.Token(size, Some(signed.value)), source, now, ineligible).Err?
  {
    SampleSigns(1, signer);
    P.SubsecondNeverPrepares(lib, SamplePayload(1), "s", signer, source, now, ineligible, size);
  }

  const SAMPLE_POLICY := PolicyRecord(VERSION, [SamplePrefix(32)], 64, false, "")

  lemma SampleAuthorizes()
    ensures SAMPLE_POLICY.Authorizes(SamplePrefix(32))
  {
    SampleValid(32);
    assert SamplePrefix(32) in SAMPLE_POLICY.prefixes;
    assert SamplePrefix(32).Contains(SamplePrefix(32).addr);
  }

  /** A token of one second that passes whenever its key verifies it, so that TokenProofs.VerifySound speaks of
      something. */
  lemma VerificationHappens(
    lib: Library, curve: T.Curve, pub: seq<Byte>, signer: (T.Headers, seq<Entry>) -> seq<Byte>)
    requires T.Sign(SamplePayload(T.SECOND), "s", signer).Ok? ==>
               T.Genuine(curve, pub, T.Sign(SamplePayload(T.SECOND), "s", signer).value)
    ensures var signed := T.Sign(SamplePayload(T.SECOND), "s", signer);
            && signed.Ok?
            && var token := T.Token(P.WireSize(signed.value), Some(signed.value));
               T.Verify(lib, curve, token, pub, SAMPLE_POLICY, BASE, 0, []).Pass?
  {
    var p := SamplePayload(T.SECOND);
    SampleSigns(T.SECOND, signer);
    SampleValid(32);
    P.SignedPrepares(lib, p, "s", signer, BASE, 0, []);
    SampleAuthorizes();
  }
}
