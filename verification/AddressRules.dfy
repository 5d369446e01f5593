/** Which prefixes an operator may attest and which connecting addresses may be matched against one. */
module AddressRules {
  import opened Bits
  import opened Netip

  const MIN_PREFIX_LEN := 32
  const MAX_PREFIX_LEN := 64
  const DEFAULT_UNIT_PREFIX_LEN := 64
  const MAX_UNIT_PREFIX_LEN := 64
  const OBSERVED_UNIT_LEN := 64

  const GLOBAL_UNICAST := Prefix(V6(0x2000_0000_0000_0000_0000_0000_0000_0000, false), 3)
  const IPV4_MAPPED := Prefix(V6(0xffff_0000_0000, false), 96)
  const IPV4_COMPATIBLE := Prefix(V6(0, false), 96)
  const NAT64_WELL_KNOWN := Prefix(V6(0x0064_ff9b_0000_0000_0000_0000_0000_0000, false), 96)
  const NAT64_LOCAL := Prefix(V6(0x0064_ff9b_0001_0000_0000_0000_0000_0000, false), 48)
  const TEREDO := Prefix(V6(0x2001_0000_0000_0000_0000_0000_0000_0000, false), 32)
  const SIX_TO_FOUR := Prefix(V6(0x2002_0000_0000_0000_0000_0000_0000_0000, false), 16)

  const INELIGIBLE_SOURCE_RANGES := [IPV4_MAPPED, IPV4_COMPATIBLE, NAT64_WELL_KNOWN, NAT64_LOCAL, TEREDO, SIX_TO_FOUR]
  const UNICAST_FORBIDDEN_RANGES := [TEREDO, SIX_TO_FOUR]

  /** An attestable prefix: canonical, within global unicast, of length 32 to 64, clear of the forbidden ranges. */
  predicate ValidatePrefix(p: Prefix) {
    && p.IsValid() && !p.addr.Is4()
    && p.IsMasked()
    && MIN_PREFIX_LEN <= p.bits <= MAX_PREFIX_LEN
    && GLOBAL_UNICAST.Contains(p.addr)
    && forall r | r in UNICAST_FORBIDDEN_RANGES :: !p.Overlaps(r)
  }

  /** An ordinary global-unicast IPv6 address outside the embedded-IPv4 and transition ranges. */
  predicate EligibleSource(a: Addr) {
    && a.Is6() && !a.Is4In6()
    && GLOBAL_UNICAST.Contains(a)
    && forall r | r in INELIGIBLE_SOURCE_RANGES :: !r.Contains(a)
  }

  /** The gate discovery and verification share: the protocol's rule, and outside every configured prefix. */
  predicate Eligible(ineligible: seq<Prefix>, a: Addr) {
    && EligibleSource(a)
    && forall p | p in ineligible :: !p.Contains(a)
  }

  lemma TopThree(a: Addr)
    requires a.V6?
    ensures a.Top(3) == a.v6 / 0x2000_0000_0000_0000_0000_0000_0000_0000
  {
    var c := a.BitLen() - 3;
    assert Pow2(c + 3) == 8 * Pow2(c) by { assert Pow2(c + 3) == 2 * Pow2(c + 2) == 4 * Pow2(c + 1); }
    WordSpace(a.BitLen());
  }

  /** The four embedded-IPv4 ranges all lie outside 2000::/3. */
  lemma OutsideGlobalUnicast(r: Prefix, a: Addr)
    requires r in {IPV4_MAPPED, IPV4_COMPATIBLE, NAT64_WELL_KNOWN, NAT64_LOCAL} && r.Contains(a)
    ensures !GLOBAL_UNICAST.Contains(a)
  {
    TopNests(r.addr, a, 3, r.bits);
    TopThree(r.addr);
    TopThree(GLOBAL_UNICAST.addr);
  }

  /** Inside global unicast, only the two forbidden ranges can make an address ineligible. */
  lemma EligibleInGlobalUnicast(a: Addr)
    requires GLOBAL_UNICAST.Contains(a)
    ensures EligibleSource(a) <==> !TEREDO.Contains(a) && !SIX_TO_FOUR.Contains(a)
  {
    TopThree(a);
    TopThree(GLOBAL_UNICAST.addr);
    forall r | r in {IPV4_MAPPED, IPV4_COMPATIBLE, NAT64_WELL_KNOWN, NAT64_LOCAL} ensures !r.Contains(a) {
      if r.Contains(a) { OutsideGlobalUnicast(r, a); }
    }
    assert TEREDO in INELIGIBLE_SOURCE_RANGES by { assert INELIGIBLE_SOURCE_RANGES[4] == TEREDO; }
    assert SIX_TO_FOUR in INELIGIBLE_SOURCE_RANGES by { assert INELIGIBLE_SOURCE_RANGES[5] == SIX_TO_FOUR; }
  }

  /** Among canonical prefixes of admissible length, the attestable ones are exactly those whose every address
      is an eligible source. */
  lemma ValidIffAllEligible(p: Prefix)
    requires p.IsValid() && p.IsMasked() && MIN_PREFIX_LEN <= p.bits <= MAX_PREFIX_LEN
    ensures ValidatePrefix(p) <==> forall a: Addr :: p.Contains(a) ==> EligibleSource(a)
  {
    assert p.Contains(p.addr);
    assert TEREDO in UNICAST_FORBIDDEN_RANGES by { assert UNICAST_FORBIDDEN_RANGES[0] == TEREDO; }
    assert SIX_TO_FOUR in UNICAST_FORBIDDEN_RANGES by { assert UNICAST_FORBIDDEN_RANGES[1] == SIX_TO_FOUR; }
    if GLOBAL_UNICAST.Contains(p.addr) {
      NestedIsSubset(p, GLOBAL_UNICAST);
      OverlapsIffShared(p, TEREDO);
      OverlapsIffShared(p, SIX_TO_FOUR);
      forall a: Addr | p.Contains(a)
        ensures EligibleSource(a) <==> !TEREDO.Contains(a) && !SIX_TO_FOUR.Contains(a)
      {
        EligibleInGlobalUnicast(a);
      }
    } else {
      assert !EligibleSource(p.addr);
    }
  }

  /** Every address inside an attestable prefix is an eligible source. */
  lemma ValidPrefixHoldsEligible(p: Prefix, a: Addr)
    requires ValidatePrefix(p) && p.Contains(a)
    ensures EligibleSource(a)
  {
    ValidIffAllEligible(p);
  }
}
