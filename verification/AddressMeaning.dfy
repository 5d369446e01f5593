/** The address rules as ranges of numbers: what a prefix holds, which prefixes may be attested and which sources
    matched. */
module AddressMeaning {
  import opened Bits
  import opened Netip
  import opened AddressRules
  import opened WirePrefix

  lemma SameQuotient(x: nat, y: nat, d: nat)
    requires d > 0
    ensures x / d == y / d <==> x - x % d <= y < x - x % d + d
  {
    var q := x / d;
    assert x == q * d + x % d;
    assert y == (y / d) * d + y % d;
    if x - x % d <= y < x - x % d + d {
      QuotientUnique(y, d, q);
    }
  }

  /** A prefix holds the addresses of its family, without a zone, from its first address on, as many as there are
      combinations of the bits after its length. */
  lemma ContainsIff(p: Prefix, a: Addr)
    requires p.IsValid()
    ensures var d := Pow2(p.addr.BitLen() - p.bits);
            var first := p.addr.Value() - p.addr.Value() % d;
            p.Contains(a) <==>
              && !a.HasZone() && a.V4? == p.addr.V4? && a.V6? == p.addr.V6?
              && first <= a.Value() < first + d
  {
    SameQuotient(p.addr.Value(), a.Value(), Pow2(p.addr.BitLen() - p.bits));
  }

  /** Only the addresses ::ffff:0:0 to ::ffff:ffff:ffff are unmapped, each to the IPv4 address of its last 32 bits. */
  lemma UnmapIff(a: Addr)
    ensures a.V6? && 0xffff_0000_0000 <= a.v6 < 0x1_0000_0000_0000 ==>
              a.Unmap() == V4(a.v6 - 0xffff_0000_0000) && a.Is4In6()
    ensures !(a.V6? && 0xffff_0000_0000 <= a.v6 < 0x1_0000_0000_0000) ==> a.Unmap() == a && !a.Is4In6()
  {
  }

  lemma TopTwoGroups(a: Addr)
    requires a.V6?
    ensures a.Top(32) == a.v6 / 0x1_0000_0000_0000_0000_0000_0000
    ensures a.Top(16) == a.v6 / 0x1_0000_0000_0000_0000_0000_0000_0000
  {
    var w := a.BitLen();
    WordSpace(w);
    Step32(w - 32, w);
    Step8(w - 16);
    Step8(w - 8);
  }

  // ---------- The three blocks ----------

  /** 2000::/3. */
  predicate InUnicast(v: nat) {
    0x2000_0000_0000_0000_0000_0000_0000_0000 <= v < 0x4000_0000_0000_0000_0000_0000_0000_0000
  }

  /** 2001::/32. */
  predicate InTeredo(v: nat) {
    0x2001_0000_0000_0000_0000_0000_0000_0000 <= v < 0x2001_0001_0000_0000_0000_0000_0000_0000
  }

  /** 2002::/16. */
  predicate InSixToFour(v: nat) {
    0x2002_0000_0000_0000_0000_0000_0000_0000 <= v < 0x2003_0000_0000_0000_0000_0000_0000_0000
  }

  lemma UnicastIff(a: Addr)
    ensures GLOBAL_UNICAST.Contains(a) <==> a.V6? && !a.zoned && InUnicast(a.v6)
  {
    if a.V6? {
      TopThree(a);
      TopThree(GLOBAL_UNICAST.addr);
    }
  }

  lemma TeredoIff(a: Addr)
    ensures TEREDO.Contains(a) <==> a.V6? && !a.zoned && InTeredo(a.v6)
  {
    if a.V6? {
      TopTwoGroups(a);
      TopTwoGroups(TEREDO.addr);
    }
  }

  lemma SixToFourIff(a: Addr)
    ensures SIX_TO_FOUR.Contains(a) <==> a.V6? && !a.zoned && InSixToFour(a.v6)
  {
    if a.V6? {
      TopTwoGroups(a);
      TopTwoGroups(SIX_TO_FOUR.addr);
    }
  }

  /** The source gate: an IPv6 address without a zone inside 2000::/3 and outside 2001::/32 and 2002::/16. */
  lemma EligibleSourceIff(a: Addr)
    ensures EligibleSource(a)
       <==> a.V6? && !a.zoned && InUnicast(a.v6) && !InTeredo(a.v6) && !InSixToFour(a.v6)
  {
    UnicastIff(a);
    TeredoIff(a);
    SixToFourIff(a);
    if GLOBAL_UNICAST.Contains(a) {
      EligibleInGlobalUnicast(a);
    }
  }

  /** And outside every prefix the receiver lists. */
  lemma EligibleIff(ineligible: seq<Prefix>, a: Addr)
    ensures Eligible(ineligible, a)
       <==> && a.V6? && !a.zoned && InUnicast(a.v6) && !InTeredo(a.v6) && !InSixToFour(a.v6)
            && forall i | 0 <= i < |ineligible| :: !ineligible[i].Contains(a)
  {
    EligibleSourceIff(a);
    assert forall i | 0 <= i < |ineligible| :: ineligible[i] in ineligible;
  }

  // ---------- Attestable prefixes ----------

  lemma OverlapsTeredo(p: Prefix)
    requires p.IsValid() && p.addr.V6? && 32 <= p.bits
    ensures p.Overlaps(TEREDO) <==> InTeredo(p.addr.v6)
  {
    TopTwoGroups(p.addr);
    TopTwoGroups(TEREDO.addr);
  }

  lemma OverlapsSixToFour(p: Prefix)
    requires p.IsValid() && p.addr.V6? && 32 <= p.bits
    ensures p.Overlaps(SIX_TO_FOUR) <==> InSixToFour(p.addr.v6)
  {
    TopTwoGroups(p.addr);
    TopTwoGroups(SIX_TO_FOUR.addr);
  }

  lemma MaskedIff(p: Prefix)
    requires p.IsValid() && p.addr.V6?
    ensures p.IsMasked() <==> p.addr.v6 % Pow2(128 - p.bits) == 0
  {
    var d := Pow2(128 - p.bits);
    assert p.addr.v6 == (p.addr.v6 / d) * d + p.addr.v6 % d;
  }

  /** An attestable prefix: IPv6 without a zone, of 32 to 64 bits, no bit set after them, its first address inside
      2000::/3 and outside 2001::/32 and 2002::/16. */
  lemma ValidatePrefixIff(p: Prefix)
    ensures ValidatePrefix(p)
       <==> && p.addr.V6? && !p.addr.zoned && 32 <= p.bits <= 64 && p.addr.v6 % Pow2(128 - p.bits) == 0
            && InUnicast(p.addr.v6) && !InTeredo(p.addr.v6) && !InSixToFour(p.addr.v6)
  {
    if p.addr.V6? && !p.addr.zoned && 32 <= p.bits <= 64 {
      MaskedIff(p);
      UnicastIff(p.addr);
      OverlapsTeredo(p);
      OverlapsSixToFour(p);
      assert UNICAST_FORBIDDEN_RANGES[0] == TEREDO && UNICAST_FORBIDDEN_RANGES[1] == SIX_TO_FOUR;
    }
  }

  // ---------- Bytes and nibbles ----------

  /** The wire form: byte i of sixteen holds the bits 8i to 8i + 7 of the address, and the last is the length. */
  lemma EncodedByte(p: Prefix, i: nat)
    requires p.addr.V6? && 0 <= p.bits < 256 && i <= 16
    ensures EncodePrefix(p)[i] == if i < 16 then p.addr.v6 / Pow2(8 * (15 - i)) % 256 else p.bits
  {
    if i < 16 {
      assert 128 - 8 * (i + 1) == 8 * (15 - i);
    }
  }

  /** Masking keeps the leading bits and clears the others. */
  lemma EnclosingIs(a: Addr, n: nat)
    requires a.V6? && n <= 128
    ensures Enclosing(a, n) == Prefix(V6(a.v6 - a.v6 % Pow2(128 - n), false), n)
  {
    var d := Pow2(128 - n);
    assert a.v6 == (a.v6 / d) * d + a.v6 % d;
  }
}
