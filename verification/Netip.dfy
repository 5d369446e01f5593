/** IP addresses and prefixes as Go's net/netip package presents them, with the set-level facts the protocol's
    prefix arithmetic relies on. An address is a number, and a prefix of n bits keeps its quotient by a power of two. */
module Netip {
  import opened Bits

  type Word32 = n: nat | n < 0x1_0000_0000
  type Word128 = n: nat | n < 0x1_0000_0000_0000_0000_0000_0000_0000_0000

  datatype Addr =
    | NoAddr
    | V4(v4: Word32)
    | V6(v6: Word128, zoned: bool)
  {
    predicate Is4() { V4? }

    /** True of an IPv4-mapped address too. */
    predicate Is6() { V6? }

    predicate Is4In6() { V6? && v6 / 0x1_0000_0000 == 0xffff }

    predicate HasZone() { V6? && zoned }

    function BitLen(): nat {
      match this
      case NoAddr => 0
      case V4(_) => 32
      case V6(_, _) => 128
    }

    function Value(): nat {
      match this
      case NoAddr => 0
      case V4(n) => n
      case V6(n, _) => n
    }

    function Unmap(): Addr {
      if Is4In6() then V4(v6 % 0x1_0000_0000) else this
    }

    /** The leading n bits, as a number. */
    function Top(n: nat): nat
      requires n <= BitLen()
    {
      Drop(Value(), BitLen() - n)
    }

    /** The address with its zone dropped and everything after the leading n bits cleared. */
    function Masked(n: nat): (m: Addr)
      requires n <= BitLen()
      ensures m.BitLen() == BitLen() && !m.HasZone() && m.Value() == Top(n) * Pow2(BitLen() - n) <= Value()
    {
      assert Value() == Top(n) * Pow2(BitLen() - n) + Value() % Pow2(BitLen() - n);
      match this
      case NoAddr => NoAddr
      case V4(_) => V4(Top(n) * Pow2(32 - n))
      case V6(_, _) => V6(Top(n) * Pow2(128 - n), false)
    }
  }

  datatype Prefix = Prefix(addr: Addr, bits: int)
  {
    predicate IsValid() {
      addr != NoAddr && !addr.HasZone() && 0 <= bits <= addr.BitLen()
    }

    /** In canonical form: no bit set after the prefix length. */
    predicate IsMasked()
      requires IsValid()
    {
      this == Prefix(addr.Masked(bits), bits)
    }

    predicate Contains(a: Addr) {
      && IsValid() && !a.HasZone() && a != NoAddr
      && addr.BitLen() == a.BitLen()
      && addr.Top(bits) == a.Top(bits)
    }

    predicate Overlaps(that: Prefix) {
      && IsValid() && that.IsValid()
      && addr.BitLen() == that.addr.BitLen()
      && var n := if bits < that.bits then bits else that.bits;
         addr.Top(n) == that.addr.Top(n)
    }
  }

  /** The prefix of length n that an address lies in. */
  function Enclosing(a: Addr, n: nat): (p: Prefix)
    requires a != NoAddr && n <= a.BitLen()
    ensures p.IsValid() && p.IsMasked() && p.bits == n && p.addr.Top(n) == a.Top(n)
    ensures !a.HasZone() ==> p.Contains(a)
  {
    MaskedKeepsTop(a, n);
    Prefix(a.Masked(n), n)
  }

  ghost predicate Subset(p: Prefix, q: Prefix) {
    forall a: Addr :: p.Contains(a) ==> q.Contains(a)
  }

  lemma MaskedKeepsTop(a: Addr, n: nat)
    requires n <= a.BitLen()
    ensures a.Masked(n).Top(n) == a.Top(n)
    ensures a.Masked(n).Masked(n) == a.Masked(n)
  {
    QuotientUnique(a.Masked(n).Value(), Pow2(a.BitLen() - n), a.Top(n));
  }

  /** Two addresses with the same leading n bits have the same leading m bits for every m up to n. */
  lemma TopNests(a: Addr, b: Addr, m: nat, n: nat)
    requires m <= n <= a.BitLen() == b.BitLen() && a.Top(n) == b.Top(n)
    ensures a.Top(m) == b.Top(m)
  {
    PrefixNests(a.Value(), b.Value(), a.BitLen() - n, a.BitLen() - m);
  }

  lemma NestedIsSubset(p: Prefix, q: Prefix)
    requires p.bits >= q.bits && q.Contains(p.addr)
    ensures Subset(p, q)
  {
    forall a: Addr | p.Contains(a) ensures q.Contains(a) {
      TopNests(p.addr, a, q.bits, p.bits);
    }
  }

  /** A canonical prefix holds an address that differs from its own base right after the prefix length. */
  function Sibling(p: Prefix): (a: Addr)
    requires p.IsValid() && p.IsMasked() && p.bits < p.addr.BitLen()
    ensures p.Contains(a) && a.BitLen() == p.addr.BitLen()
    ensures a.Value() == p.addr.Value() + Pow2(p.addr.BitLen() - p.bits - 1)
  {
    var w := p.addr.BitLen();
    var half := Pow2(w - p.bits - 1);
    assert Pow2(w - p.bits) == 2 * half;
    var v := p.addr.Value() + half;
    assert v < Pow2(w) by { SiblingFits(p); }
    QuotientUnique(v, 2 * half, p.addr.Top(p.bits));
    WordSpace(w);
    match p.addr
    case V4(_) => V4(v)
    case V6(_, _) => V6(v, false)
  }

  lemma SiblingFits(p: Prefix)
    requires p.IsValid() && p.IsMasked() && p.bits < p.addr.BitLen()
    ensures p.addr.Value() + Pow2(p.addr.BitLen() - p.bits) <= Pow2(p.addr.BitLen())
  {
    var w := p.addr.BitLen();
    assert p.addr.Value() < Pow2(w) by { WordSpace(w); }
    NextMultipleFits(p.addr.Top(p.bits), p.bits, w - p.bits);
  }

  lemma SiblingDiffers(p: Prefix)
    requires p.IsValid() && p.IsMasked() && p.bits < p.addr.BitLen()
    ensures Sibling(p).Top(p.bits + 1) != p.addr.Top(p.bits + 1)
  {
    OddAndEven(p.addr.Top(p.bits), Pow2(p.addr.BitLen() - p.bits - 1));
  }

  /** For canonical prefixes of one family, containment of address sets is exactly
      "at least as long, and the base address lies inside". */
  lemma SubsetIffNested(p: Prefix, q: Prefix)
    requires p.IsValid() && p.IsMasked() && q.IsValid()
    ensures Subset(p, q) <==> p.bits >= q.bits && q.Contains(p.addr)
  {
    if p.bits >= q.bits && q.Contains(p.addr) {
      NestedIsSubset(p, q);
    }
    if Subset(p, q) {
      assert p.Contains(p.addr);
      if p.bits < q.bits {
        var s := Sibling(p);
        assert q.Contains(s);
        SiblingDiffers(p);
        TopNests(p.addr, s, p.bits + 1, q.bits);
      }
    }
  }

  /** Overlap, which the code decides by comparing the shorter of two lengths, is sharing an address. */
  lemma OverlapsIffShared(p: Prefix, q: Prefix)
    requires p.IsValid() && q.IsValid()
    ensures p.Overlaps(q) <==> exists a: Addr :: p.Contains(a) && q.Contains(a)
  {
    if p.Overlaps(q) {
      if p.bits <= q.bits {
        assert q.Contains(q.addr) && p.Contains(q.addr);
      } else {
        assert p.Contains(p.addr) && q.Contains(p.addr);
      }
    }
    forall a: Addr | p.Contains(a) && q.Contains(a) ensures p.Overlaps(q) {
      var n := if p.bits < q.bits then p.bits else q.bits;
      TopNests(p.addr, a, n, p.bits);
      TopNests(q.addr, a, n, q.bits);
    }
  }

  /** Masking one address to two lengths gives nested prefixes. */
  lemma EnclosingNests(a: Addr, m: nat, n: nat)
    requires a != NoAddr && m <= n <= a.BitLen()
    ensures Subset(Enclosing(a, n), Enclosing(a, m))
  {
    var p, q := Enclosing(a, n), Enclosing(a, m);
    TopNests(p.addr, a, m, n);
    NestedIsSubset(p, q);
  }

  /** A prefix that holds an address contains every enclosing prefix at least as long as itself. */
  lemma EnclosingWithin(a: Addr, n: nat, q: Prefix)
    requires q.Contains(a) && q.bits <= n <= a.BitLen()
    ensures Subset(Enclosing(a, n), q)
  {
    var p := Enclosing(a, n);
    TopNests(p.addr, a, q.bits, n);
    NestedIsSubset(p, q);
  }
}
