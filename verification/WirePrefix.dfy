/** The wire form of a prefix: sixteen address bytes and a length byte. */
module WirePrefix {
  import opened Wrappers
  import opened Bits
  import opened Netip
  import opened AddressRules
  import opened Resolver

  function EncodePrefix(p: Prefix): (b: seq<Byte>)
    requires p.addr.V6? && 0 <= p.bits < 256
    ensures |b| == 17
  {
    As16(p.addr) + [p.bits]
  }

  /** Big-endian bytes as a number. */
  function FromBytes(b: seq<Byte>): nat {
    if b == [] then 0 else 256 * FromBytes(b[..|b| - 1]) + b[|b| - 1]
  }

  lemma {:induction false} FromBytesBound(b: seq<Byte>)
    ensures FromBytes(b) < Pow2(8 * |b|)
  {
    if b != [] {
      var n := |b| - 1;
      FromBytesBound(b[..n]);
      Step8(8 * n);
      assert 8 * n + 8 == 8 * |b|;
    }
  }

  lemma SixteenFit(b: seq<Byte>)
    requires |b| == 16
    ensures FromBytes(b) < 0x1_0000_0000_0000_0000_0000_0000_0000_0000
  {
    FromBytesBound(b);
    WordSpace(8 * |b|);
  }

  /** The address sixteen bytes spell. */
  function AddrFrom16(b: seq<Byte>): Addr
    requires |b| == 16
  {
    SixteenFit(b);
    V6(FromBytes(b), false)
  }

  datatype PrefixError = WrongLength | NotAttestable

  function DecodePrefix(b: seq<Byte>): Result<Prefix, PrefixError> {
    if |b| != 17 then Err(WrongLength) else
    var p := Prefix(AddrFrom16(b[..16]), b[16]);
    if ValidatePrefix(p) then Ok(p) else Err(NotAttestable)
  }

  // ---------- The two directions are inverse ----------

  lemma TopByByte(a: Addr, i: nat)
    requires a.V6? && i < 16
    ensures a.Top(8 * (i + 1)) == 256 * a.Top(8 * i) + ByteAt(a, i)
    ensures a.Top(8 * (i + 1)) / 256 == a.Top(8 * i)
  {
    SmallPowers();
    TopStep(a, 8 * i, 8 * (i + 1), 8);
  }

  lemma {:induction false} BytesSpell(a: Addr, i: nat)
    requires a.V6? && i <= 16
    ensures FromBytes(As16(a)[..i]) == a.Top(8 * i)
  {
    if i == 0 {
      WordSpace(a.BitLen());
    } else {
      BytesSpell(a, i - 1);
      TopByByte(a, i - 1);
      var b := As16(a)[..i];
      assert b[..i - 1] == As16(a)[..i - 1];
    }
  }

  /** The bytes of an address spell that address. */
  lemma AddrRoundTrip(a: Addr)
    requires a.V6? && !a.zoned
    ensures AddrFrom16(As16(a)) == a
  {
    BytesSpell(a, 16);
    assert As16(a)[..16] == As16(a);
    assert Pow2(0) == 1;
  }

  lemma {:induction false} SpellBytes(b: seq<Byte>, k: nat)
    requires |b| == 16 && k <= 16
    ensures AddrFrom16(b).Top(8 * (16 - k)) == FromBytes(b[..16 - k])
  {
    var a := AddrFrom16(b);
    if k == 0 {
      assert b[..16] == b && Pow2(0) == 1;
    } else {
      var i := 16 - k;
      SpellBytes(b, k - 1);
      TopByByte(a, i);
      var longer := b[..i + 1];
      assert longer[..i] == b[..i];
      QuotientUnique(FromBytes(longer), 256, FromBytes(b[..i]));
    }
  }

  /** Any sixteen bytes are the bytes of the address they spell. */
  lemma BytesRoundTrip(b: seq<Byte>)
    requires |b| == 16
    ensures As16(AddrFrom16(b)) == b
  {
    var a := AddrFrom16(b);
    forall i | 0 <= i < 16 ensures As16(a)[i] == b[i] {
      SpellBytes(b, 16 - i);
      SpellBytes(b, 15 - i);
      TopByByte(a, i);
      assert b[..i + 1][..i] == b[..i];
    }
  }

  /** Decoding and encoding are inverse: bytes decode to p exactly when p is attestable and they are its encoding. */
  lemma WireIff(b: seq<Byte>, p: Prefix)
    ensures DecodePrefix(b) == Ok(p) <==> ValidatePrefix(p) && EncodePrefix(p) == b
  {
    if DecodePrefix(b) == Ok(p) {
      BytesRoundTrip(b[..16]);
      assert b == b[..16] + [b[16]];
    }
    if ValidatePrefix(p) && EncodePrefix(p) == b {
      AddrRoundTrip(p.addr);
      assert b[..16] == As16(p.addr) && b[16] == p.bits;
    }
  }
}
