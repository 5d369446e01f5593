/** Query names: the reverse-tree name of a prefix and the operator domains derived from a PTR host name. */
module Resolver {
  import opened Wrappers
  import opened Bits
  import opened Text
  import opened Netip
  import opened Names

  const MAX_QUERIES := 10
  const MAX_CANDIDATES := 5
  const HEX_DIGITS := "0123456789abcdef"

  /** A name as discovery sends it: fully qualified. */
  function Fqdn(name: string): string { TrimDot(name) + "." }

  // ---------- Bytes and nibbles of an address ----------

  function ByteAt(a: Addr, i: nat): nat
    requires a.V6? && i < 16
  {
    a.Top(8 * (i + 1)) % 256
  }

  /** The sixteen bytes of an IPv6 address, most significant first. */
  function As16(a: Addr): (b: seq<Byte>)
    requires a.V6?
    ensures |b| == 16
  {
    seq(16, i requires 0 <= i < 16 => ByteAt(a, i))
  }

  function Nibble(a: Addr, i: nat): nat
    requires a.V6? && i < 32
  {
    a.Top(4 * (i + 1)) % 16
  }

  lemma TopStep(a: Addr, m: nat, n: nat, k: nat)
    requires a.V6? && n == m + k <= 128
    ensures a.Top(n) / Pow2(k) == a.Top(m)
  {
    DropDrop(a.v6, k, 128 - n);
    assert 128 - m == k + (128 - n);
  }

  lemma SmallPowers()
    ensures Pow2(4) == 16 && Pow2(8) == 256
  {
    assert Pow2(4) == 2 * Pow2(3) == 4 * Pow2(2) == 8 * Pow2(1);
    Step8(0);
  }

  /** The two nibbles of byte i. */
  lemma ByteNibbles(a: Addr, i: nat)
    requires a.V6? && i < 16
    ensures ByteAt(a, i) / 16 == Nibble(a, 2 * i) && ByteAt(a, i) % 16 == Nibble(a, 2 * i + 1)
  {
    SmallPowers();
    TopStep(a, 8 * i + 4, 8 * i + 8, 4);
    assert 8 * i + 4 == 4 * (2 * i + 1) && 8 * i + 8 == 4 * (2 * i + 1 + 1) == 8 * (i + 1);
    SplitByte(a.Top(8 * (i + 1)));
  }

  lemma SplitByte(x: nat)
    ensures (x % 256) / 16 == (x / 16) % 16 && (x % 256) % 16 == x % 16
  {
  }

  // ---------- Reverse-tree names ----------

  function HexChar(d: nat): char
    requires d < 16
  {
    HEX_DIGITS[d]
  }

  /** The first k nibbles, least significant first, each behind a dot. */
  function NibbleLabels(a: Addr, k: nat): (s: string)
    requires a.V6? && k <= 32
    ensures |s| == 2 * k
  {
    if k == 0 then "" else "." + [HexChar(Nibble(a, k - 1))] + NibbleLabels(a, k - 1)
  }

  predicate HasReverseName(a: Addr, prefixLen: int) {
    a.Is6() && !a.Is4In6() && prefixLen % 4 == 0 && 4 <= prefixLen <= 128
  }

  const ARPA := ".ip6.arpa"

  /** The name at which a pointer for the enclosing prefix lives, as in section 2.5 of RFC 3596 below a _sworn label. */
  function ReverseName(a: Addr, prefixLen: int): Option<string> {
    if HasReverseName(a, prefixLen) then Some(DNS_LABEL + NibbleLabels(a, prefixLen / 4) + ARPA) else None
  }

  method NibbleText(a: Addr) returns (nibbles: array<char>)
    requires a.V6?
    ensures fresh(nibbles) && nibbles.Length == 32
    ensures forall i | 0 <= i < 32 :: nibbles[i] == HexChar(Nibble(a, i))
  {
    var b := As16(a);
    nibbles := new char[32];
    for i := 0 to 16
      invariant forall j | 0 <= j < 2 * i :: nibbles[j] == HexChar(Nibble(a, j))
    {
      ByteNibbles(a, i);
      nibbles[2 * i] := HexChar(b[i] / 16);
      nibbles[2 * i + 1] := HexChar(b[i] % 16);
    }
  }

  method ReverseNibbleName(a: Addr, prefixLen: int) returns (r: Option<string>)
    ensures r == ReverseName(a, prefixLen)
  {
    if !a.Is6() || a.Is4In6() || prefixLen % 4 != 0 || prefixLen < 4 || prefixLen > 128 {
      return None;
    }
    var nibbles := NibbleText(a);
    var n := prefixLen / 4;
    var sb := DNS_LABEL;
    var i := n;
    while i > 0
      invariant 0 <= i <= n
      invariant forall j | 0 <= j < 32 :: nibbles[j] == HexChar(Nibble(a, j))
      invariant sb + NibbleLabels(a, i) == DNS_LABEL + NibbleLabels(a, n)
    {
      i := i - 1;
      assert NibbleLabels(a, i + 1) == "." + [nibbles[i]] + NibbleLabels(a, i);
      Regroup(sb, "." + [nibbles[i]], NibbleLabels(a, i));
      sb := sb + ("." + [nibbles[i]]);
    }
    assert NibbleLabels(a, 0) == "" && sb + "" == sb;
    return Some(sb + ARPA);
  }

  lemma {:induction false} LabelsIdentify(a: Addr, b: Addr, k: nat)
    requires a.V6? && b.V6? && k <= 32
    ensures NibbleLabels(a, k) == NibbleLabels(b, k) <==> a.Top(4 * k) == b.Top(4 * k)
  {
    if k == 0 {
      WordSpace(a.BitLen());
    } else {
      LabelsIdentify(a, b, k - 1);
      SmallPowers();
      TopStep(a, 4 * (k - 1), 4 * k, 4);
      TopStep(b, 4 * (k - 1), 4 * k, 4);
      var s, t := NibbleLabels(a, k), NibbleLabels(b, k);
      assert s[2..] == NibbleLabels(a, k - 1) && t[2..] == NibbleLabels(b, k - 1);
      assert s == s[..2] + s[2..] && t == t[..2] + t[2..];
      assert s[1] == HexChar(Nibble(a, k - 1)) && t[1] == HexChar(Nibble(b, k - 1));
      HexCharInjective(Nibble(a, k - 1), Nibble(b, k - 1));
    }
  }

  lemma HexCharInjective(c: nat, d: nat)
    requires c < 16 && d < 16
    ensures HexChar(c) == HexChar(d) <==> c == d
  {
  }

  /** A reverse-tree name identifies its prefix: two addresses get the same name exactly when the lengths agree and
      so do that many leading bits. */
  lemma ReverseNamesIdentify(a: Addr, m: int, b: Addr, n: int)
    requires HasReverseName(a, m) && HasReverseName(b, n)
    ensures ReverseName(a, m) == ReverseName(b, n) <==> m == n && a.Top(m) == b.Top(n)
  {
    var s, t := ReverseName(a, m).value, ReverseName(b, n).value;
    assert |s| == |DNS_LABEL| + m / 2 + |ARPA| && |t| == |DNS_LABEL| + n / 2 + |ARPA|;
    if m == n {
      LabelsIdentify(a, b, m / 4);
      var d := |DNS_LABEL|;
      assert s[d..d + m / 2] == NibbleLabels(a, m / 4) && t[d..d + m / 2] == NibbleLabels(b, m / 4);
    }
  }

  // ---------- Candidate domains ----------

  /** The host name with its first j labels stripped. */
  function Parent(host: string, j: nat): string
    requires j < |Split(host, '.')|
  {
    Join(Split(host, '.')[j..], ".")
  }

  /** Whether the walk goes on to evaluate the j-th parent: there is something left, it is not a public suffix, and
      without a public-suffix list it has at least three labels. */
  predicate Evaluated(host: string, publicSuffix: Option<string -> bool>, j: nat)
    requires j < |Split(host, '.')|
  {
    && Parent(host, j) != ""
    && match publicSuffix
       case Some(isSuffix) => !isSuffix(Parent(host, j))
       case None => |Split(host, '.')| - j >= 3
  }

  function NormalHost(host: string): string {
    ToLower(TrimDot(Trim(host)))
  }

  /** The walk from a host name yields its successive parents, host included, up to the first that is not to be
      evaluated and never more than five. */
  ghost predicate IsCandidateWalk(host: string, publicSuffix: Option<string -> bool>, out: seq<string>) {
    var n := |Split(host, '.')|;
    && |out| <= MAX_CANDIDATES && |out| <= n
    && (forall j | 0 <= j < |out| :: out[j] == Parent(host, j) && Evaluated(host, publicSuffix, j))
    && (|out| < MAX_CANDIDATES && |out| < n ==> !Evaluated(host, publicSuffix, |out|))
  }

  function WalkFrom(host: string, publicSuffix: Option<string -> bool>, j: nat): (out: seq<string>)
    requires j <= |Split(host, '.')|
    ensures |out| <= |Split(host, '.')| - j
    decreases |Split(host, '.')| - j
  {
    if j == |Split(host, '.')| || j >= MAX_CANDIDATES || !Evaluated(host, publicSuffix, j) then []
    else [Parent(host, j)] + WalkFrom(host, publicSuffix, j + 1)
  }

  function Candidates(host: string, publicSuffix: Option<string -> bool>): seq<string> {
    WalkFrom(NormalHost(host), publicSuffix, 0)
  }

  lemma ParentLabels(host: string, j: nat)
    requires j < |Split(host, '.')|
    ensures Split(Parent(host, j), '.') == Split(host, '.')[j..]
  {
    var parts := Split(host, '.');
    PartsLackSeparator(host, '.');
    assert forall p | p in parts[j..] :: p in parts;
    SplitJoin(parts[j..], '.');
  }

  method CandidateDomains(host: string, publicSuffix: Option<string -> bool>) returns (out: seq<string>)
    ensures out == Candidates(host, publicSuffix)
  {
    var name := NormalHost(host);
    var all := Split(name, '.');
    var cur := name;
    out := [];
    ghost var j := 0;
    JoinSplit(name, '.');
    assert all[0..] == all;
    while cur != "" && |out| < 5
      invariant |out| == j <= |all|
      invariant j < |all| ==> cur == Parent(name, j)
      invariant j == |all| ==> cur == ""
      invariant out + WalkFrom(name, publicSuffix, j) == WalkFrom(name, publicSuffix, 0)
      decreases |all| - j
    {
      ParentLabels(name, j);
      var labels := Split(cur, '.');
      if publicSuffix.Some? {
        if publicSuffix.value(cur) {
          break;
        }
      } else if |labels| < 3 {
        break;
      }
      Regroup(out, [cur], WalkFrom(name, publicSuffix, j + 1));
      out := out + [cur];
      if |labels| < 2 {
        break;
      }
      assert labels[1..] == all[j + 1..];
      cur := Join(labels[1..], ".");
      j := j + 1;
    }
  }

  /** A walk that starts at the j-th parent. */
  ghost predicate IsWalkFrom(host: string, publicSuffix: Option<string -> bool>, j: nat, out: seq<string>) {
    var n := |Split(host, '.')|;
    && j + |out| <= n && (|out| > 0 ==> j + |out| <= MAX_CANDIDATES)
    && (forall i | 0 <= i < |out| :: out[i] == Parent(host, j + i) && Evaluated(host, publicSuffix, j + i))
    && (j + |out| < MAX_CANDIDATES && j + |out| < n ==> !Evaluated(host, publicSuffix, j + |out|))
  }

  lemma WalkCons(host: string, publicSuffix: Option<string -> bool>, j: nat, rest: seq<string>)
    requires j < |Split(host, '.')| && j < MAX_CANDIDATES && Evaluated(host, publicSuffix, j)
    requires IsWalkFrom(host, publicSuffix, j + 1, rest)
    ensures IsWalkFrom(host, publicSuffix, j, [Parent(host, j)] + rest)
  {
    var out := [Parent(host, j)] + rest;
    forall i | 1 <= i < |out| ensures out[i] == Parent(host, j + i) && Evaluated(host, publicSuffix, j + i) {
      assert out[i] == rest[i - 1] == Parent(host, j + 1 + (i - 1));
    }
  }

  lemma {:induction false} WalkShape(host: string, publicSuffix: Option<string -> bool>, j: nat)
    requires j <= |Split(host, '.')|
    ensures IsWalkFrom(host, publicSuffix, j, WalkFrom(host, publicSuffix, j))
    decreases |Split(host, '.')| - j
  {
    if j < |Split(host, '.')| && j < MAX_CANDIDATES && Evaluated(host, publicSuffix, j) {
      WalkShape(host, publicSuffix, j + 1);
      WalkCons(host, publicSuffix, j, WalkFrom(host, publicSuffix, j + 1));
    }
  }

  /** The candidates are the successive parents of the host, host first, at most five, stopping exactly where the
      first parent that is not to be evaluated stands. */
  lemma CandidatesAreWalk(host: string, publicSuffix: Option<string -> bool>)
    ensures IsCandidateWalk(NormalHost(host), publicSuffix, Candidates(host, publicSuffix))
  {
    WalkShape(NormalHost(host), publicSuffix, 0);
  }

  lemma NoSpaceAtEnds(host: string)
    requires ValidDomain(host)
    ensures Trimmed(host) && TrimDot(host) == host
  {
    DomainCharacters(host);
    assert host[0] in host && host[|host| - 1] in host;
  }

  lemma NormalOfValid(host: string)
    requires ValidDomain(host)
    ensures NormalHost(host) == ToLower(host)
  {
    NoSpaceAtEnds(host);
    TrimPad("", host, "");
    assert "" + host + "" == host;
  }

  lemma ParentShorter(host: string, j: nat)
    requires j < |Split(host, '.')|
    ensures |Parent(host, j)| <= |host|
  {
    var parts := Split(host, '.');
    JoinSplit(host, '.');
    if j == 0 {
      assert parts[0..] == parts;
    } else {
      assert parts == parts[..j] + parts[j..];
      JoinConcat(parts[..j], parts[j..], ".");
    }
  }

  lemma ParentValid(host: string, j: nat)
    requires ValidDomain(host) && j < |Split(host, '.')|
    ensures ValidDomain(Parent(host, j))
  {
    ParentLabels(host, j);
    ParentShorter(host, j);
    LastLabel(Parent(host, j));
  }

  ghost predicate LabelSuffix(c: string, host: string) {
    exists j | 0 <= j < |Split(host, '.')| :: c == Parent(host, j)
  }

  lemma ParentLower(host: string, j: nat)
    requires j < |Split(host, '.')| && host == ToLower(host)
    ensures ToLower(Parent(host, j)) == Parent(host, j)
  {
    var parts := Split(host, '.');
    LowerSplit(host, '.');
    JoinLower(parts[j..]);
    assert LowerAll(parts[j..]) == LowerAll(parts)[j..] == parts[j..];
  }

  lemma {:induction false} JoinLower(parts: seq<string>)
    ensures ToLower(Join(parts, ".")) == Join(LowerAll(parts), ".")
  {
    if |parts| > 1 {
      JoinLower(parts[1..]);
      assert LowerAll(parts)[1..] == LowerAll(parts[1..]);
      ToLowerConcat(parts[0] + ".", Join(parts[1..], "."));
      ToLowerConcat(parts[0], ".");
    }
  }

  /** From a valid host every candidate is again a valid domain, in lower case, a label suffix of the host, and
      without a public-suffix list at least three labels long. */
  lemma CandidatesValid(host: string, publicSuffix: Option<string -> bool>, i: nat)
    requires ValidDomain(host) && i < |Candidates(host, publicSuffix)|
    ensures var c := Candidates(host, publicSuffix)[i];
            && ValidDomain(c) && ToLower(c) == c && LabelSuffix(c, ToLower(host))
            && (publicSuffix.None? ==> |Split(c, '.')| >= 3)
  {
    NormalOfValid(host);
    LowerDomain(host);
    var lower := ToLower(host);
    CandidatesAreWalk(host, publicSuffix);
    assert i < |Split(lower, '.')|;
    ParentValid(lower, i);
    ToLowerIdempotent(host);
    ParentLower(lower, i);
    ParentLabels(lower, i);
  }
}
