/** Prefixes as text, as netip.Prefix.String writes them (section 4 of RFC 5952) and netip.ParsePrefix reads them
    (section 2.2 of RFC 4291). */
module AddrText {
  import opened Wrappers
  import opened Bits
  import opened Text
  import opened Netip
  import opened Record
  import opened Resolver
  import opened WirePrefix

  type Hextet = n: nat | n < 0x1_0000

  // ---------- Writing ----------

  /** The 16-bit field that two bytes make. */
  function FieldOf(high: Byte, low: Byte): Hextet {
    var h: nat, l: nat := high, low;
    256 * h + l
  }

  /** The eight 16-bit fields of an address. */
  function Hextets(a: Addr): (gs: seq<Hextet>)
    requires a.V6?
    ensures |gs| == 8
  {
    seq(8, i requires 0 <= i < 8 => FieldOf(As16(a)[2 * i], As16(a)[2 * i + 1]))
  }

  /** Lower-case hexadecimal without leading zeros. */
  function HexText(n: nat): (s: string)
    ensures s != ""
  {
    if n < 16 then [HexChar(n)] else HexText(n / 16) + [HexChar(n % 16)]
  }

  function HexTexts(gs: seq<Hextet>): (ts: seq<string>)
    ensures |ts| == |gs|
  {
    Map((g: Hextet) => HexText(g), gs)
  }

  function Colons(gs: seq<Hextet>): string {
    Join(HexTexts(gs), ":")
  }

  /** Where the zero fields from i on end. */
  function RunEnd(gs: seq<Hextet>, i: nat): (j: nat)
    requires i <= |gs|
    ensures i <= j <= |gs| && forall k | i <= k < j :: gs[k] == 0
    decreases |gs| - i
  {
    if i == |gs| || gs[i] != 0 then i else RunEnd(gs, i + 1)
  }

  /** The longest run of at least two zero fields that starts before n, the first of that length. */
  function ZeroRun(gs: seq<Hextet>, n: nat): (run: Option<(nat, nat)>)
    requires n <= |gs|
    ensures run.Some? ==> run.value.0 + 2 <= run.value.1 <= |gs|
    ensures run.Some? ==> forall k | run.value.0 <= k < run.value.1 :: gs[k] == 0
  {
    if n == 0 then None else
    var best := ZeroRun(gs, n - 1);
    var j := RunEnd(gs, n - 1);
    var length := if best.Some? then best.value.1 - best.value.0 else 0;
    if j - (n - 1) >= 2 && j - (n - 1) > length then Some((n - 1, j)) else best
  }

  function String6(a: Addr): string
    requires a.V6?
  {
    var gs := Hextets(a);
    match ZeroRun(gs, 8)
    case None => Colons(gs)
    case Some((i, j)) => Colons(gs[..i]) + "::" + Colons(gs[j..])
  }

  /** The four octets of an IPv4 address, decimal and dotted. */
  function String4(n: Word32): string {
    Itoa(n / 0x100_0000) + "." + Itoa(n / 0x1_0000 % 256) + "." + Itoa(n / 256 % 256) + "." + Itoa(n % 256)
  }

  function AddrString(a: Addr): string
    requires a != NoAddr && !a.HasZone()
  {
    match a
    case V4(n) => String4(n)
    case V6(n, _) => if a.Is4In6() then "::ffff:" + String4(n % 0x1_0000_0000) else String6(a)
  }

  function PrefixString(p: Prefix): string {
    if p.IsValid() then AddrString(p.addr) + "/" + Itoa(p.bits) else "invalid Prefix"
  }

  // ---------- Reading ----------

  function HexDigit(c: char): Option<nat> {
    if '0' <= c <= '9' then Some(c as int - '0' as int)
    else if 'a' <= c <= 'f' then Some(c as int - 'a' as int + 10)
    else if 'A' <= c <= 'F' then Some(c as int - 'A' as int + 10)
    else None
  }

  /** How many hexadecimal digits a text starts with. */
  function HexRun(s: string): (n: nat)
    ensures n <= |s| && forall i | 0 <= i < n :: HexDigit(s[i]).Some?
  {
    if s == "" || HexDigit(s[0]).None? then 0 else 1 + HexRun(s[1..])
  }

  function HexValue(s: string): nat
    requires forall i | 0 <= i < |s| :: HexDigit(s[i]).Some?
  {
    if s == "" then 0 else 16 * HexValue(s[..|s| - 1]) + HexDigit(s[|s| - 1]).value
  }

  /** A dotted octet. */
  function Octet(s: string): Option<Byte> {
    match DecimalOf(s)
    case Some(n) => if n < 256 then Some(n) else None
    case None => None
  }

  function Parse4(s: string): (b: Option<seq<Byte>>)
    ensures b.Some? ==> |b.value| == 4
  {
    var fields := Split(s, '.');
    if |fields| != 4 then None else
    match (Octet(fields[0]), Octet(fields[1]), Octet(fields[2]), Octet(fields[3]))
    case (Some(a), Some(b), Some(c), Some(d)) => Some([a, b, c, d])
    case _ => None
  }

  /** The bytes read so far, and where among them the :: stood. */
  datatype Partial = Partial(bytes: seq<Byte>, ellipsis: Option<nat>)

  /** The fields of an IPv6 address from here on, up to sixteen bytes in all. */
  function ReadFields(s: string, p: Partial): Option<Partial>
    decreases |s|, 1
  {
    if |p.bytes| >= 16 then (if s == "" then Some(p) else None) else
    var n := HexRun(s);
    if n == 0 || n > 4 then None
    else if n < |s| && s[n] == '.' then
      if |p.bytes| > 12 || (p.ellipsis.None? && |p.bytes| != 12) then None else
      match Parse4(s)
      case Some(b) => Some(p.(bytes := p.bytes + b))
      case None => None
    else
      FourDigits(s[..n]);
      AfterField(s[n..], p.(bytes := p.bytes + TwoBytes(HexValue(s[..n]))))
  }

  /** What may follow a field: nothing, a colon and another field, or :: once. */
  function AfterField(s: string, p: Partial): Option<Partial>
    decreases |s|, 2
  {
    if s == "" then Some(p)
    else if s[0] != ':' || |s| == 1 then None
    else if s[1] != ':' then ReadFields(s[1..], p)
    else if p.ellipsis.Some? then None
    else if |s| == 2 then Some(p.(ellipsis := Some(|p.bytes|)))
    else ReadFields(s[2..], p.(ellipsis := Some(|p.bytes|)))
  }

  function TwoBytes(n: Hextet): (b: seq<Byte>)
    ensures |b| == 2
  {
    [n / 256, n % 256]
  }

  lemma FourDigits(s: string)
    requires |s| <= 4 && forall i | 0 <= i < |s| :: HexDigit(s[i]).Some?
    ensures HexValue(s) < 0x1_0000
  {
    HexBound(s);
    assert Pow2(16) == 0x1_0000 by { Step8(0); Step8(8); }
    if |s| < 4 {
      QuarterWord(|s|);
    }
  }

  lemma QuarterWord(n: nat)
    requires n < 4
    ensures Pow2(4 * n) <= 0x1_0000
  {
    assert Pow2(4) == 2 * Pow2(3) == 4 * Pow2(2) == 8 * Pow2(1) == 16;
    Step8(0);
    assert Pow2(12) == 2 * Pow2(11) == 4 * Pow2(10) == 8 * Pow2(9) == 16 * Pow2(8);
  }

  lemma {:induction false} HexBound(s: string)
    requires forall i | 0 <= i < |s| :: HexDigit(s[i]).Some?
    ensures HexValue(s) < Pow2(4 * |s|)
    decreases |s|
  {
    if s != "" {
      var n := |s| - 1;
      HexBound(s[..n]);
      Step4(4 * n);
      assert 4 * n + 4 == 4 * |s|;
    }
  }

  lemma Step4(n: nat)
    ensures Pow2(n + 4) == 16 * Pow2(n)
  {
    assert Pow2(n + 4) == 2 * Pow2(n + 3) == 4 * Pow2(n + 2) == 8 * Pow2(n + 1);
  }

  function Zeros(n: nat): (b: seq<Byte>)
    ensures |b| == n
  {
    seq(n, _ => 0)
  }

  /** The :: stands for as many zero bytes as are missing, and for at least one field. */
  function Expand(p: Partial): Option<seq<Byte>>
    requires p.ellipsis.Some? ==> p.ellipsis.value <= |p.bytes|
  {
    match p.ellipsis
    case None => if |p.bytes| == 16 then Some(p.bytes) else None
    case Some(e) =>
      if |p.bytes| >= 16 then None else Some(p.bytes[..e] + Zeros(16 - |p.bytes|) + p.bytes[e..])
  }

  /** The address that the bytes read so far stand for, at the end of the text. */
  function Finished(r: Option<Partial>): Option<Addr> {
    match r
    case None => None
    case Some(p) =>
      if p.ellipsis.Some? && p.ellipsis.value > |p.bytes| then None else
      match Expand(p)
      case Some(b) => if |b| == 16 then Some(AddrFrom16(b)) else None
      case None => None
  }

  /** An IPv6 address without a zone, which a prefix may not have. */
  function Parse6(s: string): Option<Addr> {
    if '%' in s then None
    else if s == "::" then Finished(Some(Partial([], Some(0))))
    else if "::" <= s then Finished(ReadFields(s[2..], Partial([], Some(0))))
    else Finished(ReadFields(s, Partial([], None)))
  }

  function Dotted(high: Hextet, low: Hextet): Word32 {
    var h: nat, l: nat := high, low;
    0x1_0000 * h + l
  }

  /** The first of the characters that tell the notations apart. */
  function Notation(s: string): char {
    if s == "" then ' '
    else if s[0] == '.' || s[0] == ':' || s[0] == '%' then s[0]
    else Notation(s[1..])
  }

  /** An address without a zone. */
  function ParseAddr(s: string): Option<Addr> {
    if Notation(s) == ':' then Parse6(s)
    else if Notation(s) == '.' then
      match Parse4(s)
      case Some(b) => Some(V4(Dotted(FieldOf(b[0], b[1]), FieldOf(b[2], b[3]))))
      case None => None
    else None
  }

  /** A length in decimal without a sign or a leading zero. */
  function ParseBits(s: string): Option<nat> {
    if s == "" || (|s| > 1 && s[0] == '0') || !AllDigits(s) then None else Some(DigitsValue(s))
  }

  function ParsePrefix(s: string): Option<Prefix> {
    var fields := Split(s, '/');
    if |fields| < 2 then None else
    match (ParseAddr(Join(fields[..|fields| - 1], "/")), ParseBits(fields[|fields| - 1]))
    case (Some(a), Some(n)) => if n <= a.BitLen() then Some(Prefix(a, n)) else None
    case _ => None
  }

  /** The text form of prefixes that the library provides. */
  const NETIP_TEXT := PrefixText(p => PrefixString(p), s => ParsePrefix(s))
}
