/** What netip writes for a prefix it reads back: the round trip of addresses and of prefixes, and that their text
    leaves the record syntax alone. */
module AddrTextRoundTrip {
  import opened Wrappers
  import opened Bits
  import opened Text
  import opened Netip
  import opened AddressRules
  import opened Tags
  import opened Record
  import opened RecordMeaning
  import opened Resolver
  import opened WirePrefix
  import opened RoundTrip
  import opened AddrText

  // ---------- One field ----------

  predicate IsHex(s: string) {
    forall i | 0 <= i < |s| :: HexDigit(s[i]).Some?
  }

  lemma HexCharReads(d: nat)
    requires d < 16
    ensures HexDigit(HexChar(d)) == Some(d)
  {
  }

  lemma {:induction false} HexTextReads(n: nat)
    ensures IsHex(HexText(n)) && HexValue(HexText(n)) == n
    decreases n
  {
    if n < 16 {
      HexCharReads(n);
      assert [HexChar(n)][..0] == "";
    } else {
      HexTextReads(n / 16);
      HexCharReads(n % 16);
      var s, init := HexText(n), HexText(n / 16);
      assert s[..|s| - 1] == init;
    }
  }

  lemma HexTextShort(n: Hextet)
    ensures 1 <= |HexText(n)| <= 4
  {
    if n >= 16 {
      assert |HexText(n)| == |HexText(n / 16)| + 1;
      if n / 16 >= 16 {
        assert |HexText(n / 16)| == |HexText(n / 16 / 16)| + 1;
        if n / 16 / 16 >= 16 {
          assert |HexText(n / 16 / 16)| == |HexText(n / 16 / 16 / 16)| + 1;
        }
      }
    }
  }

  lemma {:induction false} HexRunOf(s: string, rest: string)
    requires IsHex(s) && (rest == "" || HexDigit(rest[0]).None?)
    ensures HexRun(s + rest) == |s|
    decreases |s|
  {
    if s == "" {
      assert s + rest == rest;
    } else {
      assert (s + rest)[1..] == s[1..] + rest && (s + rest)[0] == s[0];
      HexRunOf(s[1..], rest);
    }
  }

  /** A field and what follows it: the field is read, and the rest is what may follow a field. */
  lemma FieldReads(g: Hextet, rest: string, p: Partial)
    requires |p.bytes| < 16 && (rest == "" || rest[0] == ':')
    ensures ReadFields(HexText(g) + rest, p) == AfterField(rest, p.(bytes := p.bytes + TwoBytes(g)))
  {
    var t := HexText(g);
    HexTextReads(g);
    HexTextShort(g);
    HexRunOf(t, rest);
    assert (t + rest)[..|t|] == t && (t + rest)[|t|..] == rest;
  }

  // ---------- Several fields ----------

  function Flat(gs: seq<Hextet>): (b: seq<Byte>)
    ensures |b| == 2 * |gs|
  {
    if gs == [] then [] else TwoBytes(gs[0]) + Flat(gs[1..])
  }

  lemma FlatCons(g: Hextet, gs: seq<Hextet>)
    ensures Flat([g] + gs) == TwoBytes(g) + Flat(gs)
  {
    assert ([g] + gs)[1..] == gs;
  }

  lemma ColonsCons(g: Hextet, gs: seq<Hextet>)
    ensures Colons([g] + gs) == if gs == [] then HexText(g) else HexText(g) + ":" + Colons(gs)
  {
    MapCons((h: Hextet) => HexText(h), g, gs);
    if gs != [] {
      JoinCons(HexText(g), HexTexts(gs), ":");
    } else {
      assert HexTexts([g] + gs) == [HexText(g)];
    }
  }

  lemma ColonsStart(gs: seq<Hextet>)
    requires gs != []
    ensures Colons(gs) != "" && HexDigit(Colons(gs)[0]).Some?
  {
    var g, more := Uncons(gs);
    ColonsCons(g, more);
    HexTextReads(g);
  }

  lemma NextField(t: string, p: Partial)
    requires t != "" && t[0] != ':'
    ensures AfterField([':'] + t, p) == ReadFields(t, p)
  {
    var s := [':'] + t;
    assert s[1] == t[0] && s[1..] == t;
  }

  /** The fields written with colons are read one after the other. */
  lemma {:induction false} FieldsRead(gs: seq<Hextet>, rest: string, p: Partial)
    requires gs != [] && |p.bytes| + 2 * |gs| <= 16 && (rest == "" || rest[0] == ':')
    ensures ReadFields(Colons(gs) + rest, p) == AfterField(rest, p.(bytes := p.bytes + Flat(gs)))
    decreases |gs|
  {
    var g, more := Uncons(gs);
    FlatCons(g, more);
    ColonsCons(g, more);
    if more == [] {
      assert TwoBytes(g) + [] == TwoBytes(g);
      FieldReads(g, rest, p);
    } else {
      var q := p.(bytes := p.bytes + TwoBytes(g));
      var t := Colons(more) + rest;
      ColonsStart(more);
      assert t[0] == Colons(more)[0];
      FourPieces(HexText(g), Colons(more), rest);
      FieldReads(g, [':'] + t, p);
      NextField(t, q);
      FieldsRead(more, rest, q);
      Regroup(p.bytes, TwoBytes(g), Flat(more));
    }
  }

  lemma FourPieces(a: string, b: string, rest: string)
    ensures a + ":" + b + rest == a + ([':'] + (b + rest))
  {
  }

  // ---------- A whole address ----------

  lemma {:induction false} FlatConcat(a: seq<Hextet>, b: seq<Hextet>)
    ensures Flat(a + b) == Flat(a) + Flat(b)
    decreases |a|
  {
    if a == [] {
      assert a + b == b;
    } else {
      var g, more := Uncons(a);
      Regroup([g], more, b);
      FlatConcat(more, b);
      FlatCons(g, more);
      FlatCons(g, more + b);
      Regroup(TwoBytes(g), Flat(more), Flat(b));
    }
  }

  lemma {:induction false} FlatZeros(gs: seq<Hextet>)
    requires forall i | 0 <= i < |gs| :: gs[i] == 0
    ensures Flat(gs) == Zeros(2 * |gs|)
    decreases |gs|
  {
    if gs != [] {
      var g, more := Uncons(gs);
      assert g == gs[0] && forall i | 0 <= i < |more| :: more[i] == gs[i + 1];
      FlatZeros(more);
      FlatCons(g, more);
      ZerosConcat(2, 2 * |more|);
      assert TwoBytes(0) == Zeros(2);
    }
  }

  lemma ZerosConcat(m: nat, n: nat)
    ensures Zeros(m) + Zeros(n) == Zeros(m + n)
  {
  }

  lemma PairOff(b: seq<Byte>, gs: seq<Hextet>) returns (x: Byte, y: Byte, c: seq<Byte>, g: Hextet, more: seq<Hextet>)
    requires gs != [] && |b| == 2 * |gs|
    requires forall i | 0 <= i < |gs| :: gs[i] == FieldOf(b[2 * i], b[2 * i + 1])
    ensures b == [x, y] + c && gs == [g] + more && g == FieldOf(x, y) && |c| == 2 * |more|
    ensures forall i | 0 <= i < |more| :: more[i] == FieldOf(c[2 * i], c[2 * i + 1])
  {
    x, y, c, g, more := b[0], b[1], b[2..], gs[0], gs[1..];
    assert gs[0] == FieldOf(b[2 * 0], b[2 * 0 + 1]);
    forall i | 0 <= i < |more| ensures more[i] == FieldOf(c[2 * i], c[2 * i + 1]) {
      assert more[i] == gs[i + 1] && c[2 * i] == b[2 * (i + 1)] && c[2 * i + 1] == b[2 * (i + 1) + 1];
    }
  }

  lemma {:induction false} FlatPairs(b: seq<Byte>, gs: seq<Hextet>)
    requires |b| == 2 * |gs| && forall i | 0 <= i < |gs| :: gs[i] == FieldOf(b[2 * i], b[2 * i + 1])
    ensures Flat(gs) == b
    decreases |gs|
  {
    if gs != [] {
      var x, y, c, g, more := PairOff(b, gs);
      FlatPairs(c, more);
      FlatCons(g, more);
      FieldSplits(x, y);
    }
  }

  /** The bytes of the fields of an address are its bytes. */
  lemma FlatHextets(a: Addr)
    requires a.V6?
    ensures Flat(Hextets(a)) == As16(a)
  {
    FlatPairs(As16(a), Hextets(a));
  }

  lemma FieldSplits(high: Byte, low: Byte)
    ensures TwoBytes(FieldOf(high, low)) == [high, low]
  {
  }

  /** Three stretches of fields, the middle one all zero, expand from the outer two. */
  lemma ExpandOuter(a: seq<Hextet>, z: seq<Hextet>, b: seq<Hextet>)
    requires |a| + |z| + |b| == 8 && z != [] && forall i | 0 <= i < |z| :: z[i] == 0
    ensures Expand(Partial(Flat(a) + Flat(b), Some(2 * |a|))) == Some(Flat(a + z + b))
  {
    var bytes := Flat(a) + Flat(b);
    assert bytes[..2 * |a|] == Flat(a) && bytes[2 * |a|..] == Flat(b);
    FlatZeros(z);
    FlatConcat(a, z);
    FlatConcat(a + z, b);
  }

  /** The address with these bytes. */
  lemma ReadsBack(a: Addr)
    requires a.V6? && !a.zoned
    ensures AddrFrom16(Flat(Hextets(a))) == a
  {
    FlatHextets(a);
    AddrRoundTrip(a);
  }

  predicate FieldChars(s: string) {
    forall i | 0 <= i < |s| :: HexDigit(s[i]).Some? || s[i] == ':'
  }

  lemma {:induction false} ColonsChars(gs: seq<Hextet>)
    ensures FieldChars(Colons(gs))
    decreases |gs|
  {
    if gs != [] {
      var g, more := Uncons(gs);
      ColonsChars(more);
      ColonsCons(g, more);
      HexTextReads(g);
    }
  }

  lemma NoPercent(s: string)
    requires FieldChars(s)
    ensures '%' !in s
  {
  }

  lemma NotLeading(s: string)
    requires s != "" && s[0] != ':'
    ensures !("::" <= s)
  {
    assert "::"[0] == ':';
  }

  lemma ParsePlain(s: string)
    requires FieldChars(s) && s != "" && s[0] != ':'
    ensures Parse6(s) == Finished(ReadFields(s, Partial([], None)))
  {
    NoPercent(s);
    NotLeading(s);
  }

  lemma ParseLeading(t: string)
    requires FieldChars(t) && t != ""
    ensures Parse6("::" + t) == Finished(ReadFields(t, Partial([], Some(0))))
  {
    var s := "::" + t;
    assert FieldChars(s);
    NoPercent(s);
    assert s[2..] == t && s != "::";
  }

  /** Fields up to the end of the text. */
  lemma LastFields(gs: seq<Hextet>, p: Partial)
    requires gs != [] && |p.bytes| + 2 * |gs| <= 16
    ensures ReadFields(Colons(gs), p) == Some(Partial(p.bytes + Flat(gs), p.ellipsis))
  {
    FieldsRead(gs, "", p);
    assert Colons(gs) + "" == Colons(gs);
  }

  lemma EightFields(gs: seq<Hextet>)
    requires |gs| == 8
    ensures Parse6(Colons(gs)) == Some(AddrFrom16(Flat(gs)))
  {
    ColonsChars(gs);
    ColonsStart(gs);
    ParsePlain(Colons(gs));
    LastFields(gs, Partial([], None));
    assert [] + Flat(gs) == Flat(gs);
    FinishedAs(Partial(Flat(gs), None), Flat(gs));
  }

  lemma OnlyRun(z: seq<Hextet>)
    requires |z| == 8 && forall i | 0 <= i < |z| :: z[i] == 0
    ensures Parse6("::") == Some(AddrFrom16(Flat(z)))
  {
    ExpandOuter([], z, []);
    assert [] + z + [] == z;
  }

  lemma LeadingFields(b: seq<Hextet>)
    requires 1 <= |b| <= 8
    ensures ReadFields(Colons(b), Partial([], Some(0))) == Some(Partial(Flat(b), Some(0)))
  {
    NoneBefore(Flat(b));
    LastFields(b, Partial([], Some(0)));
  }

  lemma NoneBefore(b: seq<Byte>)
    ensures [] + b == b
  {
  }

  /** A :: at the start stands for zero bytes in front of all others. */
  lemma ExpandFront(b: seq<Byte>)
    requires |b| < 16
    ensures Expand(Partial(b, Some(0))) == Some(Zeros(16 - |b|) + b)
  {
    assert b[..0] == [] && b[0..] == b;
    assert [] + Zeros(16 - |b|) + b == Zeros(16 - |b|) + b;
  }

  lemma ExpandStart(z: seq<Hextet>, b: seq<Hextet>)
    requires |z| + |b| == 8 && z != [] && forall i | 0 <= i < |z| :: z[i] == 0
    ensures Expand(Partial(Flat(b), Some(0))) == Some(Flat(z + b))
  {
    ExpandFront(Flat(b));
    FlatZeros(z);
    FlatConcat(z, b);
  }

  lemma FinishedAs(p: Partial, b: seq<Byte>)
    requires (p.ellipsis.Some? ==> p.ellipsis.value <= |p.bytes|) && Expand(p) == Some(b) && |b| == 16
    ensures Finished(Some(p)) == Some(AddrFrom16(b))
  {
  }

  lemma FinishedAtStart(z: seq<Hextet>, b: seq<Hextet>)
    requires |z| + |b| == 8 && z != [] && forall i | 0 <= i < |z| :: z[i] == 0
    ensures Finished(Some(Partial(Flat(b), Some(0)))) == Some(AddrFrom16(Flat(z + b)))
  {
    ExpandStart(z, b);
    FinishedAs(Partial(Flat(b), Some(0)), Flat(z + b));
  }

  lemma LeadingRun(z: seq<Hextet>, b: seq<Hextet>)
    requires |z| + |b| == 8 && z != [] && b != [] && forall i | 0 <= i < |z| :: z[i] == 0
    ensures Parse6("::" + Colons(b)) == Some(AddrFrom16(Flat(z + b)))
  {
    ColonsChars(b);
    ColonsStart(b);
    ParseLeading(Colons(b));
    LeadingFields(b);
    FinishedAtStart(z, b);
  }

  lemma LaterRun(a: seq<Hextet>, z: seq<Hextet>, b: seq<Hextet>)
    requires |a| + |z| + |b| == 8 && a != [] && z != [] && forall i | 0 <= i < |z| :: z[i] == 0
    ensures Parse6(Colons(a) + "::" + Colons(b)) == Some(AddrFrom16(Flat(a + z + b)))
  {
    var s := Colons(a) + ("::" + Colons(b));
    assert s == Colons(a) + "::" + Colons(b);
    ColonsChars(a);
    ColonsChars(b);
    ColonsStart(a);
    assert FieldChars(s) && s[0] == Colons(a)[0];
    ParsePlain(s);
    FieldsRead(a, "::" + Colons(b), Partial([], None));
    assert [] + Flat(a) == Flat(a);
    AfterRun(Flat(a), b);
    ExpandOuter(a, z, b);
  }

  lemma AfterRun(bytes: seq<Byte>, b: seq<Hextet>)
    requires |bytes| + 2 * |b| <= 14
    ensures AfterField("::" + Colons(b), Partial(bytes, None)) == Some(Partial(bytes + Flat(b), Some(|bytes|)))
  {
    var s := "::" + Colons(b);
    assert s[0] == ':' && s[1] == ':' && s[2..] == Colons(b);
    if b == [] {
      assert bytes + [] == bytes;
    } else {
      ColonsStart(b);
      LastFields(b, Partial(bytes, Some(|bytes|)));
    }
  }

  lemma FromStart(z: seq<Hextet>, b: seq<Hextet>)
    requires |z| + |b| == 8 && z != [] && forall i | 0 <= i < |z| :: z[i] == 0
    ensures Parse6("::" + Colons(b)) == Some(AddrFrom16(Flat(z + b)))
  {
    if b == [] {
      OnlyRun(z);
      assert z + [] == z && "::" + "" == "::";
    } else {
      LeadingRun(z, b);
    }
  }

  lemma CutFields(gs: seq<Hextet>, i: nat, j: nat)
    requires i <= j <= |gs| && forall k | i <= k < j :: gs[k] == 0
    ensures gs == gs[..i] + gs[i..j] + gs[j..]
    ensures forall k | 0 <= k < j - i :: gs[i..j][k] == 0
  {
  }

  lemma RunReads(gs: seq<Hextet>, i: nat, j: nat)
    requires |gs| == 8 && i < j <= 8 && forall k | i <= k < j :: gs[k] == 0
    ensures Parse6(Colons(gs[..i]) + "::" + Colons(gs[j..])) == Some(AddrFrom16(Flat(gs)))
  {
    var x, z, y := gs[..i], gs[i..j], gs[j..];
    CutFields(gs, i, j);
    if i == 0 {
      assert x == [] && gs == z + y && Colons(x) == "";
      assert "" + "::" + Colons(y) == "::" + Colons(y);
      FromStart(z, y);
    } else {
      LaterRun(x, z, y);
    }
  }

  /** What the IPv6 notation writes it reads back, whichever run of zero fields is left out. */
  lemma String6Reads(a: Addr)
    requires a.V6? && !a.zoned
    ensures Parse6(String6(a)) == Some(a)
  {
    var gs := Hextets(a);
    ReadsBack(a);
    match ZeroRun(gs, 8)
    case None => EightFields(gs);
    case Some((i, j)) => RunReads(gs, i, j);
  }

  // ---------- IPv4 ----------

  lemma OctetReads(n: Byte)
    ensures Octet(Itoa(n)) == Some(n) && '.' !in Itoa(n) && '/' !in Itoa(n)
  {
    DecimalIff(Itoa(n), n);
  }

  lemma DottedSplits(a: string, b: string, c: string, d: string)
    requires '.' !in a && '.' !in b && '.' !in c && '.' !in d
    ensures Split(a + "." + b + "." + c + "." + d, '.') == [a, b, c, d]
  {
    SplitNone(a, '.');
    SplitNone(b, '.');
    SplitNone(c, '.');
    SplitNone(d, '.');
    SplitConcat(a, '.', b);
    SplitConcat(a + "." + b, '.', c);
    SplitConcat(a + "." + b + "." + c, '.', d);
  }

  /** The four bytes of a 32-bit word. */
  function FourBytes(n: Word32): (b: seq<Byte>)
    ensures |b| == 4
  {
    [n / 0x100_0000, n / 0x1_0000 % 256, n / 256 % 256, n % 256]
  }

  lemma String4Reads(n: Word32)
    ensures Parse4(String4(n)) == Some(FourBytes(n))
  {
    var b := FourBytes(n);
    OctetReads(b[0]);
    OctetReads(b[1]);
    OctetReads(b[2]);
    OctetReads(b[3]);
    DottedSplits(Itoa(b[0]), Itoa(b[1]), Itoa(b[2]), Itoa(b[3]));
  }

  lemma HighHalf(n: Word32)
    ensures n / 0x1_0000 < 0x1_0000 && n / 0x1_0000 / 256 == n / 0x100_0000
  {
  }

  lemma LowHalf(n: nat)
    ensures n % 0x1_0000 / 256 == n / 256 % 256 && n % 0x1_0000 % 256 == n % 256
  {
  }

  lemma FourBytesSpell(n: Word32)
    ensures var b := FourBytes(n); Dotted(FieldOf(b[0], b[1]), FieldOf(b[2], b[3])) == n
  {
    HighHalf(n);
    LowHalf(n);
    var h, l := n / 0x1_0000, n % 0x1_0000;
    assert h == 256 * (h / 256) + h % 256 && l == 256 * (l / 256) + l % 256;
  }

  // ---------- IPv4-mapped addresses ----------

  lemma FromBytesSnoc(b: seq<Byte>, x: Byte)
    ensures FromBytes(b + [x]) == 256 * FromBytes(b) + x
  {
    var longer := b + [x];
    assert longer[..|longer| - 1] == b;
  }

  lemma {:induction false} FromZeros(n: nat)
    ensures FromBytes(Zeros(n)) == 0
  {
    if n > 0 {
      FromZeros(n - 1);
      assert Zeros(n) == Zeros(n - 1) + [0];
      FromBytesSnoc(Zeros(n - 1), 0);
    }
  }

  lemma AppendFour(p: seq<Byte>, b: seq<Byte>)
    requires |b| == 4
    ensures p + b == p + [b[0]] + [b[1]] + [b[2]] + [b[3]]
  {
  }

  lemma FromTwo(p: seq<Byte>, x: Byte, y: Byte)
    ensures FromBytes(p + [x] + [y]) == 0x1_0000 * FromBytes(p) + FieldOf(x, y)
  {
    FromBytesSnoc(p, x);
    FromBytesSnoc(p + [x], y);
  }

  lemma MappedBytes(n: Word32)
    ensures FromBytes(Zeros(10) + [255, 255] + FourBytes(n)) == 0xffff_0000_0000 + n
  {
    var z, b := Zeros(10), FourBytes(n);
    FromZeros(10);
    assert z + [255, 255] == z + [255] + [255];
    FromTwo(z, 255, 255);
    var p := z + [255] + [255];
    AppendFour(p, b);
    FromTwo(p, b[0], b[1]);
    FromTwo(p + [b[0]] + [b[1]], b[2], b[3]);
    FourBytesSpell(n);
  }

  lemma MappedField()
    ensures HexText(0xffff) == "ffff"
  {
    assert HexText(0xf) == "f" && HexText(0xff) == "f" + "f" && HexText(0xfff) == "ff" + "f";
  }

  lemma DottedStart(n: Word32)
    ensures var s := String4(n);
            && 1 <= HexRun(s) <= 3 && HexRun(s) < |s| && s[HexRun(s)] == '.'
            && s[0] != ':' && forall i | 0 <= i < |s| :: IsDigit(s[i]) || s[i] == '.'
  {
    var b := FourBytes(n);
    var first, more := Itoa(b[0]), "." + Itoa(b[1]) + "." + Itoa(b[2]) + "." + Itoa(b[3]);
    DecimalIff(first, b[0]);
    assert String4(n) == first + more;
    assert forall i | 0 <= i < |first| :: first[i] in first;
    HexRunOf(first, more);
  }

  lemma DottedTail(n: Word32)
    ensures ReadFields("ffff:" + String4(n), Partial([], Some(0)))
         == Some(Partial([255, 255] + FourBytes(n), Some(0)))
  {
    var s := String4(n);
    MappedField();
    DottedStart(n);
    assert "ffff:" + s == HexText(0xffff) + ([':'] + s);
    FieldReads(0xffff, [':'] + s, Partial([], Some(0)));
    assert [] + TwoBytes(0xffff) == [255, 255];
    NextField(s, Partial([255, 255], Some(0)));
    String4Reads(n);
  }

  lemma MappedChars(n: Word32)
    ensures '%' !in "::ffff:" + String4(n) && "::ffff:" + String4(n) != "::"
  {
    DottedStart(n);
    assert forall c | c in String4(n) :: IsDigit(c) || c == '.';
  }

  lemma MappedReads(a: Addr)
    requires a.Is4In6() && !a.zoned
    ensures Parse6(AddrString(a)) == Some(a)
  {
    var n: Word32 := a.v6 % 0x1_0000_0000;
    var s := "::ffff:" + String4(n);
    assert s == "::" + ("ffff:" + String4(n));
    assert s[2..] == "ffff:" + String4(n);
    MappedChars(n);
    DottedTail(n);
    var p := Partial([255, 255] + FourBytes(n), Some(0));
    ExpandFront(p.bytes);
    Regroup(Zeros(10), [255, 255], FourBytes(n));
    MappedBytes(n);
  }

  // ---------- Prefixes ----------

  lemma {:induction false} NotationColon(s: string)
    requires FieldChars(s) && ':' in s
    ensures Notation(s) == ':'
    decreases |s|
  {
    if s[0] != ':' {
      assert HexDigit(s[0]).Some?;
      NotationColon(s[1..]);
    }
  }

  lemma ColonsJoined(gs: seq<Hextet>)
    requires |gs| >= 2
    ensures ':' in Colons(gs)
  {
    var g, more := Uncons(gs);
    ColonsCons(g, more);
    assert Colons(gs)[|HexText(g)|] == ':';
  }

  lemma String6Chars(a: Addr)
    requires a.V6?
    ensures FieldChars(String6(a)) && ':' in String6(a)
  {
    var gs := Hextets(a);
    match ZeroRun(gs, 8)
    case None =>
      ColonsChars(gs);
      ColonsJoined(gs);
    case Some((i, j)) =>
      ColonsChars(gs[..i]);
      ColonsChars(gs[j..]);
      assert String6(a)[|Colons(gs[..i])|] == ':';
  }

  lemma {:induction false} DottedNotation(s: string)
    requires (forall i | 0 <= i < |s| :: IsDigit(s[i]) || s[i] == '.') && '.' in s
    ensures Notation(s) == '.'
    decreases |s|
  {
    if s[0] != '.' {
      assert IsDigit(s[0]);
      DottedNotation(s[1..]);
    }
  }

  /** Every address without a zone is read back from its text, in which no slash stands. */
  lemma AddrReads(a: Addr)
    requires a != NoAddr && !a.HasZone()
    ensures ParseAddr(AddrString(a)) == Some(a) && '/' !in AddrString(a)
  {
    match a
    case V4(n) =>
      DottedStart(n);
      DottedNotation(String4(n));
      String4Reads(n);
      FourBytesSpell(n);
    case V6(v, _) =>
      if a.Is4In6() {
        MappedReads(a);
        DottedStart(v % 0x1_0000_0000);
      } else {
        String6Chars(a);
        NotationColon(String6(a));
        String6Reads(a);
      }
  }

  lemma BitsRead(n: nat)
    ensures ParseBits(Itoa(n)) == Some(n) && '/' !in Itoa(n)
  {
    ItoaReads(n);
    if |Itoa(n)| > 1 && n == 0 {
      assert false;
    }
  }

  lemma ParseParts(s: string, n: string)
    requires '/' !in s && '/' !in n
    ensures var (a, k) := (ParseAddr(s), ParseBits(n));
            ParsePrefix(s + "/" + n)
              == if a.Some? && k.Some? && k.value <= a.value.BitLen() then Some(Prefix(a.value, k.value)) else None
  {
    assert s + "/" + n == s + ['/'] + n;
    SplitCons(s, '/', n);
    SplitNone(n, '/');
    assert [s, n][..1] == [s];
    assert Join([s], "/") == s;
  }

  /** Every valid prefix is read back from its text. */
  lemma PrefixReads(p: Prefix)
    requires p.IsValid()
    ensures ParsePrefix(PrefixString(p)) == Some(p)
  {
    AddrReads(p.addr);
    BitsRead(p.bits);
    ParseParts(AddrString(p.addr), Itoa(p.bits));
  }

  lemma PlainText(s: string, n: string)
    requires FieldChars(s) && AllDigits(n)
    ensures CleanElement(s + "/" + n)
  {
    var t := s + "/" + n;
    forall i | 0 <= i < |t| ensures OctetOk(t[i]) && t[i] !in " \t;," {
      if i < |s| {
        assert HexDigit(s[i]).Some? || s[i] == ':';
      } else if i > |s| {
        assert IsDigit(n[i - |s| - 1]);
      }
    }
  }

  /** The text form that netip gives prefixes meets what the record round trip asks of one. */
  lemma NetipFaithful()
    ensures FaithfulPrefixes(NETIP_TEXT)
  {
    forall p | ValidatePrefix(p)
      ensures NETIP_TEXT.parse(NETIP_TEXT.text(p)) == Some(p) && CleanElement(NETIP_TEXT.text(p))
    {
      PrefixReads(p);
      ValidText(p);
    }
  }

  lemma ValidText(p: Prefix)
    requires ValidatePrefix(p)
    ensures CleanElement(PrefixString(p))
  {
    assert p.Contains(p.addr);
    ValidPrefixHoldsEligible(p, p.addr);
    String6Chars(p.addr);
    ItoaReads(p.bits);
    PlainText(String6(p.addr), Itoa(p.bits));
  }
}
