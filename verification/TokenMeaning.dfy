/** Tokens in raw terms: which headers are accepted, which entries carry which fields, what Sign accepts, and what each
    refusal of a verifier means. */
module TokenMeaning {
  import opened Wrappers
  import opened Bits
  import opened Text
  import opened Names
  import opened NamesMeaning
  import opened Items
  import opened Token

  // ---------- Protected headers ----------

  /** Label 2 is not there, no label is in both buckets, and labels 1, 3 and 4 are not in the unprotected one. */
  predicate BucketsApart(msg: Message) {
    && IntLabel(2) !in msg.protected
    && (forall l | l in msg.unprotected :: l !in msg.protected)
    && IntLabel(1) !in msg.unprotected && IntLabel(3) !in msg.unprotected && IntLabel(4) !in msg.unprotected
  }

  /** Label 1 holds the integer -8 or -19. */
  predicate AlgorithmFits(h: Headers) {
    IntLabel(1) in h && (h[IntLabel(1)] == NInt(8 - 1) || h[IntLabel(1)] == NInt(19 - 1))
  }

  /** Label 3 holds the text application/sworn-token+cbor. */
  predicate ContentFits(h: Headers) {
    IntLabel(3) in h && h[IntLabel(3)] == TextItem("application/sworn-token+cbor")
  }

  /** Bytes of one label: 1 to 63 letters, digits and hyphens, no hyphen at either end. */
  predicate SelectorBytes(b: seq<Byte>) {
    && 1 <= |b| <= 63
    && (forall i | 0 <= i < |b| :: 65 <= b[i] <= 90 || 97 <= b[i] <= 122 || 48 <= b[i] <= 57 || b[i] == 45)
    && b[0] != 45 && b[|b| - 1] != 45
  }

  predicate KeyIdFits(h: Headers) {
    IntLabel(4) in h && h[IntLabel(4)].BytesItem? && SelectorBytes(h[IntLabel(4)].b)
  }

  /** A text with the characters of the bytes, capital letters lowered. */
  predicate LoweredBytes(b: seq<Byte>, s: string) {
    && |s| == |b|
    && forall i | 0 <= i < |b| :: s[i] as int == if 65 <= b[i] <= 90 then b[i] + 32 else b[i]
  }

  predicate HeadersFit(msg: Message) {
    && BucketsApart(msg) && AlgorithmFits(msg.protected) && ContentFits(msg.protected) && KeyIdFits(msg.protected)
  }

  lemma SelectorBytesIff(b: seq<Byte>)
    ensures ValidSelector(Chars(b)) <==> SelectorBytes(b)
  {
    LabelIff(Chars(b));
    var s := Chars(b);
    forall i | 0 <= i < |b|
      ensures ('A' <= s[i] <= 'Z' || 'a' <= s[i] <= 'z' || '0' <= s[i] <= '9' || s[i] == '-')
         <==> (65 <= b[i] <= 90 || 97 <= b[i] <= 122 || 48 <= b[i] <= 57 || b[i] == 45)
    {
    }
  }

  lemma LoweredIff(b: seq<Byte>, s: string)
    ensures ToLower(Chars(b)) == s <==> LoweredBytes(b, s)
  {
    var t := ToLower(Chars(b));
    forall i | 0 <= i < |b| ensures t[i] as int == if 65 <= b[i] <= 90 then b[i] + 32 else b[i] {
      LowerLetters(Chars(b), i);
    }
    if LoweredBytes(b, s) {
      assert forall i | 0 <= i < |b| :: s[i] as int == t[i] as int;
      assert s == t;
    }
  }

  /** The headers of a message are accepted, with selector s, exactly when all of that holds and s is its lowered label
      4. */
  lemma HeadersIff(msg: Message, s: string)
    ensures SelectorOf(msg) == Ok(s) <==> HeadersFit(msg) && LoweredBytes(msg.protected[IntLabel(4)].b, s)
  {
    if IntLabel(4) in msg.protected && msg.protected[IntLabel(4)].BytesItem? {
      SelectorBytesIff(msg.protected[IntLabel(4)].b);
      LoweredIff(msg.protected[IntLabel(4)].b, s);
    }
  }

  /** The fault a message's headers are refused with. */
  lemma HeaderFaultIs(msg: Message)
    ensures SelectorOf(msg).Ok? <==> HeadersFit(msg)
    ensures SelectorOf(msg).Err? ==>
              SelectorOf(msg).error == if !BucketsApart(msg) || !AlgorithmFits(msg.protected) then HeaderConfusion
                                       else if !ContentFits(msg.protected) then WrongContentType
                                       else NoSelector
  {
    if IntLabel(4) in msg.protected && msg.protected[IntLabel(4)].BytesItem? {
      SelectorBytesIff(msg.protected[IntLabel(4)].b);
    }
  }

  // ---------- Payload entries ----------

  /** An item reads under a type only when it is of that type, or one of those about which the library decides; a tagged
      item never reads, and an integer reads as an octet only below 256. */
  lemma ItemReads(lib: Library, i: Item)
    requires !i.OtherItem?
    ensures lib.ReadText(i).Some? <==> i.TextItem?
    ensures lib.ReadBytes(i).Some? <==> i.BytesItem?
    ensures lib.ReadUint64(i).Some? <==> i.UInt?
    ensures lib.ReadUint8(i).Some? <==> i.UInt? && i.n < 256
    ensures i.TextItem? ==> lib.ReadText(i) == Some(i.s)
    ensures i.BytesItem? ==> lib.ReadBytes(i) == Some(i.b)
    ensures i.UInt? ==> lib.ReadUint64(i) == Some(i.n)
    ensures i.UInt? && i.n < 256 ==> lib.ReadUint8(i) == Some(i.n)
  {
  }

  /** All keys are integers of 64 signed bits, and no two are equal. */
  predicate IntegerKeys(entries: seq<Entry>) {
    && (forall i | 0 <= i < |entries| ::
          (entries[i].0.UInt? && entries[i].0.n < 0x8000_0000_0000_0000)
          || (entries[i].0.NInt? && entries[i].0.m < 0x8000_0000_0000_0000))
    && forall i, j | 0 <= i < |entries| && 0 <= j < |entries| && i != j :: entries[i].0 != entries[j].0
  }

  /** Some entry under the integer key reads as the value. */
  ghost predicate Under<T(!new)>(entries: seq<Entry>, key: U64, read: Item -> Option<T>, value: T) {
    exists i :: (UInt(key), i) in entries && read(i) == Some(value)
  }

  ghost predicate NotUnder(entries: seq<Entry>, key: U64) {
    forall i :: (UInt(key), i) !in entries
  }

  /** The operator is under key 1, the prefix under 2, the unit under 3 or absent and then 64, the times under 4 and 5
      and the role under 6. */
  ghost predicate Says(lib: Library, entries: seq<Entry>, f: Fields) {
    && IntegerKeys(entries)
    && Under(entries, 1, lib.ReadText, f.operator)
    && Under(entries, 2, lib.ReadBytes, f.prefix)
    && (Under(entries, 3, lib.ReadUint8, f.unit) || (NotUnder(entries, 3) && f.unit == 64))
    && Under(entries, 4, lib.ReadUint64, f.iat)
    && Under(entries, 5, lib.ReadUint64, f.exp)
    && Under(entries, 6, lib.ReadText, f.role)
    && DomainText(f.operator)
  }

  lemma LookupIs(entries: seq<Entry>, key: U64, i: Item)
    requires IntegerKeys(entries)
    ensures Lookup(entries, key) == Some(i) <==> (UInt(key), i) in entries
  {
    if (UInt(key), i) in entries {
      var k :| 0 <= k < |entries| && entries[k] == (UInt(key), i);
      LookupAt(entries, k);
    }
    if Lookup(entries, key).Some? {
      LookupFinds(entries, key);
      var k :| 0 <= k < |entries| && entries[k].0.UInt? && entries[k].0.n == key;
      LookupAt(entries, k);
      assert entries[k] == (UInt(key), entries[k].1);
    }
  }

  lemma UnderIff<T(!new)>(entries: seq<Entry>, key: U64, read: Item -> Option<T>, value: T)
    requires IntegerKeys(entries)
    ensures Under(entries, key, read, value) <==> ReadItem(read, Lookup(entries, key)) == Some(value)
  {
    forall i ensures Lookup(entries, key) == Some(i) <==> (UInt(key), i) in entries {
      LookupIs(entries, key, i);
    }
  }

  lemma NotUnderIff(entries: seq<Entry>, key: U64)
    requires IntegerKeys(entries)
    ensures NotUnder(entries, key) <==> Lookup(entries, key).None?
  {
    forall i ensures Lookup(entries, key) == Some(i) <==> (UInt(key), i) in entries {
      LookupIs(entries, key, i);
    }
  }

  /** What a payload map carries, entry by entry. */
  lemma CarriesIff(lib: Library, entries: seq<Entry>, f: Fields)
    ensures Carries(lib, entries, f) <==> Says(lib, entries, f)
  {
    assert KeysOk(entries) <==> IntegerKeys(entries);
    DomainIff(f.operator);
    if IntegerKeys(entries) {
      UnderIff(entries, 1, lib.ReadText, f.operator);
      UnderIff(entries, 2, lib.ReadBytes, f.prefix);
      UnderIff(entries, 3, lib.ReadUint8, f.unit);
      NotUnderIff(entries, 3);
      UnderIff(entries, 4, lib.ReadUint64, f.iat);
      UnderIff(entries, 5, lib.ReadUint64, f.exp);
      UnderIff(entries, 6, lib.ReadText, f.role);
    }
  }
}
