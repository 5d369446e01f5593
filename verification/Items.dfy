/** Mode-2 payloads as decoded CBOR items: what the library makes of an item, and the payload map with its keys
    checked. */
module Items {
  import opened Bits
  import opened Wrappers

  type U64 = n: nat | n < 0x1_0000_0000_0000_0000

  // ---------- Decoded items ----------

  /** A decoded CBOR data item; a negative integer is -1 - n. Simple values, floats, arrays and maps are told apart only
      by an identity. */
  datatype Item =
    | UInt(n: U64)
    | NInt(m: U64)
    | TextItem(s: string)
    | BytesItem(b: seq<Byte>)
    | Tagged(number: nat, content: Item)
    | OtherItem(id: nat)

  type Entry = (Item, Item)

  /** What the CBOR library makes of an item of none of the five plain kinds when a destination type asks for it. */
  datatype Library = Library(
    text: nat -> Option<string>,
    bytes: nat -> Option<seq<Byte>>,
    uint64: nat -> Option<U64>,
    uint8: nat -> Option<Byte>)
  {
    function ReadText(i: Item): Option<string> {
      match i
      case TextItem(s) => Some(s)
      case OtherItem(id) => text(id)
      case _ => None
    }

    function ReadBytes(i: Item): Option<seq<Byte>> {
      match i
      case BytesItem(b) => Some(b)
      case OtherItem(id) => bytes(id)
      case _ => None
    }

    function ReadUint64(i: Item): Option<U64> {
      match i
      case UInt(n) => Some(n)
      case OtherItem(id) => uint64(id)
      case _ => None
    }

    function ReadUint8(i: Item): Option<Byte> {
      match i
      case UInt(n) => if n < 256 then Some(n) else None
      case OtherItem(id) => uint8(id)
      case _ => None
    }
  }

  // ---------- The payload map ----------

  const MAX_INT: nat := 0x7fff_ffff_ffff_ffff

  /** The value under an integer key. */
  function Lookup(entries: seq<Entry>, key: nat): Option<Item> {
    if entries == [] then None
    else if entries[0].0.UInt? && entries[0].0.n == key then Some(entries[0].1)
    else Lookup(entries[1..], key)
  }

  /** Every key is an integer the decoder can hold, and no key comes twice. */
  predicate KeysOk(entries: seq<Entry>) {
    && (forall i | 0 <= i < |entries| ::
          (entries[i].0.UInt? && entries[i].0.n <= MAX_INT) || (entries[i].0.NInt? && entries[i].0.m <= MAX_INT))
    && forall i, j | 0 <= i < j < |entries| :: entries[i].0 != entries[j].0
  }

  predicate DuplicateKey(entries: seq<Entry>) {
    exists i, j | 0 <= i < j < |entries| :: entries[i].0 == entries[j].0
  }

  datatype MapError = NotIntegerKeys

  /** The payload map, its unsigned keys only. The library refuses a map with a repeated key before the loop runs. */
  method PayloadKeys(entries: seq<Entry>) returns (r: Result<map<nat, Item>, MapError>)
    ensures r.Ok? <==> KeysOk(entries)
    ensures r.Ok? ==> forall k :: k in r.value <==> Lookup(entries, k).Some?
    ensures r.Ok? ==> forall k | k in r.value :: Lookup(entries, k) == Some(r.value[k])
  {
    if DuplicateKey(entries) {
      return Err(NotIntegerKeys);
    }
    var raw: map<nat, Item> := map[];
    for i := 0 to |entries|
      invariant KeysOk(entries[..i])
      invariant forall k :: k in raw <==> Lookup(entries[..i], k).Some?
      invariant forall k | k in raw :: Lookup(entries[..i], k) == Some(raw[k])
    {
      var (k, v) := entries[i];
      LookupSnoc(entries, i);
      match k {
        case UInt(n) =>
          if n > MAX_INT {
            return Err(NotIntegerKeys);
          }
          if n in raw {
            FreshKey(entries, i);
            return Err(NotIntegerKeys);
          }
          raw := raw[n := v];
        case NInt(m) =>
          if m > MAX_INT {
            return Err(NotIntegerKeys);
          }
        case _ =>
          return Err(NotIntegerKeys);
      }
    }
    assert entries[..|entries|] == entries;
    return Ok(raw);
  }

  /** What a lookup finds once one more entry is there. */
  function LookupAfter(before: Option<Item>, e: Entry, k: nat): Option<Item> {
    if before.Some? then before else if e.0.UInt? && e.0.n == k then Some(e.1) else None
  }

  lemma LookupSnoc(entries: seq<Entry>, i: nat)
    requires i < |entries|
    ensures entries[..i + 1] == entries[..i] + [entries[i]]
    ensures forall k :: Lookup(entries[..i + 1], k) == LookupAfter(Lookup(entries[..i], k), entries[i], k)
  {
    assert entries[..i + 1] == entries[..i] + [entries[i]];
    forall k ensures Lookup(entries[..i] + [entries[i]], k) == LookupAfter(Lookup(entries[..i], k), entries[i], k) {
      LookupAppend(entries[..i], entries[i], k);
    }
  }

  lemma {:induction false} LookupAppend(entries: seq<Entry>, e: Entry, k: nat)
    ensures Lookup(entries + [e], k) == LookupAfter(Lookup(entries, k), e, k)
  {
    if entries != [] {
      LookupAppend(entries[1..], e, k);
      assert (entries + [e])[1..] == entries[1..] + [e];
    } else {
      assert ([] + [e])[1..] == [];
    }
  }

  lemma {:induction false} LookupFinds(entries: seq<Entry>, k: nat)
    ensures Lookup(entries, k).Some? <==> exists i :: 0 <= i < |entries| && entries[i].0.UInt? && entries[i].0.n == k
  {
    if entries != [] {
      LookupFinds(entries[1..], k);
      assert forall i | 1 <= i < |entries| :: entries[i] == entries[1..][i - 1];
    }
  }

  /** Under keys that are all different, an unsigned key finds its own entry. */
  lemma {:induction false} LookupAt(entries: seq<Entry>, i: nat)
    requires i < |entries| && entries[i].0.UInt?
    requires forall j | 0 <= j < i :: entries[j].0 != entries[i].0
    ensures Lookup(entries, entries[i].0.n) == Some(entries[i].1)
    decreases i
  {
    if i > 0 {
      assert entries[0].0 != entries[i].0;
      LookupAt(entries[1..], i - 1);
    }
  }

  /** The loop's own duplicate test can only repeat what the library has refused already. */
  lemma FreshKey(entries: seq<Entry>, i: nat)
    requires i < |entries| && entries[i].0.UInt? && Lookup(entries[..i], entries[i].0.n).Some?
    ensures !KeysOk(entries)
  {
    LookupFinds(entries[..i], entries[i].0.n);
    var j :| 0 <= j < i && entries[..i][j].0.UInt? && entries[..i][j].0.n == entries[i].0.n;
    assert entries[j].0 == entries[i].0;
  }
}
