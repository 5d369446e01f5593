/** The tag-list syntax every SwornMail record shares, the loop that splits it, and the grammar it accepts. */
module Tags {
  import opened Wrappers
  import opened Text

  datatype RecordError =
    | Syntax
    | UnsupportedVersion
    | UnsupportedAlgorithm
    | BadKey
    | BadUnit
    | DuplicateTag
    | BadPrefix
    | BadRua

  type Pair = (string, string)

  /** Printable US-ASCII or a horizontal tab. */
  predicate OctetOk(c: char) { c == '\t' || ' ' <= c <= '~' }

  predicate Octets(s: string) {
    forall i | 0 <= i < |s| :: OctetOk(s[i])
  }

  /** A space or a tab: the only white space the octet rule lets through. */
  predicate IsBlank(c: char) { c == ' ' || c == '\t' }

  predicate AllBlank(s: string) {
    forall i | 0 <= i < |s| :: IsBlank(s[i])
  }

  function Keys(pairs: seq<Pair>): set<string> {
    set kv | kv in pairs :: kv.0
  }

  // ---------- What one pass over the segments computes ----------

  /** The effect of one raw segment on the tags collected so far. */
  function ScanPart(part: string, pairs: seq<Pair>): Result<seq<Pair>, RecordError> {
    var p := Trim(part);
    if p == "" then Ok(pairs) else
    var (name, rest, found) := Cut(p, '=');
    var k, v := Trim(name), Trim(rest);
    if !found || k == "" || (pairs == [] && k != "v") || ' ' in v || '\t' in v then Err(Syntax)
    else if k in Keys(pairs) then Err(DuplicateTag)
    else Ok(pairs + [(k, v)])
  }

  function Scan(parts: seq<string>): Result<seq<Pair>, RecordError> {
    if parts == [] then Ok([]) else
    var before := Scan(parts[..|parts| - 1]);
    if before.Err? then before else ScanPart(parts[|parts| - 1], before.value)
  }

  function TagsOf(txt: string): Result<seq<Pair>, RecordError> {
    if Octets(txt) then Scan(Split(txt, ';')) else Err(Syntax)
  }

  lemma KeysAppend(pairs: seq<Pair>, k: string, v: string)
    ensures Keys(pairs + [(k, v)]) == Keys(pairs) + {k}
  {
    var longer := pairs + [(k, v)];
    assert longer[|pairs|] == (k, v);
    assert forall kv | kv in pairs :: kv in longer;
  }

  method CheckOctets(txt: string) returns (ok: bool)
    ensures ok == Octets(txt)
  {
    for i := 0 to |txt|
      invariant forall j | 0 <= j < i :: OctetOk(txt[j])
    {
      var c := txt[i];
      if c != '\t' && (c < ' ' || c > '~') {
        return false;
      }
    }
    return true;
  }

  method SplitTags(txt: string) returns (r: Result<seq<Pair>, RecordError>)
    ensures r == TagsOf(txt)
  {
    var printable := CheckOctets(txt);
    if !printable {
      return Err(Syntax);
    }
    var parts := Split(txt, ';');
    var pairs: seq<Pair> := [];
    var seen: set<string> := {};
    for i := 0 to |parts|
      invariant Scan(parts[..i]) == Ok(pairs)
      invariant seen == Keys(pairs)
    {
      ScanStep(parts, i, pairs);
      var part := Trim(parts[i]);
      if part == "" {
        continue;
      }
      var (name, rest, found) := Cut(part, '=');
      if !found {
        return Err(Syntax);
      }
      var k, v := Trim(name), Trim(rest);
      if k == "" || (|pairs| == 0 && k != "v") || ' ' in v || '\t' in v {
        return Err(Syntax);
      }
      if k in seen {
        return Err(DuplicateTag);
      }
      KeysAppend(pairs, k, v);
      seen := seen + {k};
      pairs := pairs + [(k, v)];
    }
    assert parts[..|parts|] == parts;
    return Ok(pairs);
  }

  /** One more segment is one more step, and the first bad segment decides the error. */
  lemma ScanStep(parts: seq<string>, i: nat, pairs: seq<Pair>)
    requires i < |parts| && Scan(parts[..i]) == Ok(pairs)
    ensures Scan(parts[..i + 1]) == ScanPart(parts[i], pairs)
    ensures ScanPart(parts[i], pairs).Err? ==> Scan(parts) == ScanPart(parts[i], pairs)
  {
    assert parts[..i + 1][..i] == parts[..i];
    if ScanPart(parts[i], pairs).Err? {
      ScanStops(parts, i + 1);
    }
  }

  lemma {:induction false} ScanStops(parts: seq<string>, n: nat)
    requires n <= |parts| && Scan(parts[..n]).Err?
    ensures Scan(parts) == Scan(parts[..n])
    decreases |parts|
  {
    if n == |parts| {
      assert parts[..n] == parts;
    } else {
      assert parts[..|parts| - 1][..n] == parts[..n];
      ScanStops(parts[..|parts| - 1], n);
    }
  }
}
