/** Keys as text: standard base64 with padding (section 4 of RFC 4648), decoded strictly (section 3.5), so that a key
    has one spelling. */
module Base64 {
  import opened Wrappers
  import opened Bits
  import opened Tags
  import opened TagGrammar
  import opened Record
  import opened RecordMeaning
  import opened RoundTrip

  type Sextet = n: nat | n < 64

  /** The alphabet: upper-case letters, lower-case letters, decimal digits, plus and slash. */
  function Digit(n: Sextet): char {
    if n < 26 then ('A' as int + n) as char
    else if n < 52 then ('a' as int + n - 26) as char
    else if n < 62 then ('0' as int + n - 52) as char
    else if n == 62 then '+'
    else '/'
  }

  function DigitOf(c: char): Option<Sextet> {
    if 'A' <= c <= 'Z' then Some(c as int - 'A' as int)
    else if 'a' <= c <= 'z' then Some(c as int - 'a' as int + 26)
    else if '0' <= c <= '9' then Some(c as int - '0' as int + 52)
    else if c == '+' then Some(62)
    else if c == '/' then Some(63)
    else None
  }

  // ---------- Three bytes as four digits ----------

  function First(a: Byte): Sextet { a / 4 }

  function Second(a: Byte, b: Byte): Sextet {
    var x: nat, y: nat := a % 4, b / 16;
    16 * x + y
  }

  function Third(b: Byte, c: Byte): Sextet {
    var x: nat, y: nat := b % 16, c / 64;
    4 * x + y
  }

  function Fourth(c: Byte): Sextet { c % 64 }

  function High(p: Sextet, q: Sextet): Byte {
    var x: nat, y: nat := p, q / 16;
    4 * x + y
  }

  function Middle(q: Sextet, r: Sextet): Byte {
    var x: nat, y: nat := q % 16, r / 4;
    16 * x + y
  }

  function Low(r: Sextet, s: Sextet): Byte {
    var x: nat, y: nat := r % 4, s;
    64 * x + y
  }

  function Encode(b: Bytes): string {
    if b == [] then ""
    else if |b| == 1 then [Digit(First(b[0])), Digit(Second(b[0], 0)), '=', '=']
    else if |b| == 2 then [Digit(First(b[0])), Digit(Second(b[0], b[1])), Digit(Third(b[1], 0)), '=']
    else [Digit(First(b[0])), Digit(Second(b[0], b[1])), Digit(Third(b[1], b[2])), Digit(Fourth(b[2]))] + Encode(b[3..])
  }

  /** One block of four characters; the unused bits of a padded one must be zero. */
  function DecodeBlock(p: char, q: char, r: char, s: char): Option<Bytes> {
    match (DigitOf(p), DigitOf(q))
    case (Some(w), Some(x)) =>
      if r == '=' then (if s == '=' && x % 16 == 0 then Some([High(w, x)]) else None) else
      (match DigitOf(r)
       case None => None
       case Some(y) =>
         if s == '=' then (if y % 4 == 0 then Some([High(w, x), Middle(x, y)]) else None) else
         match DigitOf(s)
         case None => None
         case Some(z) => Some([High(w, x), Middle(x, y), Low(y, z)]))
    case _ => None
  }

  /** Blocks to the end, only the last of which may be padded. */
  function DecodeBlocks(t: string): Option<Bytes> {
    if t == "" then Some([]) else
    if |t| < 4 then None else
    match DecodeBlock(t[0], t[1], t[2], t[3])
    case None => None
    case Some(b) =>
      if |b| < 3 then (if |t| == 4 then Some(b) else None) else
      match DecodeBlocks(t[4..])
      case None => None
      case Some(more) => Some(b + more)
  }

  function WithoutBreaks(t: string): string {
    if t == "" then ""
    else (if t[0] == '\r' || t[0] == '\n' then "" else [t[0]]) + WithoutBreaks(t[1..])
  }

  /** Line breaks are skipped wherever they stand. */
  function Decode(t: string): Option<Bytes> {
    DecodeBlocks(WithoutBreaks(t))
  }

  // ---------- Encoding and decoding are inverse ----------

  lemma DigitIff(c: char, n: Sextet)
    ensures DigitOf(c) == Some(n) <==> c == Digit(n)
    ensures Digit(n) != '=' && OctetOk(Digit(n)) && Digit(n) !in "; \t"
  {
  }

  lemma SplitBytes(a: Byte, b: Byte, c: Byte)
    ensures High(First(a), Second(a, b)) == a
    ensures Middle(Second(a, b), Third(b, c)) == b
    ensures Low(Third(b, c), Fourth(c)) == c
    ensures Second(a, 0) % 16 == 0 && Third(b, 0) % 4 == 0
  {
  }

  lemma JoinSextets(w: Sextet, x: Sextet, y: Sextet, z: Sextet)
    ensures First(High(w, x)) == w
    ensures Second(High(w, x), Middle(x, y)) == x
    ensures Third(Middle(x, y), Low(y, z)) == y
    ensures Fourth(Low(y, z)) == z
    ensures x % 16 == 0 ==> Second(High(w, x), 0) == x
    ensures y % 4 == 0 ==> Third(Middle(x, y), 0) == y
  {
  }

  lemma EncodeFull(a: Byte, b: Byte, c: Byte, more: Bytes)
    ensures Encode([a, b, c] + more)
         == [Digit(First(a)), Digit(Second(a, b)), Digit(Third(b, c)), Digit(Fourth(c))] + Encode(more)
  {
    assert ([a, b, c] + more)[3..] == more;
  }

  lemma DecodeFull(p: char, q: char, r: char, s: char, t: string)
    ensures DecodeBlocks([p, q, r, s] + t)
         == match DecodeBlock(p, q, r, s)
            case None => None
            case Some(b) =>
              if |b| < 3 then (if t == "" then Some(b) else None) else
              match DecodeBlocks(t)
              case None => None
              case Some(more) => Some(b + more)
  {
    assert ([p, q, r, s] + t)[4..] == t;
  }

  lemma BlockOfThree(a: Byte, b: Byte, c: Byte)
    ensures DecodeBlock(Digit(First(a)), Digit(Second(a, b)), Digit(Third(b, c)), Digit(Fourth(c))) == Some([a, b, c])
    ensures DecodeBlock(Digit(First(a)), Digit(Second(a, b)), Digit(Third(b, 0)), '=') == Some([a, b])
    ensures DecodeBlock(Digit(First(a)), Digit(Second(a, 0)), '=', '=') == Some([a])
  {
    SplitBytes(a, b, c);
    SplitBytes(a, b, 0);
    SplitBytes(a, 0, 0);
    DigitIff(Digit(First(a)), First(a));
    DigitIff(Digit(Second(a, b)), Second(a, b));
    DigitIff(Digit(Second(a, 0)), Second(a, 0));
    DigitIff(Digit(Third(b, c)), Third(b, c));
    DigitIff(Digit(Third(b, 0)), Third(b, 0));
    DigitIff(Digit(Fourth(c)), Fourth(c));
  }

  lemma TakeThree(b: Bytes) returns (x: Byte, y: Byte, z: Byte, more: Bytes)
    requires |b| >= 3
    ensures b == [x, y, z] + more
  {
    x, y, z, more := b[0], b[1], b[2], b[3..];
  }

  lemma {:induction false} EncodedDecodes(b: Bytes)
    ensures DecodeBlocks(Encode(b)) == Some(b)
    decreases |b|
  {
    if |b| == 1 {
      BlockOfThree(b[0], 0, 0);
      assert b == [b[0]];
    } else if |b| == 2 {
      BlockOfThree(b[0], b[1], 0);
      assert b == [b[0], b[1]];
    } else if |b| >= 3 {
      var x, y, z, more := TakeThree(b);
      EncodedDecodes(more);
      EncodeFull(x, y, z, more);
      BlockOfThree(x, y, z);
      DecodeFull(Digit(First(x)), Digit(Second(x, y)), Digit(Third(y, z)), Digit(Fourth(z)), Encode(more));
    }
  }

  /** A block that decodes is the encoding of what it decodes to. */
  lemma BlockIsEncoded(p: char, q: char, r: char, s: char)
    requires DecodeBlock(p, q, r, s).Some?
    ensures var b := DecodeBlock(p, q, r, s).value; 1 <= |b| <= 3 && Encode(b) == [p, q, r, s]
  {
    var w, x := DigitOf(p).value, DigitOf(q).value;
    DigitIff(p, w);
    DigitIff(q, x);
    if r == '=' {
      JoinSextets(w, x, 0, 0);
    } else {
      var y := DigitOf(r).value;
      DigitIff(r, y);
      if s == '=' {
        JoinSextets(w, x, y, 0);
      } else {
        var z := DigitOf(s).value;
        DigitIff(s, z);
        JoinSextets(w, x, y, z);
        EncodeFull(High(w, x), Middle(x, y), Low(y, z), []);
        assert [High(w, x), Middle(x, y), Low(y, z)] + [] == [High(w, x), Middle(x, y), Low(y, z)];
      }
    }
  }

  lemma TakeFour(t: string) returns (p: char, q: char, r: char, s: char, more: string)
    requires |t| >= 4
    ensures t == [p, q, r, s] + more
  {
    p, q, r, s, more := t[0], t[1], t[2], t[3], t[4..];
  }

  lemma EncodeAfter(b: Bytes, more: Bytes)
    requires |b| == 3
    ensures Encode(b + more) == Encode(b) + Encode(more)
  {
    EncodeFull(b[0], b[1], b[2], more);
    EncodeFull(b[0], b[1], b[2], []);
    assert b == [b[0], b[1], b[2]] && b + [] == b;
    assert Encode(b) + "" == Encode(b);
  }

  lemma {:induction false} DecodedIsEncoded(t: string)
    requires DecodeBlocks(t).Some?
    ensures Encode(DecodeBlocks(t).value) == t
    decreases |t|
  {
    if t != "" {
      var p, q, r, s, more := TakeFour(t);
      DecodeFull(p, q, r, s, more);
      BlockIsEncoded(p, q, r, s);
      var b := DecodeBlock(p, q, r, s).value;
      if |b| == 3 {
        DecodedIsEncoded(more);
        EncodeAfter(b, DecodeBlocks(more).value);
      } else {
        assert [p, q, r, s] + "" == [p, q, r, s];
      }
    }
  }

  /** Strict decoding gives each key one spelling: blocks decode to b exactly when they are its encoding. */
  lemma DecodeIff(t: string, b: Bytes)
    ensures DecodeBlocks(t) == Some(b) <==> t == Encode(b)
  {
    EncodedDecodes(b);
    if DecodeBlocks(t).Some? {
      DecodedIsEncoded(t);
    }
  }

  // ---------- In a record ----------

  lemma {:induction false} EncodedClean(b: Bytes)
    ensures CleanValue(Encode(b))
    decreases |b|
  {
    if |b| == 1 {
      DigitIff(' ', First(b[0]));
      DigitIff(' ', Second(b[0], 0));
    } else if |b| == 2 {
      DigitIff(' ', First(b[0]));
      DigitIff(' ', Second(b[0], b[1]));
      DigitIff(' ', Third(b[1], 0));
    } else if |b| >= 3 {
      var x, y, z, more := TakeThree(b);
      EncodeFull(x, y, z, more);
      DigitIff(' ', First(x));
      DigitIff(' ', Second(x, y));
      DigitIff(' ', Third(y, z));
      DigitIff(' ', Fourth(z));
      EncodedClean(more);
    }
  }

  lemma {:induction false} NoBreaks(t: string)
    requires Octets(t)
    ensures WithoutBreaks(t) == t
    decreases |t|
  {
    if t != "" {
      assert OctetOk(t[0]);
      NoBreaks(t[1..]);
    }
  }

  /** The text form of keys that the library provides. */
  function Base64Text(isPoint: Bytes -> bool): KeyText {
    KeyText(b => Encode(b), t => Decode(t), isPoint)
  }

  /** It meets what the record round trip asks of one. */
  lemma Base64Faithful(isPoint: Bytes -> bool)
    ensures FaithfulKeys(Base64Text(isPoint))
  {
    var codec := Base64Text(isPoint);
    forall k | |k| == PUBLIC_KEY_SIZE
      ensures codec.decode(codec.text(k)) == Some(k) && CleanValue(codec.text(k))
    {
      EncodedClean(k);
      NoBreaks(Encode(k));
      DecodeIff(Encode(k), k);
    }
  }

  lemma ValueIsClean(txt: string, k: string)
    requires TagsOf(txt).Ok? && Value(TagsOf(txt).value, k).Some?
    ensures CleanValue(Value(TagsOf(txt).value, k).value)
  {
    var segs := AcceptedIsRendering(txt);
    TagsInClean(segs);
    ValueIffKey(TagsIn(segs), k);
  }

  /** In a key record that is accepted the key is spelled in the one way the encoder spells it. */
  lemma KeySpelledOnce(isPoint: Bytes -> bool, txt: string, k: Bytes)
    requires ParseKey(Base64Text(isPoint), txt) == Ok(k)
    ensures TagsOf(txt).Ok? && Value(TagsOf(txt).value, "pk") == Some(Encode(k))
  {
    var tags := TagsOf(txt).value;
    var v := Value(tags, "pk").value;
    ValueIsClean(txt, "pk");
    NoBreaks(v);
    DecodeIff(v, k);
  }
}
