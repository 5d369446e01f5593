/** The Authentication-Results value a discovery outcome is reported as. */
module AuthResults {
  import opened Text
  import opened Record
  import opened Walk
  import opened Authserv
  import opened AuthservGrammar

  const METHOD_LABEL := "; sworn="

  const WOULD_BE := " policy.testing=y policy.wouldbe=pass"
  const TESTING_WORDS := "none" + WOULD_BE

  function Detail(codec: PrefixText, f: Finding): string {
    " policy.mode=" + f.mode + " policy.op=" + f.operator
    + " policy.unit=\"" + codec.text(f.unit) + "\"" + " policy.observed=\"" + codec.text(f.observedUnit) + "\""
  }

  /** The result word, which decides whether reputation is staked. */
  function Status(v: Verdict): string {
    match v
    case Confirmed(f) => if f.testing then "none" else "pass"
    case TempError => "temperror"
    case Nobody => "none"
  }

  /** Everything after the result word. */
  function Remark(codec: PrefixText, v: Verdict): string {
    match v
    case Confirmed(f) => (if f.testing then WOULD_BE else "") + Detail(codec, f)
    case TempError => ""
    case Nobody => ""
  }

  function ResultText(codec: PrefixText, id: string, v: Verdict): string {
    id + METHOD_LABEL + Status(v) + Remark(codec, v)
  }

  method FormatResult(codec: PrefixText, id: string, v: Verdict) returns (text: string)
    ensures text == ResultText(codec, id, v)
  {
    var b := id;
    b := b + METHOD_LABEL;
    if v.Confirmed? && v.finding.testing {
      b := b + TESTING_WORDS;
    } else if v.Confirmed? {
      b := b + "pass";
    } else if v.TempError? {
      b := b + "temperror";
      assert b == ResultText(codec, id, v);
      return b;
    } else {
      b := b + "none";
      assert b == ResultText(codec, id, v);
      return b;
    }
    SplitStatus(id + METHOD_LABEL, codec, v);
    return b + Detail(codec, v.finding);
  }

  lemma WordBeforeDetail(h: string, w: string, p: string, d: string)
    ensures h + w + (p + d) == h + (w + p) + d
  {
  }

  lemma SplitStatus(head: string, codec: PrefixText, v: Verdict)
    requires v.Confirmed?
    ensures head + Status(v) + Remark(codec, v)
         == head + (if v.finding.testing then TESTING_WORDS else "pass")
            + Detail(codec, v.finding)
  {
    WordBeforeDetail(head, Status(v), if v.finding.testing then WOULD_BE else "",
             Detail(codec, v.finding));
  }

  lemma LetterIsToken(c: char)
    requires 'a' <= c <= 'z'
    ensures IsTokenByte(c)
  {
  }

  predicate Letters(s: string) {
    forall i | 0 <= i < |s| :: 'a' <= s[i] <= 'z'
  }

  lemma StatusIsToken(v: Verdict)
    ensures Status(v) != "" && AllToken(Status(v))
  {
    assert Letters("none") && Letters("pass") && Letters("temperror");
    forall i | 0 <= i < |Status(v)| ensures IsTokenByte(Status(v)[i]) {
      LetterIsToken(Status(v)[i]);
    }
  }

  lemma RemarkStart(codec: PrefixText, v: Verdict)
    ensures Remark(codec, v) == "" || Remark(codec, v)[0] == ' '
  {
  }

  /** Reading the word after "sworn=" recovers the status, and it is "pass" only for a confirmation by an operator who
      is not testing. */
  lemma StatusReads(codec: PrefixText, id: string, v: Verdict)
    ensures var text := ResultText(codec, id, v);
            && id + METHOD_LABEL <= text
            && TokenRun(text[|id + METHOD_LABEL|..]) == Status(v)
            && (TokenRun(text[|id + METHOD_LABEL|..]) == "pass" <==> v.Confirmed? && !v.finding.testing)
  {
    StatusIsToken(v);
    RemarkStart(codec, v);
    TokenRunReads(Status(v), Remark(codec, v));
    var head := id + METHOD_LABEL;
    assert ResultText(codec, id, v) == head + (Status(v) + Remark(codec, v));
  }

  lemma IdBeforeRest(a: string, b: string, c: string, d: string)
    ensures a + b + c + d == a + (b + c + d)
  {
  }

  lemma StartsLabel(word: string, more: string)
    ensures METHOD_LABEL + word + more != "" && (METHOD_LABEL + word + more)[0] == ';'
  {
    assert METHOD_LABEL[0] == ';';
  }

  /** Our own result, under an id that is a token and not a lone dot, is claimed by every reader, so a copy of it
      arriving from outside is always removed. */
  lemma OwnResultClaimed(codec: PrefixText, id: string, v: Verdict)
    requires AllToken(id) && TrimDot(id) != ""
    ensures Claims(ResultText(codec, id, v), id)
  {
    var rest := METHOD_LABEL + Status(v) + Remark(codec, v);
    IdBeforeRest(id, METHOD_LABEL, Status(v), Remark(codec, v));
    StartsLabel(Status(v), Remark(codec, v));
    PlainValueClaims(id, rest, id);
  }
}
