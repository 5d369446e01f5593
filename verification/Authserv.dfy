/** The readings of an authserv-id: the strict one of section 2.2 of RFC 8601 and the loose ones other parsers use. */
module Authserv {
  import opened Wrappers
  import opened Text

  // ---------- Bytes ----------

  const TSPECIALS := "()<>@,;:\\\"/[]?="

  /** A byte of a token, as in section 5.1 of RFC 2045. */
  predicate IsTokenByte(c: char) {
    ' ' < c < (0x7f as char) && c !in TSPECIALS
  }

  predicate IsWsp(c: char) { c == ' ' || c == '\t' || c == '\r' || c == '\n' }

  /** What ends a bare id in the strict reading. */
  predicate EndsId(c: char) { IsWsp(c) || c == '(' || c == ';' }

  /** Equal but for letter case and one trailing dot, and not empty. */
  predicate SameId(got: string, id: string) {
    TrimDot(got) != "" && EqualFold(TrimDot(got), TrimDot(id))
  }

  // ---------- Skipping white space and comments ----------

  /** What is left of s after comments and white space, read inside depth open comments. */
  function Skip(s: string, depth: nat): string
    decreases |s|
  {
    if s == "" then ""
    else if depth > 0 && s[0] == '\\' then (if |s| == 1 then "" else Skip(s[2..], depth))
    else if s[0] == '(' then Skip(s[1..], depth + 1)
    else if depth > 0 && s[0] == ')' then Skip(s[1..], depth - 1)
    else if depth == 0 && !IsWsp(s[0]) then s
    else Skip(s[1..], depth)
  }

  method SkipCfws(value: string) returns (rest: string)
    ensures rest == Skip(value, 0)
  {
    var depth := 0;
    var i := 0;
    assert value[0..] == value;
    while i < |value|
      invariant 0 <= i <= |value| && depth >= 0
      invariant Skip(value[i..], depth) == Skip(value, 0)
    {
      var c := value[i];
      var tail := value[i..];
      assert tail[1..] == value[i + 1..];
      if depth > 0 && c == '\\' {
        if i + 1 < |value| {
          assert tail[2..] == value[i + 2..];
        } else {
          return "";
        }
        i := i + 1;
      } else if c == '(' {
        depth := depth + 1;
      } else if depth > 0 && c == ')' {
        depth := depth - 1;
      } else if depth == 0 && !IsWsp(c) {
        return tail;
      }
      i := i + 1;
    }
    return "";
  }

  // ---------- The strict reading ----------

  /** The longest prefix without a character that ends a bare id. */
  function BareId(s: string): string {
    if s == "" || EndsId(s[0]) then "" else [s[0]] + BareId(s[1..])
  }

  /** The content of a quoted string, read after its opening quote; None when it never closes. */
  function Unquote(s: string): Option<string>
    decreases |s|
  {
    if s == "" then None
    else if s[0] == '\\' then
      if |s| == 1 then None else Prepend(s[1], Unquote(s[2..]))
    else if s[0] == '\"' then Some("")
    else Prepend(s[0], Unquote(s[1..]))
  }

  function Prepend(c: char, r: Option<string>): Option<string> {
    if r.Some? then Some([c] + r.value) else None
  }

  function StrictId(value: string): string {
    var s := Skip(value, 0);
    if s == "" || s[0] != '\"' then BareId(s)
    else
      match Unquote(s[1..])
      case Some(id) => id
      case None => ""
  }

  /** What a quoted string yields once some of its content has been read: that, and what the rest unquotes to. */
  function Continued(built: string, rest: string): Option<string> {
    match Unquote(rest)
    case None => None
    case Some(more) => Some(built + more)
  }

  lemma ContinuedPlain(built: string, s: string, i: nat)
    requires i < |s| && s[i] != '\\' && s[i] != '\"'
    ensures Continued(built, s[i..]) == Continued(built + [s[i]], s[i + 1..])
  {
    assert s[i..][1..] == s[i + 1..];
    if Unquote(s[i + 1..]).Some? {
      Regroup(built, [s[i]], Unquote(s[i + 1..]).value);
    }
  }

  lemma ContinuedEscape(built: string, s: string, i: nat)
    requires i + 1 < |s| && s[i] == '\\'
    ensures Continued(built, s[i..]) == Continued(built + [s[i + 1]], s[i + 2..])
  {
    assert s[i..][2..] == s[i + 2..];
    if Unquote(s[i + 2..]).Some? {
      Regroup(built, [s[i + 1]], Unquote(s[i + 2..]).value);
    }
  }

  lemma ContinuedEnd(built: string, s: string, i: nat)
    requires i <= |s|
    ensures i == |s| || (i + 1 == |s| && s[i] == '\\') ==> Continued(built, s[i..]) == None
    ensures i < |s| && s[i] == '\"' ==> Continued(built, s[i..]) == Some(built)
  {
    var t := s[i..];
    assert t != "" ==> t[0] == s[i];
    assert built + "" == built;
  }

  lemma ContinuedStart(s: string)
    ensures Continued("", s) == Unquote(s)
  {
    if Unquote(s).Some? {
      assert "" + Unquote(s).value == Unquote(s).value;
    }
  }

  method ReadQuoted(s: string) returns (id: string)
    requires s != "" && s[0] == '\"'
    ensures id == if Unquote(s[1..]).Some? then Unquote(s[1..]).value else ""
  {
    var built := "";
    var i := 1;
    ContinuedStart(s[1..]);
    while i < |s|
      invariant 1 <= i <= |s|
      invariant Continued(built, s[i..]) == Unquote(s[1..])
    {
      var c := s[i];
      ContinuedEnd(built, s, i);
      if c == '\\' {
        if i + 1 == |s| {
          return "";
        }
        ContinuedEscape(built, s, i);
        i := i + 1;
        built := built + [s[i]];
      } else if c == '\"' {
        return built;
      } else {
        ContinuedPlain(built, s, i);
        built := built + [c];
      }
      i := i + 1;
    }
    ContinuedEnd(built, s, i);
    return "";
  }

  lemma BareStep(s: string, end: nat)
    requires end < |s| && !EndsId(s[end])
    ensures s[..end] + BareId(s[end..]) == s[..end + 1] + BareId(s[end + 1..])
  {
    assert s[end..][1..] == s[end + 1..];
    assert s[..end + 1] == s[..end] + [s[end]];
    Regroup(s[..end], [s[end]], BareId(s[end + 1..]));
  }

  method ReadBare(s: string) returns (id: string)
    ensures id == BareId(s)
  {
    var end := 0;
    assert s[0..] == s;
    while end < |s| && !EndsId(s[end])
      invariant 0 <= end <= |s|
      invariant s[..end] + BareId(s[end..]) == BareId(s)
    {
      BareStep(s, end);
      end := end + 1;
    }
    assert BareId(s[end..]) == "";
    return s[..end];
  }

  method AuthservIdOf(value: string) returns (id: string)
    ensures id == StrictId(value)
  {
    var s := SkipCfws(value);
    if s != "" && s[0] == '\"' {
      id := ReadQuoted(s);
    } else {
      id := ReadBare(s);
    }
  }

  // ---------- The loose readings ----------

  /** One way a parser might treat parentheses. */
  datatype CommentMode = CommentMode(comments: bool, nesting: bool, escapes: bool)

  const COMMENT_MODES := [
    CommentMode(true, true, true),
    CommentMode(true, true, false),
    CommentMode(true, false, true),
    CommentMode(true, false, false),
    CommentMode(false, false, false)]

  function TokenRun(s: string): string {
    if s == "" || !IsTokenByte(s[0]) then "" else [s[0]] + TokenRun(s[1..])
  }

  function Leading(s: string, mode: CommentMode, depth: nat): string
    decreases |s|
  {
    if s == "" then ""
    else if depth > 0 && mode.escapes && s[0] == '\\' then (if |s| == 1 then "" else Leading(s[2..], mode, depth))
    else if mode.comments && s[0] == '(' && (depth == 0 || mode.nesting) then Leading(s[1..], mode, depth + 1)
    else if depth > 0 && s[0] == ')' then Leading(s[1..], mode, depth - 1)
    else if depth == 0 && IsTokenByte(s[0]) then TokenRun(s)
    else Leading(s[1..], mode, depth)
  }

  lemma RunStep(value: string, i: nat, end: nat)
    requires i <= end < |value| && IsTokenByte(value[end])
    ensures value[i..end] + TokenRun(value[end..]) == value[i..end + 1] + TokenRun(value[end + 1..])
  {
    assert value[end..][1..] == value[end + 1..];
    assert value[i..end + 1] == value[i..end] + [value[end]];
    Regroup(value[i..end], [value[end]], TokenRun(value[end + 1..]));
  }

  method RunOfToken(value: string, i: nat) returns (tok: string)
    requires i <= |value|
    ensures tok == TokenRun(value[i..])
  {
    var end := i;
    assert value[i..i] == "";
    while end < |value| && IsTokenByte(value[end])
      invariant i <= end <= |value|
      invariant value[i..end] + TokenRun(value[end..]) == TokenRun(value[i..])
    {
      RunStep(value, i, end);
      end := end + 1;
    }
    assert TokenRun(value[end..]) == "";
    return value[i..end];
  }

  method LeadingToken(value: string, mode: CommentMode) returns (tok: string)
    ensures tok == Leading(value, mode, 0)
  {
    var depth := 0;
    var i := 0;
    assert value[0..] == value;
    while i < |value|
      invariant 0 <= i <= |value| && depth >= 0
      invariant Leading(value[i..], mode, depth) == Leading(value, mode, 0)
    {
      var c := value[i];
      ghost var tail := value[i..];
      assert tail[1..] == value[i + 1..];
      if depth > 0 && mode.escapes && c == '\\' {
        if i + 1 >= |value| {
          return "";
        }
        assert tail[2..] == value[i + 2..];
        i := i + 1;
      } else if mode.comments && c == '(' && (depth == 0 || mode.nesting) {
        depth := depth + 1;
      } else if depth > 0 && c == ')' {
        depth := depth - 1;
      } else if depth == 0 && IsTokenByte(c) {
        tok := RunOfToken(value, i);
        return;
      }
      i := i + 1;
    }
    return "";
  }

  // ---------- The claim ----------

  /** An encoded-word starts at i with its charset ending at j: "=?", charset, "?", b or q, "?". */
  predicate EncodedWordAt(s: string, i: nat, j: nat) {
    && i + 2 <= j && j + 2 < |s|
    && s[i] == '=' && s[i + 1] == '?'
    && (forall k | i + 2 <= k < j :: s[k] != '?')
    && s[j] == '?' && LowerChar(s[j + 1]) in "bq" && s[j + 2] == '?'
  }

  predicate HasEncodedWord(s: string) {
    exists i, j | 0 <= i < |s| && 0 <= j < |s| :: EncodedWordAt(s, i, j)
  }

  predicate ReadsAs(value: string, id: string) {
    || SameId(StrictId(value), id)
    || exists m | m in COMMENT_MODES :: SameId(Leading(value, m, 0), id)
  }

  predicate Claims(value: string, id: string) {
    HasEncodedWord(value) || ReadsAs(value, id)
  }

  method ReadsAsId(value: string, id: string) returns (yes: bool)
    ensures yes == ReadsAs(value, id)
  {
    var strict := AuthservIdOf(value);
    if SameId(strict, id) {
      return true;
    }
    for i := 0 to |COMMENT_MODES|
      invariant forall j | 0 <= j < i :: !SameId(Leading(value, COMMENT_MODES[j], 0), id)
    {
      var tok := LeadingToken(value, COMMENT_MODES[i]);
      if SameId(tok, id) {
        assert COMMENT_MODES[i] in COMMENT_MODES;
        return true;
      }
    }
    return false;
  }

  method ClaimsId(value: string, id: string) returns (yes: bool)
    ensures yes == Claims(value, id)
  {
    if HasEncodedWord(value) {
      return true;
    }
    yes := ReadsAsId(value, id);
  }
}
