/** The string operations of Go's strings package that the protocol uses, on ASCII text, and their laws. */
module Text {

  // ---------- Splitting and joining ----------

  /** The first position of c, or the length when c is absent. */
  function IndexOf(s: string, c: char): (i: nat)
    ensures i <= |s|
  {
    if s == "" || s[0] == c then 0 else 1 + IndexOf(s[1..], c)
  }

  function Split(s: string, c: char): (parts: seq<string>)
    ensures |parts| >= 1
    decreases |s|
  {
    var i := IndexOf(s, c);
    if i == |s| then [s] else [s[..i]] + Split(s[i + 1..], c)
  }

  function Join(parts: seq<string>, sep: string): string {
    if parts == [] then ""
    else if |parts| == 1 then parts[0]
    else parts[0] + sep + Join(parts[1..], sep)
  }

  /** strings.Cut at the first c: what precedes it, what follows it, and whether it was there. */
  function Cut(s: string, c: char): (string, string, bool) {
    var i := IndexOf(s, c);
    if i == |s| then (s, "", false) else (s[..i], s[i + 1..], true)
  }

  lemma {:induction false} IndexOfAbsent(s: string, c: char)
    requires c !in s
    ensures IndexOf(s, c) == |s|
  {
    if s != "" {
      assert forall k | 0 <= k < |s[1..]| :: s[1..][k] == s[k + 1];
      IndexOfAbsent(s[1..], c);
    }
  }

  lemma {:induction false} IndexOfFirst(a: string, c: char, b: string)
    requires c !in a
    ensures IndexOf(a + [c] + b, c) == |a|
  {
    var s := a + [c] + b;
    if a != "" {
      assert s[0] == a[0];
      assert s[1..] == a[1..] + [c] + b;
      IndexOfFirst(a[1..], c, b);
    }
  }

  /** Either c is absent, or the text falls apart at its first occurrence. */
  lemma AtFirst(s: string, c: char) returns (a: string, b: string)
    requires c in s
    ensures s == a + [c] + b && c !in a && |b| < |s|
  {
    var i := 0;
    while s[i] != c
      invariant 0 <= i < |s| && c !in s[..i] && c in s[i..]
      decreases |s| - i
    {
      i := i + 1;
      assert s[..i] == s[..i - 1] + [s[i - 1]];
    }
    a, b := s[..i], s[i + 1..];
  }

  lemma SplitNone(s: string, c: char)
    requires c !in s
    ensures Split(s, c) == [s] && !Cut(s, c).2
  {
    IndexOfAbsent(s, c);
  }

  lemma SplitCons(a: string, c: char, b: string)
    requires c !in a
    ensures Split(a + [c] + b, c) == [a] + Split(b, c)
    ensures Cut(a + [c] + b, c) == (a, b, true)
  {
    IndexOfFirst(a, c, b);
    var s := a + [c] + b;
    assert s[..|a|] == a && s[|a| + 1..] == b;
  }

  lemma CutAt(a: string, c: char, b: string)
    requires c !in a
    ensures Cut(a + [c] + b, c) == (a, b, true)
  {
    SplitCons(a, c, b);
  }

  lemma CutSplits(s: string, c: char)
    requires Cut(s, c).2
    ensures s == Cut(s, c).0 + [c] + Cut(s, c).1 && c !in Cut(s, c).0
  {
    if c in s {
      var a, b := AtFirst(s, c);
      CutAt(a, c, b);
    } else {
      SplitNone(s, c);
    }
  }

  lemma {:induction false} PartsLackSeparator(s: string, c: char)
    ensures forall p | p in Split(s, c) :: c !in p
    decreases |s|
  {
    if c in s {
      var a, b := AtFirst(s, c);
      SplitCons(a, c, b);
      PartsLackSeparator(b, c);
    } else {
      SplitNone(s, c);
    }
  }

  lemma {:induction false} SplitConcat(a: string, c: char, b: string)
    ensures Split(a + [c] + b, c) == Split(a, c) + Split(b, c)
    decreases |a|
  {
    if c in a {
      var x, y := AtFirst(a, c);
      SplitCons(x, c, y);
      SplitConcat(y, c, b);
      SplitCons(x, c, y + [c] + b);
      assert (x + [c] + y) + [c] + b == x + [c] + (y + [c] + b);
      Regroup([x], Split(y, c), Split(b, c));
    } else {
      SplitNone(a, c);
      SplitCons(a, c, b);
    }
  }

  lemma {:induction false} SplitJoin(parts: seq<string>, c: char)
    requires |parts| >= 1 && forall p | p in parts :: c !in p
    ensures Split(Join(parts, [c]), c) == parts
  {
    assert parts[0] in parts;
    if |parts| == 1 {
      SplitNone(parts[0], c);
    } else {
      SplitJoin(parts[1..], c);
      SplitCons(parts[0], c, Join(parts[1..], [c]));
    }
  }

  lemma JoinCons(p: string, parts: seq<string>, sep: string)
    requires parts != []
    ensures Join([p] + parts, sep) == p + sep + Join(parts, sep)
  {
    assert ([p] + parts)[1..] == parts;
  }

  lemma {:induction false} JoinSplit(s: string, c: char)
    ensures Join(Split(s, c), [c]) == s
    decreases |s|
  {
    if c in s {
      var a, b := AtFirst(s, c);
      SplitCons(a, c, b);
      JoinSplit(b, c);
      JoinCons(a, Split(b, c), [c]);
    } else {
      SplitNone(s, c);
    }
  }

  /** Joining is a homomorphism between concatenation of non-empty lists and joining with the separator. */
  lemma {:induction false} JoinConcat(a: seq<string>, b: seq<string>, sep: string)
    requires |a| >= 1 && |b| >= 1
    ensures Join(a + b, sep) == Join(a, sep) + sep + Join(b, sep)
  {
    if |a| == 1 {
      assert a + b == [a[0]] + b;
      JoinCons(a[0], b, sep);
    } else {
      assert a + b == [a[0]] + (a[1..] + b);
      JoinConcat(a[1..], b, sep);
      JoinCons(a[0], a[1..] + b, sep);
    }
  }

  // ---------- White space ----------

  /** ASCII white space, as strings.TrimSpace removes it. */
  predicate IsSpace(c: char) {
    c == ' ' || c == '\t' || c == '\n' || c == '\r' || c as int == 11 || c as int == 12
  }

  predicate AllSpace(s: string) {
    forall i | 0 <= i < |s| :: IsSpace(s[i])
  }

  /** Empty, or with a visible character at both ends. */
  predicate Trimmed(s: string) {
    s == "" || (!IsSpace(s[0]) && !IsSpace(s[|s| - 1]))
  }

  function TrimLeft(s: string): string {
    if s != "" && IsSpace(s[0]) then TrimLeft(s[1..]) else s
  }

  function TrimRight(s: string): string {
    if s != "" && IsSpace(s[|s| - 1]) then TrimRight(s[..|s| - 1]) else s
  }

  function Trim(s: string): string {
    TrimRight(TrimLeft(s))
  }

  lemma {:induction false} TrimLeftPad(left: string, t: string)
    requires AllSpace(left) && (t == "" || !IsSpace(t[0]))
    ensures TrimLeft(left + t) == t
  {
    if left != "" {
      assert (left + t)[1..] == left[1..] + t;
      TrimLeftPad(left[1..], t);
    } else {
      assert left + t == t;
    }
  }

  lemma {:induction false} TrimRightPad(t: string, right: string)
    requires AllSpace(right) && (t == "" || !IsSpace(t[|t| - 1]))
    ensures TrimRight(t + right) == t
  {
    if right != "" {
      assert (t + right)[..|t + right| - 1] == t + right[..|right| - 1];
      TrimRightPad(t, right[..|right| - 1]);
    } else {
      assert t + right == t;
    }
  }

  /** Padding with white space is undone by trimming. */
  lemma TrimPad(left: string, t: string, right: string)
    requires AllSpace(left) && AllSpace(right) && Trimmed(t)
    ensures Trim(left + t + right) == t
  {
    if t == "" {
      assert left + t + right == (left + right) + "";
      TrimLeftPad(left + right, "");
    } else {
      assert left + t + right == left + (t + right);
      TrimLeftPad(left, t + right);
      TrimRightPad(t, right);
    }
  }

  /** Any text is white space around a trimmed core. */
  lemma Surround(s: string) returns (left: string, core: string, right: string)
    ensures AllSpace(left) && AllSpace(right) && Trimmed(core) && s == left + core + right
  {
    var i := 0;
    while i < |s| && IsSpace(s[i])
      invariant 0 <= i <= |s| && AllSpace(s[..i])
    {
      i := i + 1;
    }
    var j := |s|;
    while j > i && IsSpace(s[j - 1])
      invariant i <= j <= |s| && AllSpace(s[j..])
      invariant i < |s| ==> !IsSpace(s[i])
    {
      j := j - 1;
    }
    left, core, right := s[..i], s[i..j], s[j..];
  }

  /** Whatever is trimmed off is white space. */
  lemma TrimSplits(s: string) returns (left: string, right: string)
    ensures AllSpace(left) && AllSpace(right) && Trimmed(Trim(s)) && s == left + Trim(s) + right
  {
    var core;
    left, core, right := Surround(s);
    TrimPad(left, core, right);
  }

  function Map<T, U>(f: T -> U, s: seq<T>): (r: seq<U>)
    ensures |r| == |s|
  {
    seq(|s|, i requires 0 <= i < |s| => f(s[i]))
  }

  lemma MapCons<T, U>(f: T -> U, x: T, rest: seq<T>)
    ensures Map(f, [x] + rest) == [f(x)] + Map(f, rest)
  {
  }

  lemma Unsnoc<T>(s: seq<T>) returns (init: seq<T>, last: T)
    requires s != []
    ensures s == init + [last]
  {
    init, last := s[..|s| - 1], s[|s| - 1];
  }

  lemma Uncons<T>(s: seq<T>) returns (first: T, rest: seq<T>)
    requires s != []
    ensures s == [first] + rest
  {
    first, rest := s[0], s[1..];
  }

  lemma Regroup<T>(a: seq<T>, b: seq<T>, c: seq<T>)
    ensures a + (b + c) == a + b + c
  {
  }

  // ---------- Letter case, suffixes, decimal numbers ----------

  function LowerChar(c: char): char {
    if 'A' <= c <= 'Z' then (c as int + 32) as char else c
  }

  function ToLower(s: string): (t: string)
    ensures |t| == |s|
    ensures forall i | 0 <= i < |s| :: t[i] == LowerChar(s[i])
  {
    seq(|s|, i requires 0 <= i < |s| => LowerChar(s[i]))
  }

  predicate EqualFold(a: string, b: string) {
    ToLower(a) == ToLower(b)
  }

  lemma ToLowerConcat(a: string, b: string)
    ensures ToLower(a + b) == ToLower(a) + ToLower(b)
  {
  }

  lemma ToLowerIdempotent(s: string)
    ensures ToLower(ToLower(s)) == ToLower(s)
  {
  }

  /** strings.TrimSuffix with a single dot. */
  function TrimDot(s: string): string {
    if s != "" && s[|s| - 1] == '.' then s[..|s| - 1] else s
  }

  predicate IsDigit(c: char) { '0' <= c <= '9' }

  predicate IsLetter(c: char) { 'A' <= c <= 'Z' || 'a' <= c <= 'z' }

  function DigitChar(d: nat): (c: char)
    requires d < 10
    ensures IsDigit(c) && c as int - '0' as int == d
  {
    ('0' as int + d) as char
  }

  /** Decimal digits without a leading zero. */
  function Itoa(n: nat): (s: string)
    ensures |s| >= 1 && forall c | c in s :: IsDigit(c)
  {
    if n < 10 then [DigitChar(n)] else Itoa(n / 10) + [DigitChar(n % 10)]
  }
}
