/** The syntax of operator domains and selectors. */
module Names {
  import opened Text

  const VERSION := "SWORN1"
  const DNS_LABEL := "_sworn"

  predicate IsLdh(c: char) { IsLetter(c) || IsDigit(c) || c == '-' }

  /** One DNS label: 1 to 63 letters, digits or hyphens, with no hyphen at either end. */
  predicate ValidLabel(l: string) {
    && 1 <= |l| <= 63
    && (forall i | 0 <= i < |l| :: IsLdh(l[i]))
    && l[0] != '-' && l[|l| - 1] != '-'
  }

  predicate ValidDomain(s: string) {
    && 1 <= |s| <= 253
    && forall l | l in Split(s, '.') :: ValidLabel(l)
  }

  predicate ValidSelector(s: string) { ValidLabel(s) }

  /** Every character of a split text is the separator or belongs to a part. */
  lemma {:induction false} SplitCovers(s: string, c: char, x: char)
    requires x in s && x != c
    ensures exists p :: p in Split(s, c) && x in p
    decreases |s|
  {
    if c in s {
      var a, b := AtFirst(s, c);
      SplitCons(a, c, b);
      if x in a {
        assert Split(s, c)[0] == a;
      } else {
        SplitCovers(b, c, x);
        var p :| p in Split(b, c) && x in p;
        assert p in [a] + Split(b, c);
      }
    } else {
      SplitNone(s, c);
    }
  }

  lemma DomainCharacters(s: string)
    requires ValidDomain(s)
    ensures forall x | x in s :: IsLdh(x) || x == '.'
    ensures s[0] != '.' && s[|s| - 1] != '.'
  {
    forall x | x in s && x != '.' ensures IsLdh(x) {
      SplitCovers(s, '.', x);
    }
    FirstLabel(s);
    LastLabel(s);
  }

  lemma FirstLabel(s: string)
    requires forall l | l in Split(s, '.') :: ValidLabel(l)
    ensures s != "" && s[0] != '.'
  {
    if '.' in s {
      var a, b := AtFirst(s, '.');
      SplitCons(a, '.', b);
      assert ValidLabel(a) by { assert Split(s, '.')[0] == a; }
      assert s[0] == a[0] && IsLdh(a[0]);
    } else {
      SplitNone(s, '.');
      assert ValidLabel(s) by { assert Split(s, '.')[0] == s; }
      assert IsLdh(s[0]);
    }
  }

  lemma {:induction false} LastLabel(s: string)
    requires forall l | l in Split(s, '.') :: ValidLabel(l)
    ensures s != "" && s[|s| - 1] != '.'
    decreases |s|
  {
    if '.' in s {
      var a, b := AtFirst(s, '.');
      SplitCons(a, '.', b);
      assert forall l | l in Split(b, '.') :: l in [a] + Split(b, '.');
      LastLabel(b);
      assert s[|s| - 1] == b[|b| - 1];
    } else {
      SplitNone(s, '.');
      assert ValidLabel(s) by { assert Split(s, '.')[0] == s; }
      assert IsLdh(s[|s| - 1]);
    }
  }

  function LowerAll(parts: seq<string>): (lower: seq<string>)
    ensures |lower| == |parts|
  {
    seq(|parts|, i requires 0 <= i < |parts| => ToLower(parts[i]))
  }

  lemma LowerAvoids(s: string, c: char)
    requires !IsLetter(c)
    ensures c in ToLower(s) <==> c in s
  {
    var t := ToLower(s);
    assert forall k | 0 <= k < |s| :: t[k] == c <==> s[k] == c;
  }

  lemma LowerAround(a: string, c: char, b: string)
    requires !IsLetter(c)
    ensures ToLower(a + [c] + b) == ToLower(a) + [c] + ToLower(b)
  {
  }

  lemma LowerAllCons(a: string, parts: seq<string>)
    ensures LowerAll([a] + parts) == [ToLower(a)] + LowerAll(parts)
  {
  }

  /** Lower-casing commutes with splitting at a character that is not a letter. */
  lemma {:induction false} LowerSplit(s: string, c: char)
    requires !IsLetter(c)
    ensures Split(ToLower(s), c) == LowerAll(Split(s, c))
    decreases |s|
  {
    if c in s {
      var a, b := AtFirst(s, c);
      SplitCons(a, c, b);
      LowerAvoids(a, c);
      LowerAround(a, c, b);
      SplitCons(ToLower(a), c, ToLower(b));
      LowerSplit(b, c);
      LowerAllCons(a, Split(b, c));
    } else {
      LowerAvoids(s, c);
      SplitNone(s, c);
      SplitNone(ToLower(s), c);
      LowerAllCons(s, []);
    }
  }

  lemma LowerDomain(s: string)
    ensures ValidDomain(ToLower(s)) <==> ValidDomain(s)
  {
    LowerSplit(s, '.');
    var parts := Split(s, '.');
    forall l ensures ValidLabel(ToLower(l)) <==> ValidLabel(l) {
      LowerLabel(l);
    }
    assert forall i | 0 <= i < |parts| :: LowerAll(parts)[i] == ToLower(parts[i]);
    if ValidDomain(ToLower(s)) {
      forall l | l in parts ensures ValidLabel(l) {
        var i :| 0 <= i < |parts| && parts[i] == l;
        assert ToLower(l) in LowerAll(parts) by { assert LowerAll(parts)[i] == ToLower(l); }
      }
    }
  }

  lemma LowerLabel(l: string)
    ensures ValidLabel(ToLower(l)) <==> ValidLabel(l)
  {
    var t := ToLower(l);
    assert forall i | 0 <= i < |l| :: IsLdh(t[i]) <==> IsLdh(l[i]);
  }
}
