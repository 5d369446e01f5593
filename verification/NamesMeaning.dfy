/** What the name rules admit, character by character: domains, selectors, mailboxes and letter case. */
module NamesMeaning {
  import opened Text
  import opened Names
  import opened Record
  import opened Genrecord
  import opened Resolver

  // ---------- Letter case ----------

  /** Lower-casing moves the 26 capital letters by 32 places and leaves every other character. */
  lemma LowerLetters(s: string, i: nat)
    requires i < |s|
    ensures 'A' <= s[i] <= 'Z' ==> ToLower(s)[i] as int == s[i] as int + 'a' as int - 'A' as int
    ensures !('A' <= s[i] <= 'Z') ==> ToLower(s)[i] == s[i]
  {
  }

  // ---------- Domains ----------

  /** 1 to 63 letters, digits and hyphens, with no hyphen at either end. */
  predicate LabelText(l: string) {
    && 1 <= |l| <= 63
    && (forall i | 0 <= i < |l| ::
          'A' <= l[i] <= 'Z' || 'a' <= l[i] <= 'z' || '0' <= l[i] <= '9' || l[i] == '-')
    && l[0] != '-' && l[|l| - 1] != '-'
  }

  /** At most 253 characters, one or more labels with single dots between them. */
  ghost predicate DomainText(s: string) {
    && |s| <= 253
    && exists labels: seq<string> ::
         labels != [] && s == Join(labels, ".") && forall l | l in labels :: LabelText(l)
  }

  lemma LabelIff(l: string)
    ensures ValidLabel(l) <==> LabelText(l)
    ensures ValidSelector(l) <==> LabelText(l)
  {
  }

  lemma LabelsJoin(labels: seq<string>)
    requires labels != [] && forall l | l in labels :: LabelText(l)
    ensures Split(Join(labels, "."), '.') == labels && Join(labels, ".") != ""
  {
    SplitJoin(labels, '.');
    assert labels[0] in labels;
    if Join(labels, ".") == "" {
      SplitNone("", '.');
    }
  }

  /** The domain rule is exactly labels joined by dots. */
  lemma DomainIff(s: string)
    ensures ValidDomain(s) <==> DomainText(s)
  {
    if ValidDomain(s) {
      JoinSplit(s, '.');
      forall l | l in Split(s, '.') ensures LabelText(l) {
        LabelIff(l);
      }
    }
    if DomainText(s) {
      var labels: seq<string> :| labels != [] && s == Join(labels, ".") && forall l | l in labels :: LabelText(l);
      LabelsJoin(labels);
      forall l | l in Split(s, '.') ensures ValidLabel(l) {
        LabelIff(l);
      }
    }
  }

  lemma NoAt(s: string)
    requires ValidDomain(s)
    ensures '@' !in s
  {
    DomainCharacters(s);
  }

  /** A name of a valid domain, as a query: the same with one dot at the end. */
  lemma FqdnOfDomain(s: string)
    requires ValidDomain(s)
    ensures Fqdn(s) == s + "." && Fqdn(s + ".") == s + "."
  {
    LastLabel(s);
    assert (s + ".")[..|s + "."| - 1] == s;
  }

  // ---------- Mailboxes ----------

  /** Letters, digits and the nineteen marks of an atom. */
  predicate AtomText(a: string) {
    && a != ""
    && forall i | 0 <= i < |a| ::
         'A' <= a[i] <= 'Z' || 'a' <= a[i] <= 'z' || '0' <= a[i] <= '9' || a[i] in "!#$%&'*+-/=?^_`{|}~"
  }

  /** mailto: and a mailbox: atoms with single dots between them, an at sign and a domain. */
  ghost predicate MailboxText(v: string) {
    exists atoms: seq<string>, domain: string ::
      && atoms != [] && (forall a | a in atoms :: AtomText(a)) && DomainText(domain)
      && v == "mailto:" + Join(atoms, ".") + "@" + domain
  }

  lemma AtomIff(a: string)
    ensures IsAtom(a) <==> AtomText(a)
  {
  }

  lemma AtomsJoin(atoms: seq<string>)
    requires atoms != [] && forall a | a in atoms :: AtomText(a)
    ensures Split(Join(atoms, "."), '.') == atoms && Join(atoms, ".") != "" && '@' !in Join(atoms, ".")
  {
    SplitJoin(atoms, '.');
    assert atoms[0] in atoms;
    if Join(atoms, ".") == "" {
      SplitNone("", '.');
    }
    if '@' in Join(atoms, ".") {
      SplitCovers(Join(atoms, "."), '.', '@');
    }
  }

  lemma MailboxParts(local: string, domain: string)
    requires '@' !in local
    ensures var v := "mailto:" + local + "@" + domain;
            MAILTO <= v && Cut(v[|MAILTO|..], '@') == (local, domain, true)
  {
    var v := "mailto:" + local + "@" + domain;
    assert v == MAILTO + (local + ['@'] + domain);
    assert v[|MAILTO|..] == local + ['@'] + domain;
    CutAt(local, '@', domain);
  }

  lemma MailboxReads(atoms: seq<string>, domain: string)
    requires atoms != [] && (forall a | a in atoms :: AtomText(a)) && DomainText(domain)
    ensures ValidRuaMailto("mailto:" + Join(atoms, ".") + "@" + domain)
  {
    AtomsJoin(atoms);
    DomainIff(domain);
    NoAt(domain);
    MailboxParts(Join(atoms, "."), domain);
    forall a | a in atoms ensures IsAtom(a) {
      AtomIff(a);
    }
  }

  lemma MailboxWritten(v: string)
    requires ValidRuaMailto(v)
    ensures MailboxText(v)
  {
    var (local, domain, _) := Cut(v[|MAILTO|..], '@');
    CutSplits(v[|MAILTO|..], '@');
    JoinSplit(local, '.');
    DomainIff(domain);
    forall a | a in Split(local, '.') ensures AtomText(a) {
      AtomIff(a);
    }
    assert v == MAILTO + v[|MAILTO|..];
    assert v == "mailto:" + Join(Split(local, '.'), ".") + "@" + domain;
  }

  /** The mailbox rule of policy records is exactly that form. */
  lemma MailboxIff(v: string)
    ensures ValidRuaMailto(v) <==> MailboxText(v)
  {
    if ValidRuaMailto(v) {
      MailboxWritten(v);
    }
    forall atoms: seq<string>, domain: string
      | && atoms != [] && (forall a | a in atoms :: AtomText(a)) && DomainText(domain)
        && v == "mailto:" + Join(atoms, ".") + "@" + domain
      ensures ValidRuaMailto(v)
    {
      MailboxReads(atoms, domain);
    }
  }

  /** The mailbox rule of the generator: anything but seven characters, then an at sign and a domain. */
  ghost predicate LooseMailboxText(v: string) {
    exists local: string, domain: string ::
      && local != "" && '@' !in local && DomainText(domain) && v == "mailto:" + local + "@" + domain
      && forall i | 0 <= i < |v| :: v[i] !in [' ', '\t', ';', ',', '\"', '\\']
  }

  lemma RuaIff(v: string)
    ensures ValidateRua(v) <==> v == "" || LooseMailboxText(v)
  {
    if ValidateRua(v) && v != "" {
      var (local, domain, _) := Cut(v[|MAILTO|..], '@');
      CutSplits(v[|MAILTO|..], '@');
      DomainIff(domain);
      assert v == MAILTO + v[|MAILTO|..];
      assert v == "mailto:" + local + "@" + domain;
      SameForbidden(v);
    }
    forall local: string, domain: string
      | && local != "" && '@' !in local && DomainText(domain) && v == "mailto:" + local + "@" + domain
        && forall i | 0 <= i < |v| :: v[i] !in [' ', '\t', ';', ',', '\"', '\\']
      ensures ValidateRua(v)
    {
      MailboxParts(local, domain);
      DomainIff(domain);
      SameForbidden(v);
    }
  }

  lemma SameForbidden(v: string)
    ensures (forall i | 0 <= i < |v| :: v[i] !in RUA_FORBIDDEN)
       <==> forall i | 0 <= i < |v| :: v[i] !in [' ', '\t', ';', ',', '\"', '\\']
  {
    assert RUA_FORBIDDEN == [' ', '\t', ';', ',', '\"', '\\'];
  }
}
