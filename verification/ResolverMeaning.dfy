/** What discovery asks for, spelled out: reverse names nibble by nibble, candidates label by label, policy names. */
module ResolverMeaning {
  import opened Wrappers
  import opened Bits
  import opened Text
  import opened Netip
  import opened Names
  import opened Resolver
  import opened Walk

  // ---------- Reverse names ----------

  lemma {:induction false} LabelAt(a: Addr, k: nat, j: nat)
    requires a.V6? && j < k <= 32
    ensures NibbleLabels(a, k)[2 * j] == '.' && NibbleLabels(a, k)[2 * j + 1] == HexChar(Nibble(a, k - 1 - j))
    decreases j
  {
    if j > 0 {
      LabelAt(a, k - 1, j - 1);
      var head := "." + [HexChar(Nibble(a, k - 1))];
      assert NibbleLabels(a, k) == head + NibbleLabels(a, k - 1);
    }
  }

  /** There is a reverse name for an IPv6 address that is not IPv4-mapped and a length that is a positive multiple of
      four: the _sworn label, one label for each of the leading nibbles from the last to the first, and ip6.arpa. */
  lemma ReverseNameSpells(a: Addr, n: int) returns (labels: string)
    ensures ReverseName(a, n).Some? <==> a.V6? && !a.Is4In6() && n % 4 == 0 && 4 <= n <= 128
    ensures ReverseName(a, n).Some? ==>
              && ReverseName(a, n).value == "_sworn" + labels + ".ip6.arpa" && |labels| == n / 2
              && forall j | 0 <= j < n / 4 ::
                   labels[2 * j] == '.'
                   && labels[2 * j + 1] == "0123456789abcdef"[a.v6 / Pow2(128 - n + 4 * j) % 16]
  {
    labels := "";
    if HasReverseName(a, n) {
      labels := NibbleLabels(a, n / 4);
      forall j | 0 <= j < n / 4
        ensures labels[2 * j] == '.' && labels[2 * j + 1] == "0123456789abcdef"[a.v6 / Pow2(128 - n + 4 * j) % 16]
      {
        LabelAt(a, n / 4, j);
        assert 128 - 4 * (n / 4 - 1 - j + 1) == 128 - n + 4 * j;
      }
    }
  }

  /** The policy of a domain is asked for at _prefixes._sworn below it, in lower case and absolute. */
  lemma PolicyQueryIs(domain: string)
    requires ValidDomain(domain)
    ensures PolicyQuery(domain) == Txt("_prefixes._sworn." + ToLower(domain) + ".")
  {
    LowerDomain(domain);
    LastLabel(ToLower(domain));
    var name := "_prefixes._sworn." + ToLower(domain);
    assert name[|name| - 1] == ToLower(domain)[|ToLower(domain)| - 1];
  }

  lemma PointerQueryIs(a: Addr, n: int)
    requires HasReverseName(a, n)
    ensures PointerQuery(a, n) == Txt(ReverseName(a, n).value + ".")
  {
    var s := ReverseName(a, n).value;
    assert s[|s| - 1] == ARPA[|ARPA| - 1] == 'a';
  }

  // ---------- Candidates ----------

  /** The host without its first j labels. */
  function Without(host: string, j: nat): string
    requires j < |Split(host, '.')|
  {
    Join(Split(host, '.')[j..], ".")
  }

  /** Nothing stops the walk at or before the j-th parent. */
  predicate Reached(host: string, publicSuffix: Option<string -> bool>, j: nat)
    requires j < |Split(host, '.')|
  {
    if publicSuffix.None? then |Split(host, '.')| - j >= 3
    else forall i | 0 <= i <= j :: !publicSuffix.value(Without(host, i))
  }

  lemma ReachedOneMore(host: string, publicSuffix: Option<string -> bool>, j: nat)
    requires ValidDomain(host) && j < |Split(host, '.')|
    ensures Reached(host, publicSuffix, j)
       <==> (j > 0 ==> Reached(host, publicSuffix, j - 1)) && Evaluated(host, publicSuffix, j)
  {
    ParentValid(host, j);
    assert Without(host, j) == Parent(host, j);
    if publicSuffix.Some? && j > 0 {
      assert Reached(host, publicSuffix, j)
        <==> Reached(host, publicSuffix, j - 1) && !publicSuffix.value(Without(host, j));
    }
  }

  lemma {:induction false} ReachedIff(host: string, publicSuffix: Option<string -> bool>, j: nat)
    requires ValidDomain(host) && j < |Split(host, '.')|
    ensures Reached(host, publicSuffix, j) <==> forall i | 0 <= i <= j :: Evaluated(host, publicSuffix, i)
    decreases j
  {
    ReachedOneMore(host, publicSuffix, j);
    if j > 0 {
      ReachedIff(host, publicSuffix, j - 1);
    }
  }

  /** From a valid lower-case host the j-th candidate is the host without its first j labels; there is one exactly when
      j is below five and below the number of labels, and at least three labels are left when there is no public-suffix
      list, or no parent up to it is a public suffix when there is one. */
  lemma CandidateIff(host: string, publicSuffix: Option<string -> bool>, j: nat)
    requires ValidDomain(host) && ToLower(host) == host
    ensures j < |Candidates(host, publicSuffix)|
       <==> j < 5 && j < |Split(host, '.')| && Reached(host, publicSuffix, j)
    ensures j < |Candidates(host, publicSuffix)| ==> Candidates(host, publicSuffix)[j] == Without(host, j)
  {
    NormalOfValid(host);
    CandidatesAreWalk(host, publicSuffix);
    if j < |Split(host, '.')| {
      ReachedIff(host, publicSuffix, j);
    }
  }
}
