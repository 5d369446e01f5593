/** The generator with the text forms its libraries give prefixes and keys: its results without a hypothesis on them. */
module LibraryText {
  import opened Wrappers
  import opened Netip
  import opened AddressRules
  import opened NamesMeaning
  import opened Record
  import opened Walk
  import opened Genrecord
  import opened RoundTrip
  import opened EndToEnd
  import opened AddrText
  import opened AddrTextRoundTrip
  import opened Base64

  /** The text of netip and of strict base64; the curve-point test is left open. */
  function LibraryCodecs(isPoint: Bytes -> bool): Codecs {
    Codecs(NETIP_TEXT, Base64Text(isPoint))
  }

  lemma LibraryFaithful(isPoint: Bytes -> bool)
    ensures FaithfulPrefixes(LibraryCodecs(isPoint).prefix) && FaithfulKeys(LibraryCodecs(isPoint).key)
  {
    NetipFaithful();
    Base64Faithful(isPoint);
  }

  /** Generation succeeds exactly when every check passes, the key is a curve point and the mailbox is one the parser
      admits. */
  lemma LibraryGeneratesIff(isPoint: Bytes -> bool, o: GenOptions)
    ensures Generated(LibraryCodecs(isPoint), o).Ok?
       <==> Complaint(o).None? && isPoint(o.pubKey) && (o.rua == "" || MailboxText(o.rua))
  {
    LibraryFaithful(isPoint);
    GeneratesIff(LibraryCodecs(isPoint), o);
  }

  /** What the generator emits, discovery finds, and only for sources the records list. */
  lemma LibraryEmittedIsFound(isPoint: Bytes -> bool, o: GenOptions, rs: RecordSet, e: Setup, source: Addr)
    requires Generated(LibraryCodecs(isPoint), o) == Ok(rs)
    requires e.codec == NETIP_TEXT && e.net == Serving(rs) && Eligible(e.ineligible, source)
    ensures source.V6? && 32 <= o.unit <= 64
    ensures var v := Stopped(FullRun(e, source)).verdict;
            if Lists(o.prefixes, source, 48) || Lists(o.prefixes, source, 64)
            then LongestMatch(o.prefixes, source).Some?
                 && v == Confirmed(Expected(o, source, LongestMatch(o.prefixes, source).value))
            else v == Nobody
  {
    LibraryFaithful(isPoint);
    EmittedIsFound(LibraryCodecs(isPoint), o, rs, e, source);
  }
}
