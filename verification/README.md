# swornmail-go in Dafny

swornmail-go lets a mail operator stake accountability for IPv6 space. In Mode 1 a receiver discovers the operator of a
connecting address from DNS alone; in Mode 2 the operator signs a token for a prefix. This project models the parts that
decide who is accountable for what, and proves what a receiver relies on.

- **Prefix arithmetic** (`Bits`, `Netip`, `AddressRules`, `WirePrefix`, `AddressMeaning`). An address is a number and a
  prefix keeps its quotient by a power of two, so containment, overlap and nesting are statements about address sets.
  The rules for attestable prefixes and eligible sources, and the 17-byte wire form, rest on it.
- **Records** (`Text`, `Names`, `NamesMeaning`, `Tags`, `TagGrammar`, `Lines`, `Record`, `RecordMeaning`,
  `RecordRefusals`, `Enumeration`). The tag-list splitter is proved to be exactly a grammar; the policy parser is proved
  to say what each tag says on its own, and every refusal is characterised.
- **The generator** (`Genrecord`, `GenerationMeaning`, `RoundTrip`, `EndToEnd`, `AddrText`, `AddrTextRoundTrip`,
  `Base64`, `LibraryText`). Which options it accepts and what it writes for them, when its own round-trip check can
  fail, and that discovery finds what it emits and nothing else; the text of addresses and keys, with its round trips.
- **Discovery** (`Resolver`, `ResolverMeaning`, `Walk`, `Discover`, `Budget`, `Eleventh`, `TempErrors`, `Soundness`,
  `Completeness`). A class with a query budget runs against a network whose every answer may depend on everything asked
  before. `Walk` is the same search without a budget; the class is proved to be that search stopped at ten queries, and
  the runs in which this shows are characterised exactly and exist. What is found is justified, and what the answers
  vouch for is found.
- **The milter** (`AuthResults`, `ResultMeaning`, `Authserv`, `AuthservGrammar`, `ClaimMeaning`, `Milter`, `Session`).
  Six readers of an authserv-id, the strict one proved equal to its grammar; a per-connection object; and whole sessions
  of finished and aborted messages.
- **Tokens** (`Items`, `Token`, `TokenMeaning`, `TokenProofs`, `Refusals`). Payload decoding over CBOR items, signing,
  header checks and the staged verifier, with times in nanoseconds where the code has a time and in seconds where the
  wire has one; every acceptance and every refusal in terms of labels, entries and values.

Code that loops or updates state is a method or a class, proved against a function; the lemmas are about that function.
The modules named Meaning and Refusals state what those functions decide in characters, numbers and raw answers alone.
`Wrappers` holds the option and result types, and `Instances` concrete inputs that meet the premises of the main results.

What libraries and the environment provide enters as parameters: the text form of prefixes and of keys (`PrefixText`,
`KeyText`), the curve-point and signature tests (`Curve`, `isPoint`), what the CBOR library makes of an item of an
unexpected kind (`Library`), DNS answers (`Network`) and the public-suffix predicate. The record results hold for every
text form that reads back what it prints and prints nothing the record syntax would break. The forms that netip and
strict base64 give are modelled and proved to be such, so `LibraryText` states those results without a hypothesis.

Two statements of the original hold with a side condition, which is proved exact:

- The comment on the clamped times (`sworn/token.go:347-351`) says that clamping changes no verdict. It changes none
  at any moment before 2^62 - 300 seconds, and at every later one there are times whose verdict it changes
  (`TokenProofs.ClampingAgreesIff`).
- A payload that `Sign` accepts need not verify: a lifetime of less than a second can round to nothing. `Sign` compares
  times in nanoseconds and encodes seconds (`TokenProofs.SignedPreparesIff`, `Instances.SubsecondExample`).

A mailbox that the generator's own check admits and the record parser refuses exists (`RoundTrip.RuaGap`); the
generator's round trip catches exactly those (`RoundTrip.GeneratesIff`).

## Model

| member | source | states |
|---|---|---|
| Netip.SubsetIffNested | sworn/record.go:47-53 | For canonical prefixes, "at least as long and the base address lies inside", which is what the code tests, holds exactly when every address of the one is an address of the other |
| Netip.OverlapsIffShared | sworn/token.go:255-259 | The overlap test on the shorter of two lengths holds exactly when some address lies in both prefixes |
| Netip.EnclosingNests | sworn/discover/discover.go:180-188 | Masking one source to a longer and a shorter length gives nested address sets |
| Netip.EnclosingWithin | sworn/token.go:643-673 | A prefix that holds an address contains every masking of that address at least as long as itself |
| AddressMeaning.ContainsIff | sworn/record.go:47-53 | A prefix holds exactly the addresses of its family, without a zone, in the interval that starts at its first address and has one address for each setting of its remaining bits |
| AddressMeaning.EnclosingIs | sworn/discover/discover.go:180-188 | Masking keeps the leading bits of the source and clears the others |
| AddressMeaning.UnmapIff | cmd/sworn-milter/milter.go:47-52 | Exactly the addresses from ::ffff:0:0 to ::ffff:ffff:ffff are unmapped, each to the IPv4 address of its last 32 bits |
| AddressRules.ValidIffAllEligible | sworn/token.go:242-281 | Among canonical prefixes of length 32 to 64, the attestable ones are exactly those whose every address is an eligible source |
| AddressRules.ValidPrefixHoldsEligible | sworn/token.go:242-281 | Every address inside an attestable prefix passes the source gate |
| AddressMeaning.EligibleSourceIff | sworn/token.go:268-281 | The source gate admits exactly the IPv6 addresses without a zone inside 2000::/3 and outside 2001::/32 and 2002::/16, as numbers |
| AddressMeaning.EligibleIff | sworn/ineligible.go:24-34 | With a receiver's list, exactly those outside every prefix listed |
| AddressMeaning.ValidatePrefixIff | sworn/token.go:242-261 | Attestable prefixes are exactly those of 32 to 64 bits without a zone, with no bit set beyond them, whose first address passes that gate |
| WirePrefix.WireIff | sworn/token.go:221-237 | Bytes decode to a prefix exactly when the prefix is attestable and the bytes are its encoding: encoding and decoding are inverse bijections |
| AddressMeaning.EncodedByte | sworn/token.go:221-224 | Byte i of the first sixteen holds bits 8i to 8i+7 of the address, and the seventeenth the length |
| WirePrefix.AddrRoundTrip | sworn/token.go:221-233 | The sixteen bytes of an address spell that address |
| WirePrefix.BytesRoundTrip | sworn/token.go:221-233 | Any sixteen bytes are the bytes of the address they spell |
| Tags.SplitTags | sworn/record.go:74-132 | The splitting loop, with its octet gate and its set of seen names, computes the tag list (or the first error) of the specification the grammar lemmas are about |
| TagGrammar.RenderingReads | sworn/record.go:74-132 | Every layout of a list of tags and blank segments, with blanks anywhere the syntax admits them, gets the verdict of the tag list alone: accepted exactly when v comes first and no name repeats, and then read as those tags |
| TagGrammar.AcceptedIsRendering | sworn/record.go:74-132 | The converse: whatever is accepted is such a layout of exactly the tags read |
| TagGrammar.NormalForm | sworn/record.go:74-132 | Rendering the tags of an accepted record as name=value joined by semicolons reads back as the same tags; the first is v and no name repeats |
| TagGrammar.EmptySegmentIgnored | sworn/record.go:84-115 | A blank segment inserted at any place of any text, accepted or not, before the first segment and after the last included, changes neither the tags nor the error |
| TagGrammar.SegmentPaddingIgnored | sworn/record.go:84-115 | Blanks around any segment of any text, the first, the last and the only one included, change neither the tags nor the error |
| RecordRefusals.TagListIff | sworn/record.go:74-132 | A text is read as given tags exactly when it is those tags and blanks between semicolons, v first and no name twice, with names and values given character by character |
| RecordRefusals.RenderingRefused | sworn/record.go:74-132 | Such a layout is a syntax error exactly when its first tag is not v, and otherwise a duplicate exactly when a name comes twice |
| NamesMeaning.LabelIff | sworn/token.go:547-562 | A label or selector is 1 to 63 letters, digits and hyphens with no hyphen at either end |
| NamesMeaning.DomainIff | sworn/token.go:289-311 | A domain is at most 253 characters: one or more labels with single dots between them |
| NamesMeaning.MailboxIff | sworn/record.go:300-323 | The parser's mailbox rule admits exactly mailto:, atoms of letters, digits and the nineteen marks with single dots between them, an at sign and a domain |
| NamesMeaning.RuaIff | cmd/sworn/genrecord.go:246-262 | The generator's rule admits exactly the empty mailbox and mailto:, anything without an at sign, an at sign and a domain, without blanks, tabs, semicolons, commas, quotes and backslashes |
| Record.Decimal | sworn/record.go:137-149 | The digit loop computes the value of a number of at most three digits without a leading zero |
| RecordMeaning.DecimalIff | sworn/record.go:137-149 | A number is accepted exactly when it is the canonical spelling of a value up to 999 |
| Record.ParsePolicyRecord | sworn/record.go:233-294 | The policy parser's loops compute the record that PolicyIff describes |
| RecordMeaning.PolicyIff | sworn/record.go:233-294 | A policy parses to a record exactly when its tags, each on its own and in any order, say what the record says, the version is right and no prefix is longer than the unit |
| RecordMeaning.TakeIffReads | sworn/record.go:248-260 | The prefixes taken are exactly the non-empty elements up to the 64th, each of which must parse and be attestable |
| RecordRefusals.PolicyRefusalIs | sworn/record.go:233-294 | A policy text is refused as a tag list, else by the first tag that is wrong by itself, else as empty, else for a prefix longer than the unit, each with its own error |
| Enumeration.EnumerationCap | sworn/record.go:247-260 | In any text, however laid out and whatever else is in it, once the p tag of a segment holds 64 elements, any continuation of its value that the syntax admits gives the same record or the same error |
| RecordMeaning.AuthorizesIffSubset | sworn/record.go:43-55 | A policy of the right version covers a valid token prefix exactly when all its addresses lie in one single valid policy prefix |
| Record.ParsePointerRecord | sworn/record.go:209-230 | The pointer parser computes the operator domain, lowered, or the first error |
| Record.ParseRecord | sworn/record.go:153-199 | The key-record parser, with base64 and the curve-point test left open, computes the key or the first error |
| RecordRefusals.PointerIff | sworn/record.go:209-230 | A pointer names a domain exactly when its version is SWORN1 and its d tag is that domain in some letter case |
| RecordRefusals.KeyIff | sworn/record.go:153-199 | A key record carries a key exactly when its version is SWORN1, its algorithm ed25519 and its pk tag decodes to it, 32 bytes and a curve point |
| Soundness.AcceptedPolicy | sworn/record.go:285-293 | An accepted policy has the right version, a unit of 1 to 64, at most 64 prefixes, all attestable and none longer than the unit |
| Genrecord.BuildRecords | cmd/sworn/genrecord.go:110-176 | The generator's checks in order, its texts and its own round trip, as one outcome: the first complaint or the emitted records |
| Genrecord.PolicyValue | cmd/sworn/genrecord.go:178-191 | The accumulating printer writes the specified policy text |
| Genrecord.PointerRecords | cmd/sworn/genrecord.go:196-213 | The pointer loop never fails on a domain whose pointer text parses, and emits one record for each /48 and /64 |
| Genrecord.CheckPrefixes | cmd/sworn/genrecord.go:130-150 | One pass with a seen-set and a running maximum finds the first offending prefix, then a unit coarser than the longest |
| Genrecord.CheckRoundTrip | cmd/sworn/genrecord.go:218-242 | The run-time check fails exactly when the key text or the policy text does not parse to what was asked for |
| GenerationMeaning.SoundIff | cmd/sworn/genrecord.go:110-153 | Options pass the checks exactly with a valid domain and selector, a key of 32 bytes, 1 to 64 distinct attestable prefixes, a unit of 32 to 64 no shorter than any of them, and no mailbox or one of the loose form |
| GenerationMeaning.ComplaintIs | cmd/sworn/genrecord.go:110-153 | Otherwise the first rule broken, in the order of the code, is the one named |
| GenerationMeaning.FirstOffender | cmd/sworn/genrecord.go:130-144 | Among the prefixes the first one that is invalid or repeats an earlier one decides, and which of the two it is |
| GenerationMeaning.RecordsAre | cmd/sworn/genrecord.go:155-191 | The names and texts of the key and policy records, in full |
| GenerationMeaning.PointersAre | cmd/sworn/genrecord.go:196-213 | The pointers are exactly those of the listed /48 and /64 prefixes, each at its reverse name and naming the domain |
| RoundTrip.PolicyRoundTrips | cmd/sworn/genrecord.go:178-191 | Printed and parsed, a checked option set gives the same prefixes in order, unit, testing flag and mailbox when the mailbox is empty or a dot-atom mailbox in a domain; otherwise the parser refuses it |
| RoundTrip.KeyRoundTrips | cmd/sworn/genrecord.go:159-225 | The key record reads back as the key exactly when the key is a curve point |
| RoundTrip.GeneratesIff | cmd/sworn/genrecord.go:110-262 | Generation succeeds exactly when every check passes, the key is a curve point and the mailbox is empty or a dot-atom mailbox in a domain; and the policy part of the round trip fails exactly on a mailbox that only the generator's rule admits |
| RoundTrip.MailtoImpliesRua | sworn/record.go:300-323 | The parser's mailbox rule implies the generator's |
| RoundTrip.RuaGap | cmd/sworn/genrecord.go:246-262 | A concrete mailbox the generator's rule admits and the parser's refuses |
| AddrTextRoundTrip.PrefixReads | cmd/sworn/genrecord.go:178-183 | Every valid prefix of either family, IPv4-mapped ones included, is read back by the rules of netip.ParsePrefix from the text netip.Prefix.String gives it, whichever run of zero fields is left out |
| AddrTextRoundTrip.NetipFaithful | sworn/record.go:255-259 | That text form meets the hypothesis of the round-trip results: it reads back, is not empty, and holds nothing the record syntax would break |
| Base64.DecodeIff | sworn/record.go:175-182 | Strict decoding and encoding are inverse: padded blocks decode to a key exactly when they are its encoding |
| Base64.KeySpelledOnce | sworn/record.go:175-182 | In an accepted key record the key is spelled in the one way the encoder spells it |
| LibraryText.LibraryGeneratesIff | cmd/sworn/genrecord.go:110-262 | With the text forms of netip and strict base64, generation succeeds exactly when every check passes, the key is a curve point and the mailbox passes the parser's rule, without a hypothesis |
| EndToEnd.EmittedIsFound | cmd/sworn/genrecord.go:110-213 | For every accepted input and every eligible source, against a network serving exactly the emitted records: when the source lies in a listed /48 or /64 discovery confirms the lowered domain, the longest listed match, the source masked to the chosen unit and to /64, and the chosen testing flag; otherwise it finds nobody; at most three queries either way |
| LibraryText.LibraryEmittedIsFound | cmd/sworn/genrecord.go:110-213 | The same with the text forms of netip and strict base64, without a hypothesis on them |
| Instances.GenerationHappens | cmd/sworn/genrecord.go:110-176 | The premises of that result can be met: options for which generation succeeds with any key that is a curve point, with an eligible source in a listed /48 |
| EndToEnd.PointerMatches | cmd/sworn/genrecord.go:196-213 | An emitted pointer answers discovery's question about a source exactly when its prefix has that length and holds the source |
| Resolver.ReverseNibbleName | sworn/discover/resolver.go:55-74 | The nibble buffer and the downward loop write the name of section 2.5 of RFC 3596 below the _sworn label, or nothing for an address or length never queried |
| Resolver.ReverseNamesIdentify | sworn/discover/resolver.go:55-74 | Two addresses get the same name exactly when the lengths agree and so do that many leading bits |
| ResolverMeaning.ReverseNameSpells | sworn/discover/resolver.go:55-74 | There is a name exactly for an IPv6 address that is not IPv4-mapped and a positive multiple of four, and it is _sworn, one label per leading nibble from the last to the first, and ip6.arpa |
| ResolverMeaning.PolicyQueryIs | sworn/discover/discover.go:151-156 | The policy of a domain is asked for at _prefixes._sworn below it, lowered and absolute |
| ResolverMeaning.PointerQueryIs | sworn/discover/discover.go:72-84 | A pointer is asked for at the reverse name, absolute |
| Resolver.CandidateDomains | sworn/discover/resolver.go:82-101 | The stripping loop computes the specified candidates |
| Resolver.CandidatesAreWalk | sworn/discover/resolver.go:82-101 | The candidates are the successive parents of the host, host first, at most five, stopping exactly at the first parent that is not to be evaluated |
| Resolver.CandidatesValid | sworn/discover/resolver.go:82-101 | From a valid host every candidate is a valid lower-case label suffix, of three labels or more when there is no public-suffix list |
| ResolverMeaning.CandidateIff | sworn/discover/resolver.go:82-101 | The j-th candidate is the host without its first j labels; there is one exactly when j is below five and the labels last, with three labels left when there is no list and no public suffix up to it when there is one |
| Discover.RunDiscovery | sworn/discover/discover.go:64-132 | The budgeted object over an adversarial network ends with the verdict and the queries of the walk without a budget, stopped at ten |
| Discover.Discovery.Spend | sworn/discover/discover.go:232-238 | A query is issued exactly while fewer than ten were |
| Discover.Discovery.Confirm | sworn/discover/discover.go:151-193 | One policy lookup, issued only for a valid domain and within the budget, and its verdict |
| Discover.Discovery.ForwardConfirm | sworn/discover/discover.go:197-211 | One forward lookup and whether it leads back to the source |
| Discover.Discovery.Pointers | sworn/discover/discover.go:72-97 | Step 1 is the unbudgeted pointer walk, stopped at the budget |
| Discover.Discovery.Walk | sworn/discover/discover.go:122-131 | The candidate loop is the unbudgeted candidate walk from wherever the earlier queries left off, stopped at the budget |
| Discover.Discovery.FromHost | sworn/discover/discover.go:99-131 | Step 2 is the unbudgeted host walk, stopped at the budget |
| Discover.SingleSwornRecord | sworn/discover/discover.go:215-228 | The counting scan finds the one record of the right version, or none |
| Discover.ReadPolicy | sworn/discover/discover.go:163-192 | Reading the answer of a policy lookup gives the specified verdict |
| Discover.ReadPointer | sworn/discover/discover.go:136-146 | Reading the answer of a pointer lookup gives the operator named by its one usable record, if any |
| Discover.BestPrefix | sworn/discover/discover.go:171-179 | The scan for the longest match computes the specified match |
| Soundness.LongestMatchIs | sworn/discover/discover.go:171-179 | The match is an enumerated prefix that holds the source and is no shorter than any other that does; there is none exactly when no prefix holds it |
| Budget.BudgetRefinement | sworn/discover/discover.go:232-259 | At most ten queries are ever issued, every run but those of one family is the run without a budget, and those end as temporary failures after their tenth query |
| Budget.FullRunLength | sworn/discover/discover.go:70-131 | The unbudgeted walk needs at most eleven queries, and eleven exactly when both pointers were usable and unconfirmed, the host was forward-confirmed, and four of five candidates failed without an error |
| Eleventh.BudgetObservable | sworn/discover/discover.go:70-131 | Whatever the public-suffix setting, for every eligible source, every host of five candidates and every answer to an eleventh query, a confirming policy included, some network makes the search without a budget end with what that answer says of the fifth candidate and discovery with a temporary failure |
| Eleventh.ObservableIff | sworn/discover/discover.go:99-131 | For an eligible source the budget shows under some network exactly when the public-suffix setting leaves some host five candidates; without a list, as the milter and the command run it, it always does |
| Eleventh.FiveCandidatesIff | sworn/discover/resolver.go:82-101 | Without a list a host has five candidates exactly when it has seven labels or more |
| Budget.PointerDomainValid | sworn/discover/discover.go:136-153 | A pointer's domain is already valid and lowered, so the guard in confirm never fires for it |
| Budget.HostCandidateValid | sworn/discover/discover.go:110-153 | Nor for a candidate of a PTR host |
| TempErrors.TempErrorIff | sworn/discover/discover.go:156-211 | The verdict is a temporary failure exactly when the last query failed with something other than not-found or an eleventh was needed; no query follows a failure, and any other verdict means none failed |
| Soundness.DiscoverySound | sworn/discover/discover.go:64-193 | Every finding, under the budget, has an eligible source, an operator named by a pointer that was asked for or by a label suffix of a forward-confirmed PTR host, and says what the policy fetched last for that operator says: longest match, unit, testing flag |
| Soundness.FindingNests | sworn/discover/discover.go:180-192 | The source lies in the observed /64, that in the unit, that in the matched prefix, and every address of that prefix is an eligible source |
| Completeness.SingleRecordIff | sworn/discover/discover.go:215-228 | The one usable record of an answer is the one that starts with v=SWORN1 when no other does |
| Completeness.HostOfIff | sworn/discover/discover.go:106-118 | A PTR answer names a host exactly when its first name, with or without one final dot, is a valid domain, and then that domain lowered |
| Completeness.HostIsFound | sworn/discover/discover.go:99-131 | When no pointer names anybody, the PTR name, in any letter case and with or without a final dot, is a valid host that leads back to the source, the policies of its first i parents say nothing of the source and the next vouches for it, discovery under the budget confirms that parent with what its policy says |
| Completeness.NearPointerIsFound | sworn/discover/discover.go:72-97 | A /64 pointer to an operator whose policy vouches for the source decides, whatever else is published |
| Completeness.FarPointerIsFound | sworn/discover/discover.go:72-97 | So does a /48 pointer when the /64 one names nobody |
| AuthResults.FormatResult | sworn/discover/authresults.go:20-41 | The builder with its early returns writes the specified text |
| AuthResults.StatusReads | sworn/discover/authresults.go:20-41 | The word read back after sworn= is the status, and it is pass only for a confirmation by an operator that is not testing |
| AuthResults.OwnResultClaimed | sworn/discover/authresults.go:20-41 | Every result printed under an id that is a token other than a lone dot is claimed by the milter's readers |
| ResultMeaning.ResultIsWords | sworn/discover/authresults.go:20-41 | The result is its words with single blanks between them: our id, the verdict, and for an operator the mode, the domain, the unit and the observed /64, quoted, with the testing words before them when it is testing |
| ResultMeaning.ResultReads | sworn/discover/authresults.go:20-41 | Split at its blanks it is those words again, when no part of it holds a blank |
| ResultMeaning.PassIff | cmd/sworn-milter/milter.go:88-96 | The second word the milter writes is a pass exactly when the connection had an address for which discovery confirmed an operator that is not testing |
| ResultMeaning.PassNeedsSource | cmd/sworn-milter/milter.go:88-96 | A pass means a source inside 2000::/3, outside 2001::/32, 2002::/16 and every configured prefix |
| Authserv.SkipCfws | cmd/sworn-milter/authserv.go:122-137 | The depth loop computes the specified remainder |
| AuthservGrammar.SkipIff | cmd/sworn-milter/authserv.go:122-137 | What is left after skipping is a non-empty r exactly when the value is a string of comments (nested, with escapes) and white space, as in section 3.2.2 of RFC 5322, followed by r, and r begins with neither |
| AuthservGrammar.SkipEmptyIff | cmd/sworn-milter/authserv.go:120-137 | Nothing is left exactly when the value is comments and white space alone, or those followed by a comment that never closes |
| Authserv.AuthservIdOf | cmd/sworn-milter/authserv.go:96-118 | The bare and the quoted scan compute the specified strict id |
| AuthservGrammar.StrictIff | cmd/sworn-milter/authserv.go:96-137 | The strict reading is x exactly when the value is comments and white space followed by x as a bare id or as a quoted string with any escapes |
| AuthservGrammar.StrictFormsClaim | cmd/sworn-milter/authserv.go:14-43 | Every such spelling of our id, in any letter case and with or without one trailing dot, is claimed |
| Authserv.LeadingToken | cmd/sworn-milter/authserv.go:64-84 | The loose scan computes the specified token in each of its five modes |
| AuthservGrammar.PlainValueAgrees | cmd/sworn-milter/authserv.go:52-103 | On a value that starts with a token the strict reading and all loose ones return that token |
| AuthservGrammar.PlainValueClaims | cmd/sworn-milter/authserv.go:14-43 | On such values the claim is exactly: an encoded-word starts somewhere, or the token is our id |
| AuthservGrammar.FirstRunClaims | cmd/sworn-milter/authserv.go:60-84 | No run of bytes outside the token alphabet put before our id hides it |
| Authserv.ClaimsId | cmd/sworn-milter/authserv.go:14-43 | The claim is that an encoded-word starts somewhere or one of the six readings is our id |
| ClaimMeaning.EncodedWordIff | cmd/sworn-milter/authserv.go:24 | A value holds an encoded-word exactly when it is some text, =?, a charset without a question mark, ?, b or q in either case, ? and some text |
| ClaimMeaning.EncodedWordClaims | cmd/sworn-milter/authserv.go:14-24 | Every such value claims every id |
| ClaimMeaning.TokenByteIff | cmd/sworn-milter/authserv.go:87-89 | The token characters are the letters, the digits and seventeen marks |
| ClaimMeaning.SameIdIff | cmd/sworn-milter/authserv.go:40-43 | A reading is our id exactly when both, each without one final dot, are equal but for letter case and not empty |
| ClaimMeaning.ClutteredIdClaims | cmd/sworn-milter/authserv.go:46-84 | Our id is claimed behind any characters no token has and any comments, whether comments nest or not and know escapes or not |
| Milter.SwornMilter.OnConnect | cmd/sworn-milter/milter.go:47-52 | The source is kept, unmapped, when the address is one |
| Milter.SwornMilter.OnMailFrom | cmd/sworn-milter/milter.go:57-60 | A new message forgets the positions and the count, and nothing else |
| Milter.SwornMilter.OnHeader | cmd/sworn-milter/milter.go:62-70 | A result field is counted, and its position remembered when it claims our id |
| Milter.SwornMilter.OnBody | cmd/sworn-milter/milter.go:72-85 | Deletions from the last remembered position down, then our result in front; the state is unchanged |
| Milter.SwornMilter.Evaluate | cmd/sworn-milter/milter.go:88-96 | Our result for the captured source: discovery without a public-suffix list, printed, or none without a source |
| Session.ShiftingStrips | cmd/sworn-milter/milter.go:73-77 | On a server that renumbers after a deletion, the downward deletions leave exactly the fields that do not claim our id, in order |
| Session.FixedStrips | cmd/sworn-milter/milter.go:73-77 | On a server that does not renumber, the same deletions leave the same fields |
| Session.KeptIff | cmd/sworn-milter/milter.go:62-70 | A field is left in a message exactly when its lowered name is not authentication-results or its value does not claim our id |
| Session.MailRun | cmd/sworn-milter/milter.go:57-85 | From whatever an earlier or aborted message left behind, a message yields exactly the changes for its own forged fields, and the source survives |
| Session.SessionStrips | cmd/sworn-milter/milter.go:47-85 | Over every session of one connection and any number of finished or aborted messages, each finished message becomes our result for the connecting source followed by exactly the fields that did not claim our id, on either kind of server |
| Items.PayloadKeys | sworn/token.go:194-218 | The key loop succeeds exactly on maps whose keys are all integers it can hold, none twice, and then finds under each key what the map holds there |
| Token.DecodePayload | sworn/token.go:372-431 | Decoding gives malformed exactly when no set of readable fields is carried, and otherwise the verdict on those fields |
| Token.ProtectedHeaders | sworn/token.go:485-526 | The header checks in order, over every unprotected label, as one outcome: the first fault or the lowered selector |
| TokenMeaning.HeadersIff | sworn/token.go:485-526 | Headers are accepted with a selector exactly when label 2 is absent, no label is in both buckets and 1, 3 and 4 are not unprotected, label 1 is -8 or -19, label 3 the text application/sworn-token+cbor, and label 4 the bytes of one valid label that lowers to the selector |
| TokenMeaning.HeaderFaultIs | sworn/token.go:485-526 | Otherwise the error is that of the first of these groups that fails |
| TokenMeaning.CarriesIff | sworn/token.go:372-412 | A payload map carries fields exactly when its keys are distinct 64-bit integers and the entries under 1 to 6 read as those fields, the unit being 64 when 3 is absent, with a valid operator |
| TokenMeaning.ItemReads | sworn/token.go:372-412 | An entry reads under a type only when it is of that type, and as an octet only below 256; the library decides only about items that are neither text, bytes, integers nor tagged |
| Token.PrepareVerification | sworn/token.go:625-674 | The staged checks compute the specified preparation |
| TokenProofs.ClampingAgreesIff | sworn/token.go:347-430 | Clamping leaves every verdict as it is on unbounded times, for all raw times that pass the bounds, exactly at the moments before 2^62 - 300 seconds |
| TokenProofs.PreparesIff | sworn/token.go:372-674 | Before that horizon any token, signed by whomever, prepares exactly when it is at most 3072 bytes and decodes, its labels hold what HeadersIff lists, and the entries of its payload say fields in order on unbounded times: role, attestable prefix, lifetime, unit, eligible source inside the prefix, clock within the window |
| Refusals.HeadersRefused | sworn/token.go:625-674 | A token of admissible size whose headers do not fit is refused with the header error |
| Refusals.FieldsRefused | sworn/token.go:625-674 | One whose headers fit is refused for the first fault of its fields: role, prefix, or times |
| Refusals.SourceRefused | sworn/token.go:625-674 | One whose fields have no fault is refused for the first of unit, source, prefix and clock that fails, on unbounded times, and prepares when none does |
| TokenProofs.WindowFits | sworn/token.go:421-430 | No clamped time, widened by the tolerance, leaves the range of a 64-bit time; some unclamped one does |
| TokenProofs.SignedDecodes | sworn/token.go:354-431 | What Sign encoded decodes to the same payload with its operator lowered and its times in clamped seconds, except that a time before 1970 is malformed and a lifetime that rounds to nothing is bad validity |
| Refusals.SignIff | sworn/token.go:440-480 | Sign succeeds exactly on a valid selector, a lifetime of more than nothing and at most 24 hours, one of the three roles, an attestable prefix, a unit from its length to 64 and equal to it for an esp-tenant, and a valid operator |
| Refusals.SignFaultIs | sworn/token.go:440-480 | Otherwise it fails by the first of these that does not hold |
| Refusals.SignedMessageIs | sworn/token.go:469-480 | The message emitted has in its protected headers the algorithm -8, the content type and the lowered selector and nothing else, nothing unprotected, and the signature the signer made of those headers and the payload |
| TokenProofs.SignedSelector | sworn/token.go:473-525 | The headers Sign writes are accepted and name the lowered selector |
| TokenProofs.SignedFits | sworn/token.go:440-480 | Every token Sign emits is short enough to be decoded |
| TokenProofs.SignedPreparesIff | sworn/token.go:440-674 | A signed token prepares exactly when its encoded times are in order and not negative, the source is eligible and in the prefix, and the clock is within the window |
| TokenProofs.SignedPrepares | sworn/token.go:440-674 | With times in [0, 2^62) seconds and a lifetime of a second or more, it prepares for every eligible source in its prefix from 300 seconds before issue to 300 after expiry |
| TokenProofs.SubsecondNeverPrepares | sworn/token.go:444-448 | A signed lifetime that rounds to nothing never prepares |
| Instances.SubsecondExample | sworn/token.go:444-448 | A concrete payload that Sign accepts and that no verifier prepares, for any source, moment or receiver |
| TokenProofs.PreparedNests | sworn/token.go:643-673 | A prepared token nests the source, the observed /64, the declared unit and the signed prefix |
| TokenProofs.VerifySound | sworn/token.go:596-792 | A report means an eligible source in the observed /64, that in the unit, that in the signed prefix, that in one single valid policy prefix; the policy's unit; operator, prefix and unit of the payload the message carries and selector of its headers; a signature of that message the key verifies; and a pass exactly when the policy is not testing |
| Refusals.OutcomeIs | sworn/token.go:596-792 | A prepared token is refused for its prefix when the policy does not cover it, else for its unit, else for its signature; otherwise it is reported, as a pass exactly when the policy is not testing |
| Instances.VerificationHappens | sworn/token.go:725-735 | The premises of the verifier's results can be met: a signed one-second token passes whenever its key verifies it |

## Left out

- Ed25519 itself, small-order points and COSE signing: a signature is what the `verifies` predicate accepts, and the point tests are parameters.
- The bytes of CBOR and COSE: a message is what the library decodes; `TokenProofs.SignedFits` counts lengths by section 3 of RFC 8949. That marshalling and unmarshalling give the same message back is a property of those libraries. A payload that is no map at all is read like one with a bad key, and a key or value is taken as the library presents it.
- Errors that `cose.NewSigner` and `cose.NewVerifier` raise on keys of a wrong kind.
- The source of Go's net/netip and encoding/base64 is not part of the repository: `AddrText` and `Base64` model what those packages document.
- The names of IPv6 zones: an address has a zone or has none, and a prefix has none.
- The regular expression engine: the one expression used is the predicate `HasEncodedWord`.
- Bytes outside ASCII: records, names and ids are sequences of characters compared with ASCII letter case only, and white space is the ASCII white space that `strings.TrimSpace` removes.
- Real DNS, contexts, timeouts and resolver search lists: a network is any function of the query history, with found, not-found and failed answers.
- The go-milter server, its negotiation and the errors of its modification calls, which the code ignores.
- Token.Verify: models the staged verifier with a receiver's own ineligible prefixes; `Verify` of the original is the case without any, and `ParseUnverified` and `VerifySignatureOnly` are shorter chains of the same steps.
- Genrecord.BuildRecords: does not produce the advisory notes (`notes`, `txtChunks`, `relativeName`, `explainPrefix`) or the wording of errors; its outcome names the rule that was broken.
- Record.ParseRecord: returns the key alone, since the version and the algorithm of an accepted record are constants.
- ParseIneligiblePrefixes and parsePrefixes: the lists they read from configuration and the command line are arguments here, and every theorem is about any such list.
- The `Reason` mapping, JSON output, key files, flags and printing: no decision modelled here reads them.
- cmd/genvectors, cmd/difftest and cmd/recorddiff: they feed fixed inputs to the functions modelled here, whose theorems are about every input.
- The order in which Go visits a map in payloadKeys and protectedHeaders: the loops run over a sequence and over a set, and the outcomes proved do not depend on the order.
- Items.PayloadKeys: the refusal of repeated keys, which the decoder performs before the loop, is part of the method.
