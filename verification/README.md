# Certificate transparency, chain reassembly and linting: a verified model

This project models the parts of the pkix workspace in which a small mistake would
be hard to see, and proves what they promise.

* **Certificate transparency** (`pkix-ct`). The bottom-up loop that verifies a Merkle
  inclusion proof is related to the recursive tree hash and audit path of sections 2.1
  and 2.1.1 of RFC 6962: every genuine proof is accepted, and an accepted proof is genuine
  or names a hash collision. The hash is an arbitrary function and is never assumed to be
  injective; `FindCollision` computes the two colliding strings from the proof and the tree. The builders
  of leaves and signed inputs, the SCT list parser and the log-list timestamps feed the
  same pipeline.
* **Chain verification** (`pkix-chain`). The reassembly loop, its fetch batches and the
  revocation walk, with an arbitrary fetcher, builder, validator and checker: safety of
  every run, progress with an ideal environment, and the exact point at which the depth
  limit ends a run.
* **Identities** (`pkix-identity`). The IP literal readers and the matching of DNS names,
  against the text forms of RFC 4291 and the label rule of RFC 6125.
* **Lint arithmetic and waivers** (`pkix-lint-cabf`, `pkix-lint`). The DER length reader
  and RSA bit length, the numeric order of serial numbers, the choice of a waiver, and the
  bookkeeping that sets findings aside.

Code that changes variables in the source is a method with a loop, or a class where the
source has an object with state (`SctList.Cursor`, `Deviation.WaiverStore`). Each such
method is proved equal to a function on values, or against a relation, and the guarantees
are lemmas about those. What such a function means is then stated once more without it: in
the octets of the RFC, in a table of digits, in the names of certificates, in the calls of
a checker (`AiaBatches`, `IpForms`, `DnsForms`, `TimestampForms`, `WaiverForms`, and the
layout and outcome lemmas of the other modules). Modules are ordered by subject; `Bytes`,
`Bits`, `Text` and `Outcomes` hold what several of them share.

`{:induction false}` marks the lemmas that recurse and those others on which Dafny 4.11
would guess an induction: over sequences of datatypes the hypothesis it generates asserts
the element type without a guard, which can make a proof hold for the wrong reason.

Where code and documentation differ, the model follows the code:

* The documentation of `verify_inclusion` says that changing the tree size of a proof
  surfaces as "invalid". That holds if and only if the new size is positive and leaves the
  leaf index outside the tree (`InclusionGuarantees.ChangedSizeIsInvalid`). Size zero is
  malformed, and with the index inside the tree the proof stays accepted or is malformed;
  `InclusionGuarantees.ChangedTreeSize` says which, for every size.
* The comments in `days_from_civil` give the day of the year as 0 to 365 and the day of
  the era as 0 to 146096. The day is not checked against the month, so 30 and 31 February,
  and no other inputs, pass 365: `Calendar.DayOfYearRange` and
  `Calendar.IntermediateRanges` give the exact conditions.
* The documentation of `DeviationRunner::run_path` says the first match wins. The lookup it
  calls takes the highest priority and only then the earliest. The first match wins if and
  only if no later one has a higher priority (`Deviation.FirstMatchWins`), and
  `Deviation.FirstMatchLoses` is a store of two waivers where it does not. `run_path` itself
  is left out; the lookup and the loop around it are not.

## Model

| member | source | states |
|---|---|---|
| MerkleTree.SplitPointIsLargestPower | pkix-ct/src/verify.rs:645-652 | the split of the recursive tree is the largest power of two below the number of leaves, as RFC 6962 defines it |
| MerkleTree.RootOfNextLevel | pkix-ct/src/verify.rs:686-704 | replacing a level by the level above it, an unpaired last node promoted, keeps the tree hash |
| MerkleTree.PathOfNextLevel | pkix-ct/src/verify.rs:686-704 | an audit path is the sibling on the lowest level, absent for a promoted node, followed by the audit path of the parent |
| MerkleTree.TreeHashByRfc | pkix-ct/src/verify.rs:718-746 | the hash of an entry is that of octet 0 and the entry, one leaf is its own tree, and more leaves hash to octet 1 followed by the hashes of the two parts, split at 2^s for 2^s < n <= 2^(s+1) |
| MerkleTree.AuditPathByRfc | pkix-ct/src/verify.rs:645-652 | the audit path of a leaf is the one in its own part followed by the tree hash of the other part, as section 2.1.1 of RFC 6962 defines it |
| MerkleTree.NodesAreNotEntries | pkix-ct/src/verify.rs:718-746 | every string that the tree hashes for a node is 65 octets that start with 1, so none is hashed for an entry |
| MerkleTree.PairIsHashedByTree | pkix-ct/src/verify.rs:718-727 | every string hashed for a pair on a level is hashed by the recursive tree |
| InclusionProof.VerifyInclusion | pkix-ct/src/verify.rs:653-715 | the loop with its up-front length bound answers as the recursion over levels does: malformed, invalid or accepted |
| InclusionGuarantees.OutcomeTable | pkix-ct/src/verify.rs:653-715 | for every proof and root: malformed for size zero, invalid for an index outside the tree, malformed for a path of the wrong length, and accepted or invalid for one of the right length |
| InclusionGuarantees.TwoLeaves | pkix-ct/src/verify.rs:676-727 | in a log of two leaves a one-hash proof is accepted if and only if the root is the hash of octet 1, the left and the right leaf, for either index |
| InclusionGuarantees.ThirdLeaf | pkix-ct/src/verify.rs:676-727 | the promoted third leaf of three is accepted if and only if the root is the hash of octet 1, its one sibling and itself |
| InclusionGuarantees.ClimbHashesNoEntry | pkix-ct/src/verify.rs:676-727 | no string that verification hashes on the way up is a leaf input |
| InclusionProof.ClimbAuditPath | pkix-ct/src/verify.rs:676-714 | from every leaf of every tree the audit path of RFC 6962 leads to the tree hash |
| InclusionProof.LoopInvariant | pkix-ct/src/verify.rs:676-704 | on a genuine proof, after a total shift of s the siblings used are the beginning of the audit path, the counters are i >> s and (n - 1) >> s, and the hash so far is the tree hash of the leaves from (i >> s) * 2^s on, 2^s of them or those left at the right edge, through every promotion |
| InclusionProof.ClimbSound | pkix-ct/src/verify.rs:676-714 | a path that leads to the tree hash starts at that leaf and is its audit path, or the collision that is computed is one between a string the verifier hashed and one the log hashed |
| InclusionProof.ClimbChecksLength | pkix-ct/src/verify.rs:676-710 | the climb has an answer exactly when the path has one hash per level that is not a promotion |
| InclusionProof.PathLengthBound | pkix-ct/src/verify.rs:664-674 | that length is at most the bit length of the last index, so the up-front bound changes no outcome |
| InclusionProof.PathLengthInBits | pkix-ct/src/verify.rs:676-710 | that length is b + popcount(i >> b) with b the bit length of i xor (n - 1) |
| InclusionGuarantees.GenuineProofAccepted | pkix-ct/src/verify.rs:653-715 | for every non-empty log and every entry the genuine proof is accepted |
| InclusionGuarantees.AcceptedProofIsGenuine | pkix-ct/src/verify.rs:653-715 | a proof accepted against the tree hash of a log of its tree size is the genuine one for the leaf at its index, or a collision is named |
| InclusionGuarantees.MalformedIsWrongLength | pkix-ct/src/verify.rs:664-710 | inside the tree, malformed means exactly a wrong path length, and the right one is at most ceil(log2 n) |
| InclusionGuarantees.GenuinePathLength | pkix-ct/src/verify.rs:664-710 | the audit path of RFC 6962 has that length |
| InclusionGuarantees.ChangedTreeSize | pkix-ct/src/verify.rs:446-454 | for an accepted proof and every other tree size: malformed for zero, invalid when the index falls outside, accepted when the old and new last index depart from the leaf index at the same bit, malformed otherwise |
| InclusionGuarantees.ChangedSizeIsInvalid | pkix-ct/src/verify.rs:446-454 | the documented outcome, invalid, occurs if and only if 0 < size <= leaf index |
| InclusionGuarantees.ThreeLeavesOrFour | pkix-ct/src/verify.rs:446-454 | a proof of leaf 0 accepted for three leaves is accepted for four |
| InclusionGuarantees.AcceptedLeafIsLogEntry | pkix-ct/src/verify.rs:653-745 | a leaf accepted at an index of a log is that log entry, octet for octet, so the entry carries that timestamp, entry and extensions and no others, or a collision is exhibited |
| CtEncoding.BuildSignedInputX509Entry | pkix-ct/src/verify.rs:915-942 | the pushes produce the digitally-signed layout, or the certificate is reported too long above 2^24 - 1 octets |
| CtEncoding.BuildSignedInputPrecertEntry | pkix-ct/src/verify.rs:959-983 | the same for a precertificate entry |
| CtEncoding.BuildSignedInputTreeHead | pkix-ct/src/verify.rs:543-551 | the pushes produce the tree-head layout |
| CtEncoding.BuildMerkleTreeLeafX509Entry | pkix-ct/src/verify.rs:824-846 | the pushes produce the MerkleTreeLeaf layout, or the certificate is too long |
| CtEncoding.BuildMerkleTreeLeafPrecertEntry | pkix-ct/src/verify.rs:851-875 | the same for a precertificate entry |
| CtEncoding.SignedInputInjective | pkix-ct/src/verify.rs:543-551 | equal signed inputs mean the same kind of object and equal fields, across entries of both kinds and tree heads |
| CtEncoding.MerkleTreeLeafInjective | pkix-ct/src/verify.rs:824-875 | equal leaves mean equal timestamp, entry and extensions |
| CtEncoding.LeafIsSignedInput | pkix-ct/src/verify.rs:818-823 | a leaf and the signed input for the same entry are the same octets |
| CtEncoding.X509Layout | pkix-ct/src/verify.rs:824-846 | where each field of a certificate leaf stands, in octets: two zeros, 8 octets of time, entry type 0, a 3-octet length, the certificate, a 2-octet length, the extensions |
| CtEncoding.PrecertLayout | pkix-ct/src/verify.rs:851-875 | the same for a precertificate leaf: entry type 1, then 32 octets of issuer key hash and the body under its 3-octet length |
| CtEncoding.TreeHeadLayout | pkix-ct/src/verify.rs:543-551 | a signed tree head is octets 0 and 1, the time, the size and the root hash, 50 octets |
| CtEncoding.ReaderRecoversLeaf | pkix-difftest/python/fetch-ct.py:184-225 | the independent reader finds in a leaf the entry kind, the timestamp, the certificate and the length of the extensions |
| SctList.Cursor.ReadBytes | pkix-ct/src/sct.rs:249-256 | returns and removes the first n octets, or fails and leaves the cursor alone |
| SctList.Cursor.ReadU16Prefixed | pkix-ct/src/sct.rs:274-277 | returns and removes a length-prefixed string, and the error is truncation otherwise |
| SctList.ReadSct | pkix-ct/src/sct.rs:136-161 | reads one SCT from the front of the cursor as the format says |
| SctList.FromBytes | pkix-ct/src/sct.rs:127-134 | reads one SCT and nothing after it |
| SctList.FromSerializedList | pkix-ct/src/sct.rs:209-231 | the nested cursor loops return what the recursive reading of the format returns, errors included |
| SctList.TakeSerializedSct | pkix-ct/src/sct.rs:136-161 | a serialized SCT followed by anything is read back, and the rest is left over |
| SctList.TakenSctSerializes | pkix-ct/src/sct.rs:136-161 | an SCT that was read serializes to the octets consumed |
| SctList.ParseSerializedList | pkix-ct/src/sct.rs:209-231 | parse(serialize(l)) = l for every non-empty list within the 16-bit bounds |
| SctList.ParsedListSerializes | pkix-ct/src/sct.rs:209-231 | serialize(parse(b)) = b for every accepted b |
| SctList.AcceptedExactly | pkix-ct/src/sct.rs:209-231 | b is accepted as l if and only if l fits the format and b is its serialization |
| SctList.NoAcceptedPrefix | pkix-ct/src/sct.rs:209-231 | strict prefixes and strict extensions of accepted strings are refused as truncated or trailing |
| SctList.SctLayout | pkix-ct/src/sct.rs:136-161 | where each field of a serialized SCT stands, in octets |
| SctList.SctOutcome | pkix-ct/src/sct.rs:127-161 | an SCT is read exactly from its serialization; anything else is refused for its version when its first octet is not 0, and as truncated or trailing otherwise |
| SctList.EmptyListOnly | pkix-ct/src/sct.rs:209-231 | a parse error is reported if and only if the input is the two octets of the empty list |
| SctList.ForeignVersionIsNamed | pkix-ct/src/sct.rs:209-231 | a version is reported as unsupported if and only if complete SCTs are followed by one of that version, which is not 0 |
| Calendar.DaysFromCivilCounts | pkix-ct/src/log_list.rs:372-383 | for every year, and every month and day number accepted, the closed form is the day-by-day Gregorian count, and the rest is an error |
| Calendar.DaysFromCivilIsExact | pkix-ct/src/log_list.rs:372-383 | for a valid date the source computes n if and only if counting n days from 1970-01-01 leads to that date |
| Calendar.Landmarks | pkix-ct/src/log_list.rs:411-418 | the three dates that the tests of the source pin |
| Calendar.DayOfYearRange | pkix-ct/src/log_list.rs:380-380 | the day of the year stays within the documented 365 if and only if the date is not 30 or 31 February, which give 366 and 367 |
| Calendar.NextDayIsOneMore | pkix-ct/src/log_list.rs:372-383 | the next calendar day counts exactly one more |
| Calendar.DayNumberOfDateOf | pkix-ct/src/log_list.rs:372-383 | stepping n days from the epoch in either direction reaches day number n |
| Calendar.DayNumberMonotone | pkix-ct/src/log_list.rs:372-383 | earlier dates have smaller numbers |
| Calendar.IntermediateRanges | pkix-ct/src/log_list.rs:376-382 | the year of the era lies in 0 to 399, so its cast is exact, and the day of the era within the documented 146096, except on those two dates in the last year of an era |
| Timestamp.ParseDigits | pkix-ct/src/log_list.rs:354-366 | the checked accumulation is the decimal value, an error for a non-digit or above 32 bits |
| Timestamp.ParseRfc3339ToUnixMs | pkix-ct/src/log_list.rs:314-352 | the reader returns the millisecond its fields denote, and every error case is the one of the source |
| TimestampForms.TimestampExactly | pkix-ct/src/log_list.rs:314-352 | a text is read as v if and only if it has six digit fields at their places, month and day in range, one of the two tails, and denotes v from the epoch on; the octets between the fields other than the T, between two Zs, and past three fraction characters are not looked at |
| Timestamp.FormatRoundTrip | pkix-ct/src/log_list.rs:314-352 | every moment of the years 0 to 9999, printed with milliseconds, is read back, and refused if and only if it lies before the epoch |
| TimestampForms.FractionRoundsDown | pkix-ct/src/log_list.rs:329-352 | with n digits f after the dot, 1 <= n <= 6, the text is read as second * 1000 + f * 1000 / 10^n rounded down, and refused only before the epoch |
| TimestampForms.RefusalsAreParseErrors | pkix-ct/src/log_list.rs:314-366 | every refusal is the parse error |
| Timestamp.ParseWholeSecond | pkix-ct/src/log_list.rs:329-352 | the form without a fraction denotes the whole second |
| Timestamp.TimestampRoundTrip | pkix-ct/src/log_list.rs:314-352 | every millisecond from 1970 through 9999, printed, is read back |
| Timestamp.TextOrderIsTimeOrder | pkix-ct/src/log_list.rs:314-352 | on printed timestamps text order and numeric order agree, in both directions |
| AiaChain.PushNewUris | pkix-chain/src/lib.rs:660-664 | the inner loop adds the URIs not tried before, each once, in order, and marks them tried |
| AiaChain.CollectNewUris | pkix-chain/src/lib.rs:655-665 | the batch is the untried URIs of the certificates without an issuer, each once, in order |
| AiaChain.AbsorbResponses | pkix-chain/src/lib.rs:679-701 | the responses paired with a URI extend the pool in order, and the last failure is kept |
| AiaChain.HasIssuer | pkix-chain/src/lib.rs:1719-1730 | found unless the prepared name of the issuer differs from that of every pool certificate and of every anchor |
| AiaChain.BuildWithAia | pkix-chain/src/lib.rs:607-731 | result and batches are those of at most five rounds and one more attempt |
| AiaBatches.BatchExactly | pkix-chain/src/lib.rs:655-665 | over any run a batch holds a URI if and only if no earlier batch did and a certificate of its pool carries it whose issuer's prepared name is that of no pool certificate and no anchor |
| AiaBatches.BatchOrder | pkix-chain/src/lib.rs:655-665 | of two URIs of a batch of any run the first one appears first, going through the pool in order |
| AiaBatches.UrisOfOne | pkix-chain/src/lib.rs:656-660 | a certificate contributes all its URIs in order when its issuer is missing, and none otherwise |
| AiaBatches.RoundWithoutFetching | pkix-chain/src/lib.rs:619-650 | what each answer of the builder but "no path" makes of a round: the chain, the chain by topology alone, or the builder's error |
| AiaBatches.RoundWithoutUris | pkix-chain/src/lib.rs:667-674 | no path and no new URI: the last fetching error if any, else no path found |
| AiaBatches.RoundWithUris | pkix-chain/src/lib.rs:676-710 | no path and a new URI: one batch, its certificates added in order, and when there are none the error of the last response |
| AiaBatches.RunEndsAsBuilt | pkix-chain/src/lib.rs:607-731 | every run ends in what the builder says of the final pool, in the depth error after five batches that each brought a certificate, or in a fetching error; an empty chain has no path and nothing is fetched |
| AiaGuarantees.RunIsSafe | pkix-chain/src/lib.rs:607-731 | for any environment: at most five batches; no URI fetched twice; each URI from a pool certificate whose issuer's name was that of no pool certificate and no anchor; the depth error only after five batches that each added a certificate |
| AiaGuarantees.FailingFetcherAskedOnce | pkix-chain/src/lib.rs:676-709 | a fetcher that brings no certificate is asked at most once, and the run ends with the error of the last response to that batch |
| AiaGuarantees.LastFailureIsReported | pkix-chain/src/lib.rs:679-709 | that error is the last failure, an unparsable certificate counting as one, and fetching disabled when there was no response |
| AiaGuarantees.RoundClosesGap | pkix-chain/src/lib.rs:619-710 | while the path is incomplete an ideal environment makes a round fetch and the gap shrink |
| AiaGuarantees.GapUpToDepthIsClosed | pkix-chain/src/lib.rs:607-731 | with distinct names, an ideal builder and a resolving fetcher a gap of up to five levels is always closed |
| AiaGuarantees.LoneLeafExactly | pkix-chain/src/lib.rs:712-730 | from the leaf alone the path is completed if and only if at most five levels are missing, with one batch per level, so that with five all rounds fetch and the attempt after the loop completes it; otherwise the depth error after five batches |
| AiaGuarantees.SettingOfEveryLength | pkix-chain/src/lib.rs:607-731 | such environments exist for paths of every length, so both outcomes occur |
| ChainVerify.RunRevocationChecks | pkix-chain/src/lib.rs:579-596 | the early-exit loop succeeds when each certificate passes against its successor and the last against the anchor, and else reports the code of the first that fails |
| ChainVerify.WalkStopsAtFirstFailure | pkix-chain/src/lib.rs:579-596 | success means all checks were performed and passed; failure means those before the last performed passed and that one failed |
| ChainVerify.VerifyOne | pkix-chain/src/lib.rs:549-574 | answers as the fast path and the reassembled path do |
| ChainVerify.PoolIsSourced | pkix-chain/src/lib.rs:607-731 | whatever the fetcher answers, every certificate of the final pool was supplied or came as the answer to a URI of a batch |
| ChainVerify.VerifiedMeansChecked | pkix-chain/src/lib.rs:549-596 | acceptance means validation accepted a chain headed by the caller's leaf, each certificate of it supplied or brought by a batch, certificate i passed against certificate i + 1, and the last against the reported anchor |
| ChainVerify.FastPathIsFinal | pkix-chain/src/lib.rs:555-596 | a chain that validates is accepted exactly when every check passes, and else refused with the code of the first failing one; an unrecoverable fault is reported as it is; in both cases nothing is fetched |
| ChainVerify.SlowPathOutcome | pkix-chain/src/lib.rs:562-573 | a broken chain, no trusted path or an invalid signature leads to reassembly; its error, the error of validating what it built, or the checks of that chain decide |
| ChainVerify.OneDecision | pkix-chain/src/lib.rs:579-596 | that outcome is unique: success if and only if every check passes, and only the first failure's code otherwise |
| ChainVerify.ShimSkipsExactlyLeaf | pkix-chain/src/lib.rs:1512-1546 | under unique issuer and serial the walk with the shim is the inner walk with exactly index 0 skipped |
| ChainVerify.ShimOfOthers | pkix-chain/src/lib.rs:1518-1546 | where the shim does not match it changes nothing |
| ChainVerify.VerifyOcspResponder | pkix-chain/src/lib.rs:1317-1365 | empty chain, verification under the shim, then delegation by name and signature, in that order |
| ChainVerify.ResponderExactly | pkix-chain/src/lib.rs:1317-1365 | a responder chain that validates is verified if and only if every certificate passes the caller's own check, except those with the issuer and serial of a responder that carries the no-check extension |
| ChainVerify.AcceptedResponderIsChecked | pkix-chain/src/lib.rs:1317-1365 | in every accepted responder chain, reassembled or not, certificate i passed against certificate i + 1 and the last against the anchor, except a responder with the no-check extension |
| IpText.ParseIpv4 | pkix-identity/src/lib.rs:889-910 | the loop accepts exactly four parts that are octets without leading zeros |
| IpText.ParseIpv6 | pkix-identity/src/lib.rs:912-994 | the loop returns what scanning and assembling the parts returns |
| IpForms.Ipv4ByTable | pkix-identity/src/lib.rs:889-910 | a text is read as four octets if and only if it is four numerals between dots, each its octet in decimal without leading zeros, or a plus sign and digits that write it |
| IpForms.GroupByTable | pkix-identity/src/lib.rs:955-965 | a group is the number that its one to four hexadecimal digits write, upper or lower case, by a table of the digits; with a plus sign in front one digit fewer |
| IpForms.Ipv6ByTable | pkix-identity/src/lib.rs:912-994 | a text is read as sixteen octets if and only if it is eight groups, or fewer with one `::`, and the octet pairs are the numbers of the groups by the digit table and zeros for the `::`; one stray colon at the end is let through |
| IpGuarantees.DisplayRoundTrip | pkix-identity/src/lib.rs:306-330 | every IP identity survives display followed by `ip_address` |
| IpForms.DisplayByTable | pkix-identity/src/lib.rs:306-330 | an IPv4 identity is shown as decimals between dots, an IPv6 one as the eight octet pairs in hexadecimal between colons and brackets |
| IpForms.AddressKinds | pkix-identity/src/lib.rs:268-280 | a zone is refused, one pair of brackets comes off, and a colon decides between the two readers |
| DnsMatch.ValidateAsciiDns | pkix-identity/src/lib.rs:784-798 | the loop over octets accepts exactly the names all of whose labels are valid |
| DnsMatch.ValidateAsciiLabel | pkix-identity/src/lib.rs:800-817 | length, hyphens at the ends, and characters |
| DnsForms.NameExactly | pkix-identity/src/lib.rs:784-817 | at most 253 octets, labels of 1 to 63 letters, digits, hyphens and underscores of written-out alphabets, no hyphen at either end |
| DnsForms.NormalizedAsciiExactly | pkix-identity/src/lib.rs:753-780 | an ASCII text is normalized if and only if it is such a name with or without one final dot, to its lower case |
| DnsForms.NormalizedOtherExactly | pkix-identity/src/lib.rs:753-780 | any other text is normalized if and only if it has no star and its IDNA form is such a name, to that form |
| DnsForms.SameTextExactly | pkix-identity/src/lib.rs:831-872 | comparing ignoring case is comparing letter by letter, each with itself or its other case in the alphabet |
| DnsMatch.NormalizedIsValid | pkix-identity/src/lib.rs:753-780 | a normalized target is a valid name |
| DnsMatch.MatchIsLabelRule | pkix-identity/src/lib.rs:831-872 | string matching equals the label rule of section 6.4.3 of RFC 6125 |
| DnsMatch.NormalizedMatchIsLabelRule | pkix-identity/src/lib.rs:753-872 | the same for every target that normalization produces |
| RsaKey.ParseDerLength | pkix-lint-cabf/src/cabf_tls_br.rs:428-445 | the accumulation is the big-endian value of one to four octets, and every refusal is the source's |
| RsaKey.PeelExactly | pkix-lint-cabf/src/cabf_tls_br.rs:411-445 | peeling yields a value and a rest if and only if the input is a definite-length encoding of that value followed by that rest |
| RsaKey.EveryLengthEncodes | pkix-lint-cabf/src/cabf_tls_br.rs:428-445 | every length below 2^32 has such an encoding |
| RsaKey.RsaModulusBitLen | pkix-lint-cabf/src/cabf_tls_br.rs:377-407 | the stripping loop returns the bit length of the modulus as a number, none for zero |
| RsaKey.ModulusBitsBracket | pkix-lint-cabf/src/cabf_tls_br.rs:377-407 | the result k satisfies 2^(k-1) <= modulus < 2^k |
| RsaKey.LintIsNumeric | pkix-lint-cabf/src/cabf_tls_br.rs:340-363 | for every well-formed key the lint passes if and only if modulus >= 2^2047 |
| RsaKey.PassingKeyIsWellFormed | pkix-lint-cabf/src/cabf_tls_br.rs:340-445 | only a well-formed key of such a modulus passes |
| Serial.SerialOrderIsNumeric | pkix-lint/src/deviation.rs:865-874 | comparing any two serial numbers with any padding is comparing their big-endian values |
| Deviation.SerialRangeIsNumeric | pkix-lint/src/deviation.rs:728-748 | a serial-range scope holds exactly the certificates of its issuer with start <= serial <= end |
| WaiverForms.ContainsScope | pkix-lint/src/deviation.rs:691-714 | an issuer-substring scope covers a certificate if and only if the lowered text of its issuer is some text, the substring and some text |
| WaiverForms.ExactScope | pkix-lint/src/deviation.rs:715-724 | an exact-issuer scope covers a certificate if and only if its name decodes and agrees with the issuer after preparation |
| WaiverForms.RangeScope | pkix-lint/src/deviation.rs:725-748 | a serial-range scope covers a certificate if and only if its issuer agrees and start <= serial <= end as numbers; a missing or mistyped property covers nothing |
| WaiverForms.CoverExactly | pkix-lint/src/deviation.rs:334-349 | a waiver applies if and only if the lint is its own, start <= now < end for the bounds it has, and its scope covers the certificate; to a chain, if and only if it applies to some certificate of it |
| WaiverForms.RefusalByTable | pkix-lint/src/deviation.rs:987-1007 | an empty justification, an empty author, a duplicate id and a malformed scope are refused, in this order |
| WaiverForms.StoredSubstring | pkix-lint/src/deviation.rs:1022-1030 | the store changes nothing but the issuer substring, so that a stored waiver covers a certificate when both texts agree in lower case |
| Deviation.LoweredProp | pkix-lint/src/deviation.rs:1022-1030 | storing a waiver lowers its issuer substring and changes no other property |
| Deviation.WaiverStore.Add | pkix-lint/src/deviation.rs:987-1033 | refuses in the source's order with the store unchanged, or appends the stored waiver and keeps ids unique |
| Deviation.WaiverStore.FindDeviation | pkix-lint/src/deviation.rs:1090-1112 | the loop's choice among the waivers that fit a certificate |
| Deviation.WaiverStore.FindDeviationForChain | pkix-lint/src/deviation.rs:1133-1152 | the loop's choice among the waivers that fit some certificate of a chain |
| Deviation.ChoiceIsBest | pkix-lint/src/deviation.rs:1090-1112 | the choice has the highest priority and is the earliest of those, and there is none only when none fits |
| Deviation.FirstMatchWins | pkix-lint/src/deviation.rs:1336-1339 | the first match is the choice if and only if no later match has a higher priority |
| Deviation.FirstMatchLoses | pkix-lint/src/deviation.rs:1336-1339 | a store where, for every non-empty chain, the first match is not the choice |
| Deviation.ChainChoiceIsBestOfCerts | pkix-lint/src/deviation.rs:1133-1152 | the choice for a chain is the best of the choices for its certificates |
| Findings.RunCert | pkix-lint/src/lib.rs:1614-1653 | the loop over the lints, with its early end, produces the recursive report |
| Findings.ReportEndsAtFatal | pkix-lint/src/lib.rs:1614-1653 | the report has one finding per certificate lint, in order, up to and with the first fatal one, each with that lint's answer when it applies at that position and "not applicable" otherwise |
| Findings.KindsByTable | pkix-lint/src/lib.rs:454-460 | a lint applies at its own position, everywhere if declared for any, and below the anchor if declared for intermediates |
| Findings.ApplyDeviations | pkix-lint/src/deviation.rs:1358-1382 | the loop sorts the findings by the waiver lookup for one certificate |
| Findings.ApplyDeviationsForChain | pkix-lint/src/deviation.rs:1390-1411 | the same with the lookup for a chain |
| Findings.SetAsideByBestWaiver | pkix-lint/src/deviation.rs:1358-1382 | a finding is set aside if and only if it is actionable and some waiver fits, and then under the best of those |
| Findings.MovedWithTheirWaiver | pkix-lint/src/deviation.rs:1418-1430 | every finding set aside is actionable and carries the id, action, justification and evidence of the waiver that covers it |
| Findings.NoFindingIsLost | pkix-lint/src/deviation.rs:1358-1411 | every finding comes out exactly once and in order, unchanged or as the deviated finding that describes it |
| Findings.RunChain | pkix-lint/src/deviation.rs:1300-1323 | the reports of a chain, sorted certificate by certificate, are the whole report sorted at once, each finding by its own certificate |
| Findings.ChainReportByCert | pkix-lint/src/deviation.rs:1300-1323 | of the report on a chain, the findings about certificate i are the report on it, at its own place and as its own kind |
| Findings.SetAsideInChain | pkix-lint/src/deviation.rs:1300-1323 | in a chain run a finding about certificate i is set aside if and only if it is actionable and a waiver covers that certificate, and then under the best of those |

## Left out

- SHA-256, signature verification and SubjectPublicKeyInfo parsing: the hash is an arbitrary function to 32 octets, a signature check an arbitrary predicate.
- The internals of the path builder, the path validator and the revocation checkers: they are function parameters with stated contracts, `ChainTypes.BuilderContract` (the chain starts with the target and draws from the pool), `ChainTypes.ValidatorContract` (no empty chain, an index of an anchor) and, for the OCSP shim, issuer and serial unique on validated chains.
- Fetchers whose answers depend on more than the batches asked so far.
- HTTP fetching and the decoding of fetched certificates, which the model folds into one response per URI; the selection of HTTP URIs from the caIssuers extension.
- Removing the SCT-list extension from a TBSCertificate, the outer OCTET STRING of `from_extension_value`, `verify_embedded_scts`, the log window and the algorithm tables.
- Extensions longer than 65535 octets: the builders only assert the bound in debug builds, and it is a precondition here.
- The empty tree: its hash never meets a proof, since a tree size of zero is malformed.
- Overflow of 32-bit years below the range of the reader, which reads four digits; the reader's result is a number here and fits 64 bits.
- Days past the end of a month: the source accepts them and lets them run on, and `Calendar.DaysFromCivilCounts` states that.
- A leading `+` in IP literals and a stray final colon: the source accepts both, and `IpForms.Ipv4ByTable` and `IpForms.Ipv6ByTable` include them.
- IDNA conversion, Unicode lower-casing and name preparation: function parameters that may answer anything.
- `ServerName::parse`, mailbox names and SAN extraction.
- Deviation.WaiverStore.Add: does not say which property of a malformed scope was missing or mistyped, because the refusal carries that only as message text.
- ChainVerify.VerifyOne: does not cover a revocation checker that changes its answers between calls, because checkers are functions here.
- Path-scope lints, `run_path` as a whole and issuance-time runs.
- `decode_x509_extra_data`, JSON, base64, OSCAL, report writers, the command line, stub crates and single-branch lints.
- Functions of the source that appear as several members: `AiaChain.PushNewUris`, `AiaChain.CollectNewUris` and `AiaChain.AbsorbResponses` are inner loops of `build_with_aia`; `IpText.ScanLoop`, `IpText.PackOctets` and `IpText.FillAround` are loops of `parse_ipv6`; `Timestamp.PadFraction` is a loop of the timestamp reader; `Deviation.WaiverStore.AnyApplies` is the inner search of the chain lookup.
