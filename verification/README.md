# Verified model of eidas-verify

eidas-verify checks European electronic signatures. Most of ASN.1, XML tokenising and cryptography
it leaves to libraries, but the loops in which signatures are found, documents are canonicalised,
trusted lists are read, chains are built and levels are decided are its own. This project models
those loops in Dafny and proves what they compute, for all inputs.

Loops are imperative methods, each proved against a specification function; what the repository
promises is then proved about that function. Certificates, digests and signature checks are abstract
values and outcomes.

| area | files |
|---|---|
| XML canonicaliser and SignedInfo slicer | `CanonicalOrder`, `C14n`, `CanonicalText` (what is printed, byte for byte), `CanonicalReader`, `Idempotence`, `SignedInfo` |
| PDF signature scanner | `PdfHex`, `PdfInts`, `PdfScan`, `PdfReading` (text, numbers and offsets), `PdfRevisions` |
| chain builder | `Chain`, `ChainProperties`, `ChainWitness`, `TrustMaterial` |
| trusted-list parser | `TslTree` (trees, the table of actions), `TslLevels` (each loop on events and on the tree), `TslParser` (the loops), `TslReading` (texts, children, what is passed over), `TslFields` (the records field by field), `TslRender` (writing and reading back), `TslOutOfStep` |
| trust status and qualification | `TrustModel`, `Qualify`, `QualifyProperties` (positions, times and URIs) |
| level cascade and algorithm policy | `Cascade`, `CascadeProperties`, `CascadeReport` (what a report lists), `CascadeWitness`, `Policy` |
| octet codecs | `Der`, `Revocation`, `TimestampCodecs` |
| shared | `Wrappers`, `Bytes` |

`dafny verify dfyconfig.toml` checks everything.

## Where the code and its documentation differ

The model follows the code.

- A listed service that is not active takes the result to NotAdES (`crates/eidas-qualify/src/engine.rs:74-88`);
  `crates/eidas-qualify/src/lib.rs:24-25` says the result before the lists would be kept. It is kept exactly as
  `Qualify.DocumentedFallbackExactly` says; `Qualify.WithdrawnServiceLosesTheBaseline` is a listing where it is not.
- B-LT is granted when all *recorded* statuses are Good (`crates/eidas-cades/src/verify.rs:214-216`), although the comment
  there asks for every certificate. A certificate without evidence records nothing, and a fully verified archive token lifts
  to B-LTA past a status that is not Good. `CascadeProperties.LongTermCoversExactly` gives the exact condition under which a
  B-LT or B-LTA report covers its chain; `CascadeProperties.UncoveredChainStillReachesLongTerm` is a failing family, and
  `CascadeWitness.LongTermWithoutEvidence` and `CascadeWitness.ArchivalWithoutGoodRecord` are two runs.
- The last walked certificate is swapped for the matched anchor after the checks, and key identifiers are compared only when
  both sides carry one (`crates/eidas-x509/src/chain.rs:109-116`, `190-203`), so the returned chain is not always what
  `crates/eidas-x509/src/chain.rs:3-8` describes. `ChainProperties.ReturnedChainExactly` says exactly when it is;
  `ChainWitness.SwappedAnchorIsUnchecked`, `ChainWitness.SignerIsReplaced` and `ChainWitness.KeyIdentifierMissing` are
  three where it is not.
- False-positive `/ByteRange` text is promised not to mask real signatures (`crates/eidas-pades/src/scan.rs:24-30`). Text that
  does not scan never does; but the search for `[` is not bounded (`crates/eidas-pades/src/scan.rs:73`), so a stray keyword
  with no `[` before the written array reads that array and takes the signature's place. See
  `PdfRevisions.SigningsScanBack` for the exact condition, `PdfRevisions.StrayBeforeArrayMasks` for the family and
  `PdfRevisions.StrayIsReported` for a file.
- Object identifiers round-trip only while the second arc is below 40 and later arcs are below 2^64: the shift checks its
  amount, not its result, and the first octet is always split by 40 (`crates/eidas-timestamp/src/tst.rs:169-198`). See
  `TimestampCodecs.OidRoundTripExact`.
- Canonicalisation is idempotent only on documents whose attribute values hold none of the six rewritten bytes: values are
  printed from their raw form (`crates/eidas-xades/src/c14n.rs:162-170`). See `Idempotence.CanonicalisationIdempotent`.
- The trusted-list loops compare names, not depths, when they look for their end tag; a document that nests an element
  inside its namesake is misread. See `TslTree.LeafReadExactly`, `TslTree.LoopReadsExactly` and
  `TslOutOfStep.OutOfStepMisreads`.
- `permit` is described as overriding sunsets; it clears the sunset of that moment, and a later `sunset` binds again
  (`crates/eidas-core/src/algorithm.rs:109` against `138-156`). See `Policy.PermitOverridesSunsetsExactly` and, for runs where
  it fails, `Policy.LaterSunsetBinds`.
- A NUL byte is white space inside a hexadecimal string by section 7.2.2 of ISO 32000-1, but `decode_pdf_hex` refuses it
  (`crates/eidas-pades/src/scan.rs:181`). See `PdfHex.DecodingFollowsIsoExactly` and `PdfHex.NullIsRefused`.
- Embedded bytes that end in 0x00 lose those zeros in `decode_pdf_hex` (`crates/eidas-pades/src/scan.rs:204-206`). See
  `PdfHex.HexRoundTrip`.
- An attribute name with a leading colon, or the bare name `xmlns:`, does not survive printing
  (`crates/eidas-xades/src/c14n.rs:158-200`). See `CanonicalReader.KeySurvivesFiling`.

## Model

| member | source | states |
|---|---|---|
| CanonicalOrder.Insert | crates/eidas-xades/src/c14n.rs:156-171 | inserting into the sorted set keeps it strictly sorted and adds exactly the new tuple |
| CanonicalOrder.SortedUnique | crates/eidas-xades/src/c14n.rs:156-171 | a set of tuples has exactly one sorted listing, so the order attributes arrive in cannot show |
| CanonicalOrder.BytesLessExactly | crates/eidas-xades/src/c14n.rs:156-171 | one byte string is before another exactly when it is a proper prefix or smaller at the first byte where they differ |
| CanonicalOrder.EntryLessExactly | crates/eidas-xades/src/c14n.rs:156-171 | tuples are ordered by prefix, then name, then value, each in that order |
| C14n.WriteEscapedText | crates/eidas-xades/src/c14n.rs:218-228 | the loop appends the escaped text |
| C14n.WriteEscapedAttrValue | crates/eidas-xades/src/c14n.rs:230-242 | the loop appends the escaped value |
| C14n.CollectAttributes | crates/eidas-xades/src/c14n.rs:156-171 | fails exactly on a malformed attribute, else files every attribute into the sorted namespace or attribute listing |
| C14n.EmitEntry | crates/eidas-xades/src/c14n.rs:174-200 | appends one printed declaration or attribute |
| C14n.EmitEntries | crates/eidas-xades/src/c14n.rs:174-200 | appends a whole listing in order |
| C14n.EmitStart | crates/eidas-xades/src/c14n.rs:145-202 | appends the start tag with sorted declarations before sorted attributes, or fails on a malformed attribute |
| C14n.StartTagIgnoresAttributeOrder | crates/eidas-xades/src/c14n.rs:145-202 | permuting an element's attributes changes no byte of its start tag |
| C14n.ExcC14n | crates/eidas-xades/src/c14n.rs:32-125 | the loop over events computes `Canonicalise` for any event stream, and the canonical form of the tree on the events of a tree |
| C14n.RunSkips | crates/eidas-xades/src/c14n.rs:50-97 | inside a stripped subtree the loop consumes any forest, emits nothing and restores its state |
| C14n.RunPrints | crates/eidas-xades/src/c14n.rs:50-123 | outside, from any state, the loop appends exactly the print of the stripped forest, or fails exactly when a kept part is faulty |
| C14n.LoopPrintsTree | crates/eidas-xades/src/c14n.rs:32-125 | the depth and skip loop refines the recursive print of the tree without the target subtrees |
| C14n.PrintIgnoresAttributeOrder | crates/eidas-xades/src/c14n.rs:145-202 | attribute order anywhere in a document never reaches the print |
| C14n.StrippedSubtreesNeverMatter | crates/eidas-xades/src/c14n.rs:50-123 | documents equal up to target subtrees and attribute order canonicalise to the same bytes or both fail |
| C14n.StripThenPrint | crates/eidas-xades/src/c14n.rs:137-143 | stripping is idempotent, and canonicalising with a target is canonicalising the stripped document without one |
| CanonicalText.EscapedText | crates/eidas-xades/src/c14n.rs:218-228 | the printed form of every byte of text: four references and itself otherwise |
| CanonicalText.EscapedValue | crates/eidas-xades/src/c14n.rs:230-242 | the printed form of every byte of a value: six references and itself otherwise |
| CanonicalText.UnprefixedEntry | crates/eidas-xades/src/c14n.rs:145-200 | how an attribute without a colon is filed and printed; `xmlns` is the default declaration |
| CanonicalText.PrefixedEntry | crates/eidas-xades/src/c14n.rs:145-200 | how a prefixed attribute is filed and printed; `xmlns:p` is the declaration of `p` |
| CanonicalText.ListingGoesUp | crates/eidas-xades/src/c14n.rs:156-200 | in a printed listing every entry is before the next ones, by bytes |
| CanonicalText.SmallerNameFirst | crates/eidas-xades/src/c14n.rs:145-202 | of two unprefixed attributes the one with the smaller name is printed first, whichever arrives first |
| CanonicalText.DeclarationsFirst | crates/eidas-xades/src/c14n.rs:145-202 | the default declaration is printed before a prefixed one and both before an attribute |
| CanonicalText.EmptyElementPrints | crates/eidas-xades/src/c14n.rs:32-125 | `<e b="2" a="1"/>` canonicalises to `<e a="1" b="2"></e>`, byte for byte |
| CanonicalText.StripsByLocalName | crates/eidas-xades/src/c14n.rs:127-143 | an element is a target exactly when the part of its name behind the first colon is the target name |
| CanonicalText.StripExactly | crates/eidas-xades/src/c14n.rs:50-97 | a stripped forest holds no target, and a forest without targets is left alone |
| CanonicalReader.UnescapeEscapeText | crates/eidas-xades/src/c14n.rs:218-228 | text escaping is undone by resolving references and leaves no `<` |
| CanonicalReader.UnescapeEscapeAttr | crates/eidas-xades/src/c14n.rs:230-242 | value escaping is undone by resolving references and leaves no quote and no `<` |
| CanonicalReader.KeySurvivesFiling | crates/eidas-xades/src/c14n.rs:158-200 | an attribute name is printed as it was read if and only if it has no leading colon and is not `xmlns:` |
| CanonicalReader.ReadUndoesPrint | crates/eidas-xades/src/c14n.rs:98-202 | a reader of the canonical form inverts the print on every well-formed normal form |
| CanonicalReader.CanonicalBytesReadBack | crates/eidas-xades/src/c14n.rs:50-125 | the canonical bytes of a document read back to its normal form |
| CanonicalReader.CanonicalBytesDetermineDocument | crates/eidas-xades/src/c14n.rs:50-125 | two documents have the same canonical bytes if and only if their normal forms are equal |
| Idempotence.EscapeAttrFixesPlain | crates/eidas-xades/src/c14n.rs:230-242 | escaping fixes values without the six bytes, and makes every other value longer and still not plain |
| Idempotence.CanonicalisationIdempotent | crates/eidas-xades/src/c14n.rs:32-125 | canonicalising the reread output gives the same bytes if and only if every kept attribute value is plain |
| Idempotence.IdempotenceFailsOnReferences | crates/eidas-xades/src/c14n.rs:162-170 | a document with one escaped ampersand in a value changes on the second pass |
| SignedInfo.FindTag | crates/eidas-xades/src/verify.rs:226-240 | returns the least offset of the tag, and none only when there is none |
| SignedInfo.TagsExactly | crates/eidas-xades/src/verify.rs:210-240 | the opener and the closer byte for byte, with the six bytes that end a tag name |
| SignedInfo.CanonicaliseSignedInfo | crates/eidas-xades/src/verify.rs:210-224 | canonicalises exactly the slice from the first opener to the next closer, and fails when there is no such slice |
| SignedInfo.CanonicaliseAppend | crates/eidas-xades/src/c14n.rs:50-125 | without a target, canonicalising a concatenation of event streams concatenates the results |
| SignedInfo.SignedInfoIsSliceOfDocument | crates/eidas-xades/src/verify.rs:210-240 | the canonicalised slice is the very stretch of the whole document's canonical form that belongs to the element |
| PdfHex.DecodePdfHex | crates/eidas-pades/src/scan.rs:175-208 | the nibble loop computes the octets the digits spell, white space ignored and a lone last digit padded, without trailing zero bytes; any other byte fails |
| PdfHex.HexDigitExactly | crates/eidas-pades/src/scan.rs:184-189 | the digit `n` is the byte at place `n` of `0123456789abcdef` or of `0123456789ABCDEF`, and no other byte is a digit |
| PdfHex.SpelledExactly | crates/eidas-pades/src/scan.rs:177-200 | a string reads as some digits exactly when it spells them in those alphabets with white space between |
| PdfHex.LowerHexSpells | crates/eidas-pades/src/scan.rs:175-208 | the plain lower-case form of any bytes spells them |
| PdfHex.HexExamples | crates/eidas-pades/src/scan.rs:175-208 | lower and upper case, a lone last digit and a byte that is no digit, by example |
| PdfHex.HexRoundTrip | crates/eidas-pades/src/scan.rs:175-208 | the digits of padded bytes, in any mix of case and white space, decode to the embedded bytes without trailing zeros; to the bytes themselves if and only if they do not end in 0x00 |
| PdfHex.NibblesFollowIso | crates/eidas-pades/src/scan.rs:177-200 | the digits of a string are read if and only if section 7.3.4.3 of ISO 32000-1 reads it and it holds no NUL, and then alike |
| PdfHex.DecodingFollowsIsoExactly | crates/eidas-pades/src/scan.rs:177-208 | of the strings the standard accepts exactly those without NUL decode, and to the standard's octets exactly when these do not end in zero |
| PdfHex.NullIsRefused | crates/eidas-pades/src/scan.rs:181-189 | a three-byte string with a NUL that the standard reads as one octet and the decoder refuses |
| PdfInts.ParseFourInts | crates/eidas-pades/src/scan.rs:152-173 | the loop takes the first four words of the decoded text as machine integers, or fails |
| PdfReading.Utf8Exactly | crates/eidas-pades/src/scan.rs:153-154 | exactly the UTF-8 encodings of scalar values decode, and to those values |
| PdfReading.WordsAround | crates/eidas-pades/src/scan.rs:157 | splitting at any white space and then splitting both sides gives all words in order |
| PdfReading.ParseUsizeExactly | crates/eidas-pades/src/scan.rs:161-163 | a word is a number exactly when it is decimal digits, one plus sign allowed in front, below 2^64 |
| PdfInts.FourIntsRoundTrip | crates/eidas-pades/src/scan.rs:152-173 | four integers written in decimal with any padding parse back to themselves |
| PdfScan.KeyDoesNotOverlap | crates/eidas-pades/src/scan.rs:35-46 | two occurrences of the keyword are at least its length apart |
| PdfScan.ReadArray | crates/eidas-pades/src/scan.rs:72-86 | reads the integers between the first `[` after the keyword and the next `]` in the window |
| PdfScan.ReadGap | crates/eidas-pades/src/scan.rs:102-113 | decodes what stands between the first `<` and the next `>` of the gap |
| PdfScan.ScanOne | crates/eidas-pades/src/scan.rs:71-124 | one candidate, with every bound check of the source |
| PdfReading.ArrayTextExactly | crates/eidas-pades/src/scan.rs:72-85 | the array lies between the first `[` after the keyword and the first `]` behind that, which comes within 256 bytes |
| PdfReading.GapExactly | crates/eidas-pades/src/scan.rs:102-113 | the hexadecimal string lies between the first `<` of the gap and the first `>` behind it |
| PdfReading.ScanExactly | crates/eidas-pades/src/scan.rs:71-124 | a keyword scans, to this location, if and only if such an array of four integers follows, `a + b < c` and `c + d` lie in the file, and the gap holds a string that decodes |
| PdfScan.SelectAdvances | crates/eidas-pades/src/scan.rs:39-63 | one turn of the loop agrees with the reference selection: past the keyword after a failure, past the range after a hit |
| PdfScan.SelectIsTheGreedySelection | crates/eidas-pades/src/scan.rs:33-65 | the reference selection is the only list with increasing offsets whose members all scan and which omits a scanning keyword only when an earlier reported range covers it |
| PdfScan.FindSignatures | crates/eidas-pades/src/scan.rs:33-65 | the cursor loop returns that greedy selection of the whole file |
| PdfRevisions.UpdateScans | crates/eidas-pades/src/scan.rs:71-124 | the keyword a signer wrote scans to the written integers and bytes in any file that continues its revision |
| PdfRevisions.SigningsScanBack | crates/eidas-pades/src/scan.rs:33-136 | a file made by any number of incremental signings scans to exactly one location per signing, in order, as written, if and only if every keyword that scans is a written one or lies inside an earlier written range |
| PdfRevisions.StrayReadsTheArray | crates/eidas-pades/src/scan.rs:71-87 | a stray keyword before a written one, with no `[` between them, scans to the written array and bytes |
| PdfRevisions.StrayBeforeArrayMasks | crates/eidas-pades/src/scan.rs:24-63 | every history with such a stray scans to something else than what was written |
| PdfRevisions.StrayIsReported | crates/eidas-pades/src/scan.rs:24-63 | a 33-byte file whose stray keyword is reported instead of the written one |
| PdfRevisions.SignedBytesAreTheRevision | crates/eidas-pades/src/scan.rs:126-136 | the signed bytes of each location are its own revision without its gap, whatever was appended later |
| PdfRevisions.EmbeddedBytesComeBack | crates/eidas-pades/src/scan.rs:105-123 | bytes embedded in any hexadecimal spelling come back without trailing zeros; unchanged if and only if they end in none |
| PdfRevisions.SignerCanPad | crates/eidas-pades/src/scan.rs:71-124 | such an update exists over every file: reserving a padded array fixes all offsets before they are written |
| Chain.ChainBuilder.WithAnchors | crates/eidas-x509/src/chain.rs:66-69 | appends the anchors and leaves the intermediates |
| Chain.ChainBuilder.PushAnchor | crates/eidas-x509/src/chain.rs:71-74 | appends one anchor and leaves the intermediates |
| Chain.ChainBuilder.WithIntermediates | crates/eidas-x509/src/chain.rs:76-79 | appends the intermediates and leaves the anchors |
| Chain.ChainBuilder.PushIntermediate | crates/eidas-x509/src/chain.rs:81-84 | appends one intermediate and leaves the anchors |
| Chain.ValidateLinkTime | crates/eidas-x509/src/chain.rs:205-220 | accepts exactly the certificates valid at the instant, both ends included |
| Chain.CaVerdictExact | crates/eidas-x509/src/chain.rs:222-290 | the issuer check passes if and only if every basic-constraints and key-usage extension decodes and permits signing certificates and basic constraints are present |
| Chain.ValidateIssuerCaCapability | crates/eidas-x509/src/chain.rs:222-290 | the loop over extensions returns the first failure or the diagnostics in order |
| Chain.FirstFailureDecides | crates/eidas-x509/src/chain.rs:222-290 | the first bad extension decides: the error is `Asn1` when it does not decode, else a chain error |
| Chain.CaRemarksExactly | crates/eidas-x509/src/chain.rs:222-290 | an issuer that passes is remarked on exactly when it lists extended purposes, or has no key usage |
| Chain.MatchAnchor | crates/eidas-x509/src/chain.rs:174-185 | returns the first anchor with the certificate's subject and key, none exactly when every anchor is passed over, an error exactly when a key that cannot be encoded comes first |
| Chain.ChainBuilder.FindIssuer | crates/eidas-x509/src/chain.rs:123-142 | chooses the first unused intermediate that may have issued the certificate, else the first such anchor |
| Chain.IssuerMatches | crates/eidas-x509/src/chain.rs:190-203 | a candidate is accepted if and only if its subject is the issuer named and the key identifiers are equal or one is missing |
| Chain.ChooseIssuer | crates/eidas-x509/src/chain.rs:123-142 | the choice of `FindIssuer` in the certificates' own fields: first fit, intermediates before anchors, none only when nothing fits |
| Chain.ChainBuilder.Build | crates/eidas-x509/src/chain.rs:88-171 | the loop with its used flags terminates and computes the bounded walk, error by error |
| ChainProperties.BuiltChainIsSound | crates/eidas-x509/src/chain.rs:88-171 | a built chain is a linked, timely, CA-capable path of 1 to 16 certificates without reuse whose last one alone matches an anchor, with that last one replaced by the anchor |
| ChainProperties.RemarksExactly | crates/eidas-x509/src/chain.rs:88-171 | the diagnostics are those on the walked issuers in order, and a configuration error means exactly that there are no anchors |
| ChainProperties.ReturnedChainExactly | crates/eidas-x509/src/chain.rs:3-8 | the returned chain starts at the signer and is linked, timely, CA-capable and key-identified as documented if and only if the anchor itself passes and no walked issuer lacks a key identifier asked for |
| ChainWitness.SwappedAnchorIsUnchecked | crates/eidas-x509/src/chain.rs:107-117 | a built chain that ends in an expired anchor which may not issue |
| ChainWitness.SignerIsReplaced | crates/eidas-x509/src/chain.rs:107-117 | a signer returned as the anchor with its subject and key |
| ChainWitness.NameAloneSuffices | crates/eidas-x509/src/chain.rs:190-203 | a chain built to an anchor that has no key identifier although the signer asks for one |
| ChainWitness.KeyIdentifierMissing | crates/eidas-x509/src/chain.rs:190-203 | a chain built through a walked issuer without the key identifier asked for |
| ChainProperties.AnchorIssuerEndsWalk | crates/eidas-x509/src/chain.rs:103-145 | after an issuer from the anchor list the next turn ends the walk |
| ChainProperties.OnlyLastFromAnchors | crates/eidas-x509/src/chain.rs:103-145 | only the last certificate of a path can come from the anchors |
| ChainProperties.AppendedIntermediatesKeepResult | crates/eidas-x509/src/chain.rs:123-142 | appended intermediates leave the whole result unchanged unless one matches where the issuer came from the anchors |
| ChainProperties.AppendedIntermediatesKeepPrefix | crates/eidas-x509/src/chain.rs:103-145 | in every case the longer run walks the same certificates up to that point |
| ChainProperties.NoRepeat | crates/eidas-x509/src/chain.rs:103-145 | no certificate repeats on an unambiguous path to its first anchor match |
| ChainProperties.UnambiguousPathIsFound | crates/eidas-x509/src/chain.rs:88-171 | if a valid path of at most 16 certificates exists and exactly one certificate may have issued each, by name and key identifiers, building succeeds along it |
| TrustMaterial.CadesTrustMaterial.Builder | crates/eidas-cades/src/verify.rs:55-63 | the builder holds the caller's intermediates first and the signature's own certificates last |
| TslTree.ReadTextOf | crates/eidas-trust/src/parse.rs:420-444 | on a leaf in step `read_text` yields the text of the tree and continues behind it |
| TslTree.LeafReadExactly | crates/eidas-trust/src/parse.rs:420-444 | `read_text` stops exactly at its own end tag if and only if no element below bears the leaf's name |
| TslTree.ReadTextInsideOf | crates/eidas-trust/src/parse.rs:447-475 | counting depth, `read_text_inside` reads all text below any element, whatever is nested in it |
| TslTree.SkipElementOf | crates/eidas-trust/src/parse.rs:519-537 | `skip_element` consumes any forest and keeps its depth |
| TslTree.FieldsFold | crates/eidas-trust/src/parse.rs:57-95 | on a tree in step, any of the loops computes the fold of the tree and goes on behind it |
| TslTree.InStepFrom | crates/eidas-trust/src/parse.rs:57-95 | a tree in step is so from every state of the loop |
| TslTree.FieldsFoldFrom | crates/eidas-trust/src/parse.rs:57-95 | the same, asking only that the loop is in step from the state it is in |
| TslTree.FieldsElement | crates/eidas-trust/src/parse.rs:57-95 | each sub-parser reads its element and stops exactly after its own end tag |
| TslTree.LoopReadsExactly | crates/eidas-trust/src/parse.rs:52-97 | any of the loops stops exactly at its own end tag if and only if nothing it enters, in the state it then is in, bears its name |
| TslTree.PruneKeepsStep | crates/eidas-trust/src/parse.rs:519-537 | what a loop skips never decides whether the document keeps the loops in step |
| TslTree.FoldPruned | crates/eidas-trust/src/parse.rs:57-95 | the fold of a level ignores what the level skips |
| TslLevels.FirstChildOk | crates/eidas-trust/src/parse.rs:478-517 | the first child with the name is taken, later ones are walked into, on events as on the tree |
| TslLevels.IdentityOk | crates/eidas-trust/src/parse.rs:345-374 | certificate elements are taken whole, others entered, on events as on the tree |
| TslLevels.QualifierUrisOf | crates/eidas-trust/src/parse.rs:376-406 | the qualifier loop returns the `uri` values of every qualifier below, in document order |
| TslLevels.ServiceInfoOk | crates/eidas-trust/src/parse.rs:230-275 | each field of a service is read as the tree denotes it, unknown elements are skipped whole |
| TslLevels.InstanceOk | crates/eidas-trust/src/parse.rs:289-335 | the same for one history instance |
| TslLevels.HistoryOk | crates/eidas-trust/src/parse.rs:277-343 | the same for the service history |
| TslLevels.ServiceOk | crates/eidas-trust/src/parse.rs:205-228 | the same for a service |
| TslLevels.ServicesOk | crates/eidas-trust/src/parse.rs:182-203 | the same for the services of a provider |
| TslLevels.TspInfoOk | crates/eidas-trust/src/parse.rs:147-180 | the same for a provider's names and country |
| TslLevels.TspOk | crates/eidas-trust/src/parse.rs:122-145 | the same for a provider |
| TslLevels.ProvidersOk | crates/eidas-trust/src/parse.rs:99-120 | the same for the provider list |
| TslLevels.SchemeOk | crates/eidas-trust/src/parse.rs:52-97 | the same for scheme information, where only the first scheme type is taken and a later one is walked into |
| TslLevels.DocumentOk | crates/eidas-trust/src/parse.rs:28-47 | the same for the document |
| TslLevels.ParserFollowsTree | crates/eidas-trust/src/parse.rs:18-50 | parsing any document in step yields the list its tree denotes, or fails with it |
| TslReading.SkippedExactly | crates/eidas-trust/src/parse.rs:52-97 | for each of the loops, exactly which elements it passes over whole |
| TslReading.UnknownSchemeElementsNeverLeak | crates/eidas-trust/src/parse.rs:52-97 | pointers to other lists, or any other unknown scheme element, change nothing whatever they contain |
| TslReading.TextExactly | crates/eidas-trust/src/parse.rs:420-444 | the text of a leaf is its pieces of text and CDATA in document order, and fails when one does not resolve |
| TslReading.InsideTextExactly | crates/eidas-trust/src/parse.rs:447-475 | the same for the depth-counting reader, which leaves out what does not resolve |
| TslReading.QualifiersExactly | crates/eidas-trust/src/parse.rs:376-406 | the qualifiers are the resolvable `uri` attributes of all `Qualifier` elements below, in document order |
| TslReading.FirstChildExactly | crates/eidas-trust/src/parse.rs:478-517 | a name or country is the text of the first such element at any depth; later ones and empty-element tags never count |
| TslReading.UnclosedReadsAsClosed | crates/eidas-trust/src/parse.rs:52-97 | an element the input ends in is read as if it were closed there, by every loop and reader |
| TslReading.ErrorsEnd | crates/eidas-trust/src/parse.rs:420-475 | a reader error ends the parse, but in a scheme type it only leaves that type empty |
| TslFields.IdentityExactly | crates/eidas-trust/src/parse.rs:345-374 | an identity is read if and only if every certificate element below decodes, and adds those certificates in document order |
| TslFields.ServiceInformationExactly | crates/eidas-trust/src/parse.rs:230-275 | whatever order and repetition a service's elements come in: of types, names, statuses and times the last counts, identities and extensions add up |
| TslFields.HistoryInstanceExactly | crates/eidas-trust/src/parse.rs:289-335 | the same for a period of the history |
| TslFields.ProviderInformationExactly | crates/eidas-trust/src/parse.rs:147-180 | of several names, trade names or addresses of a provider the last counts |
| TslFields.SchemeFieldsExactly | crates/eidas-trust/src/parse.rs:52-97 | of several territories, numbers or dates the last counts |
| TslFields.FirstSchemeTypeCounts | crates/eidas-trust/src/parse.rs:69-74 | the scheme type is all text in the first such element, and nothing that follows replaces it |
| TslLevels.SkippedSubtreesNeverLeak | crates/eidas-trust/src/parse.rs:18-50 | documents that differ only in skipped subtrees and comments parse alike, so the `SchemeTerritory` of another list that is merely referred to cannot leak out |
| TslOutOfStep.OutOfStepMisreads | crates/eidas-trust/src/parse.rs:420-444 | a territory nested in a territory is read as the inner text alone |
| TslParser.Reader.Next | crates/eidas-trust/src/parse.rs:29-32 | delivers the next event, and the end of input for ever after the last |
| TslParser.ReadTextUntil | crates/eidas-trust/src/parse.rs:420-444 | the loop returns the text and leaves the reader where the specification says |
| TslParser.ReadTextInsideUntil | crates/eidas-trust/src/parse.rs:447-475 | the same with a depth counter; a reader error gives no text but does not end the parse |
| TslParser.SkipToEnd | crates/eidas-trust/src/parse.rs:519-537 | leaves the reader behind the skipped element |
| TslParser.FindFirstChild | crates/eidas-trust/src/parse.rs:478-517 | the loop of `read_first_name` and `find_country` |
| TslParser.ReadFirstName | crates/eidas-trust/src/parse.rs:478-496 | the first name, or the empty string when there is none |
| TslParser.ParseDigitalIdentity | crates/eidas-trust/src/parse.rs:345-374 | all certificates of the identity in order; one that does not decode ends the parse |
| TslParser.PushUris | crates/eidas-trust/src/parse.rs:392-398 | appends the resolvable `uri` attributes of one element, in order |
| TslParser.ParseQualifiers | crates/eidas-trust/src/parse.rs:376-406 | the loop returns the qualifier values and stops after its end tag |
| TslParser.ParseServiceInformation | crates/eidas-trust/src/parse.rs:230-275 | the loop refines the specification of its level, result and reader position |
| TslParser.ParseHistoryInstance | crates/eidas-trust/src/parse.rs:289-335 | the inner loop of the history refines its level |
| TslParser.ParseServiceHistory | crates/eidas-trust/src/parse.rs:277-343 | the outer loop refines its level |
| TslParser.ParseTspService | crates/eidas-trust/src/parse.rs:205-228 | the loop refines its level |
| TslParser.ParseTspServices | crates/eidas-trust/src/parse.rs:182-203 | the loop refines its level |
| TslParser.ParseTspInformation | crates/eidas-trust/src/parse.rs:147-180 | the loop refines its level |
| TslParser.ParseTsp | crates/eidas-trust/src/parse.rs:122-145 | the loop refines its level |
| TslParser.ParseProviderList | crates/eidas-trust/src/parse.rs:99-120 | the loop refines its level |
| TslParser.ParseSchemeInformation | crates/eidas-trust/src/parse.rs:52-97 | the loop refines its level |
| TslParser.ParseTrustedList | crates/eidas-trust/src/parse.rs:18-50 | the whole parser computes `ParseEvents` on every event stream |
| TslRender.RenderBack | crates/eidas-trust/src/parse.rs:18-50 | the document a list is written as keeps every loop in step and denotes that list |
| TslRender.RoundTrip | crates/eidas-trust/src/parse.rs:18-50 | every document that differs from the written one only in skipped subtrees and comments parses to the same list |
| TrustModel.StatusAt | crates/eidas-trust/src/model.rs:87-110 | the current period when it has begun; else the entry of the history that began last, the first of these in the list; else the current period |
| TrustModel.StatusSpec | crates/eidas-trust/src/model.rs:87-110 | the same of the function, by positions in the history |
| TrustModel.StatusDetermined | crates/eidas-trust/src/model.rs:87-110 | that leaves one status only |
| TrustModel.GrantedBeforeWithdrawal | crates/eidas-trust/src/model.rs:87-110 | a service withdrawn from 10 and granted before is granted at 5 and withdrawn at 10 |
| TrustModel.StatusIsStepFunction | crates/eidas-trust/src/model.rs:87-110 | the status changes only at the start of a period |
| TrustModel.StatusIgnoresHistoryOrder | crates/eidas-trust/src/model.rs:87-110 | when start times differ the order of the history is irrelevant |
| Qualify.FoundExactlyWhenListed | crates/eidas-trust/src/qualify.rs:66-109 | a key is matched if and only if some service of some list holds it, now or in its history, with that service's status at the time |
| QualifyProperties.ListsKeyExactly | crates/eidas-trust/src/qualify.rs:77-98 | a service holds a key exactly when a current certificate or one of a past period has it |
| QualifyProperties.LookupIsFirstListing | crates/eidas-trust/src/qualify.rs:66-109 | the lookup answers with the first list, provider and service that hold the key, the list's territory and the service's status at the time |
| Qualify.ServiceQualifiers | crates/eidas-qualify/src/engine.rs:185-201 | exactly the known qualifiers of the service occur |
| Qualify.QListFromService | crates/eidas-qualify/src/engine.rs:185-201 | the loop lists them in order |
| QualifyProperties.QualifierUriExactly | crates/eidas-qualify/src/engine.rs:185-201 | the one URI of each qualifier |
| QualifyProperties.UriByUri | crates/eidas-qualify/src/engine.rs:185-201 | the qualifiers of joined lists of URIs are those of the one and then those of the other |
| Qualify.QListFromQc | crates/eidas-qualify/src/engine.rs:165-183 | the pushes give the certificate's own qualifiers in order |
| Qualify.CertificateQualifiersAre | crates/eidas-qualify/src/engine.rs:165-183 | a certificate's flags and qualifiers correspond one to one, and never speak for a service |
| Qualify.Dedup | crates/eidas-qualify/src/engine.rs:159-163 | keeps first occurrences in order |
| QualifyProperties.KeptInOrder | crates/eidas-qualify/src/engine.rs:159-163 | of two kept qualifiers the one kept first occurs first |
| Qualify.QualifySigner | crates/eidas-qualify/src/engine.rs:39-157 | qualification, qualifiers, diagnostics and territory in terms of the first listed certificate |
| QualifyProperties.SignerJudged | crates/eidas-qualify/src/engine.rs:39-157 | the whole judgement from the first listed certificate, the first listing of its key, its status URI at the time, its type URI and the device statements: result, diagnostics and territory |
| QualifyProperties.UnlistedSignerKeepsBaseline | crates/eidas-qualify/src/engine.rs:51-63 | with no listed certificate in the chain the baseline and the certificate's own qualifiers stay |
| Qualify.QualifiersReported | crates/eidas-qualify/src/engine.rs:107-156 | reported qualifiers never repeat and are exactly those of the certificate and, for an active CA/QC, of the service |
| Qualify.FirstListedIs | crates/eidas-qualify/src/engine.rs:43-49 | the match comes from the first listed certificate of the chain, and is missing only when none is listed |
| Qualify.OnlyFirstListedMatters | crates/eidas-qualify/src/engine.rs:43-49 | unlisted certificates before it and anything after it never matter |
| Qualify.DepartureNeedsListing | crates/eidas-qualify/src/engine.rs:39-157 | another result than the baseline needs a first listed certificate whose service is inactive or an active CA/QC |
| Qualify.QesExactly | crates/eidas-qualify/src/engine.rs:107-131 | for an active CA/QC the result is QES if and only if no qualifier denies a device and the service or the certificate asserts one |
| Qualify.BaselineKeptExactly | crates/eidas-qualify/src/engine.rs:43-105 | an advanced signature keeps its baseline if and only if no certificate is listed or the first listed service is active but not CA/QC |
| Qualify.DocumentedFallbackExactly | crates/eidas-qualify/src/engine.rs:50-88 | without a match, or with an inactive one, any baseline is kept if and only if nothing is listed or it was NotAdES already |
| Qualify.WithdrawnServiceLosesTheBaseline | crates/eidas-qualify/src/engine.rs:74-88 | a list with one withdrawn service that takes an advanced signature to NotAdES |
| Cascade.VerifySignatureTokens | crates/eidas-cades/src/verify.rs:131-158 | the fold over signature tokens: level, latest time, reported stamps, diagnostics, and every level on the way |
| Cascade.ApplyEmbeddedRevocation | crates/eidas-cades/src/verify.rs:794-830 | every certificate below the anchor either gets the first verdict found or a no-evidence warning |
| Cascade.VerifyArchiveTokens | crates/eidas-cades/src/verify.rs:263-319 | the fold over archive tokens, with the same accounting |
| Cascade.ClimbFrom | crates/eidas-cades/src/verify.rs:200-341 | the run from revocation to the final report, and every level on the way |
| Cascade.VerifyOneSigner | crates/eidas-cades/src/verify.rs:105-341 | every exit returns the specified report, after exactly the levels `LevelsOf` computes step by step |
| Cascade.LevelNeverDecreases | crates/eidas-cades/src/verify.rs:131-319 | the levels of a run never decrease, whichever exit it leaves by |
| Cascade.ArchiveLevelsEnd | crates/eidas-cades/src/verify.rs:263-319 | lifting from the current level token by token ends where some token lifts the first level |
| Cascade.ReportedLevelIsLast | crates/eidas-cades/src/verify.rs:105-341 | a report with a level reports the last one of its run |
| CascadeProperties.PassedReportIsSound | crates/eidas-cades/src/verify.rs:105-341 | a passed report has no revoked record, chain and policy accepted at one time, and for each level what that level demands |
| CascadeProperties.OcspSearchExactly | crates/eidas-cades/src/verify.rs:848-864 | the OCSP search answers a status if and only if some response gives it and every earlier one is rejected; nothing if and only if the first response not rejected, if any, cannot be wrapped |
| CascadeProperties.CrlSearchExactly | crates/eidas-cades/src/verify.rs:832-846 | the same for CRLs |
| CascadeProperties.VerdictExactly | crates/eidas-cades/src/verify.rs:794-830 | a certificate's verdict is what its OCSP responses say, and what its CRLs say only when they say nothing |
| CascadeProperties.PassesExactly | crates/eidas-cades/src/verify.rs:105-341 | a report passes if and only if certificates, chain and policy are accepted and no certificate below the anchor has a Revoked verdict |
| CascadeProperties.RevokedFails | crates/eidas-cades/src/verify.rs:200-230 | a certificate below the anchor whose evidence says Revoked makes the report fail |
| CascadeProperties.ReferenceTimeExactly | crates/eidas-core/src/time.rs:33-47 | which time a run is judged at, for each way to choose it |
| CascadeReport.StampsExactly | crates/eidas-cades/src/verify.rs:131-341 | a passed report lists every verified stamp in order, signature stamps first; a failed one with a chain the signature stamps only |
| CascadeReport.FailuresExactly | crates/eidas-cades/src/verify.rs:105-245 | a failed report holds nothing but the error without a chain, is at no level by policy, and at the stamped level with a Revoked record otherwise |
| CascadeReport.RemarksExactly | crates/eidas-cades/src/verify.rs:131-341 | for each of seven remarks, exactly when a report with a chain carries it |
| CascadeProperties.PassedLevelExactly | crates/eidas-cades/src/verify.rs:200-319 | the exact condition of each level of a passed report |
| CascadeProperties.ArchivalReportWarns | crates/eidas-cades/src/verify.rs:263-319 | a passed report warns of an unchecked imprint if and only if an archive token verified, hence at every B-LTA |
| CascadeProperties.RecordsAndWarningsCountChain | crates/eidas-cades/src/verify.rs:794-830 | records plus no-evidence warnings number the chain minus one |
| CascadeProperties.LongTermCoversExactly | crates/eidas-cades/src/verify.rs:200-253 | a B-LT or B-LTA report covers every certificate below the anchor with a Good record if and only if the embedded evidence, read blob by blob, says Good for each |
| CascadeProperties.LongTermCoversExactlyWithoutWarnings | crates/eidas-cades/src/verify.rs:200-253 | at B-LT that is if and only if the report carries no no-evidence warning |
| CascadeProperties.UncoveredChainStillReachesLongTerm | crates/eidas-cades/src/verify.rs:200-253 | a stamped run over a chain of two or more whose material covers nothing reports B-LT or more with no records |
| CascadeWitness.LongTermWithoutEvidence | crates/eidas-cades/src/verify.rs:200-253 | a run over two certificates that reports B-LT without a record |
| CascadeWitness.ArchivalWithoutGoodRecord | crates/eidas-cades/src/verify.rs:200-319 | a run over two certificates that reports B-LTA with a record that is not Good and no warning |
| CascadeWitness.LaterRevokedIsRead | crates/eidas-cades/src/verify.rs:848-864 | a rejected response followed by a Revoked one: the run fails |
| CascadeProperties.BestTimeIsLatestReported | crates/eidas-cades/src/verify.rs:131-341 | at every exit the best time is the maximum of the reported time stamps, none exactly when there are none |
| CascadeProperties.TokenOrderIsIrrelevant | crates/eidas-cades/src/verify.rs:136-341 | permuting either token list changes neither status, level, reference time, best time, chain nor records |
| Policy.AlgorithmPolicy.PermitAlgorithm | crates/eidas-core/src/algorithm.rs:138-143 | the new state of all three tables |
| Policy.AlgorithmPolicy.ForbidAlgorithm | crates/eidas-core/src/algorithm.rs:146-150 | the new state of all three tables |
| Policy.AlgorithmPolicy.SunsetAlgorithm | crates/eidas-core/src/algorithm.rs:153-156 | the new state of all three tables |
| Policy.AlgorithmPolicy.Decide | crates/eidas-core/src/algorithm.rs:160-213 | the decision; it is accepted at its own time if and only if it is Accept |
| Policy.FallbackExactly | crates/eidas-core/src/algorithm.rs:181-213 | under any rules, exactly which algorithms the blanket rules accept; they reject all others |
| Policy.UpdatesLeave | crates/eidas-core/src/algorithm.rs:138-156 | after any sequence of updates permitted and forbidden are disjoint, and each entry is what the last relevant update says |
| Policy.VerdictAfterUpdates | crates/eidas-core/src/algorithm.rs:138-213 | the verdict after any run depends on the last updates of that algorithm only |
| Policy.PermitOverridesSunsetsExactly | crates/eidas-core/src/algorithm.rs:104-178 | after a last permit the algorithm is accepted if and only if no sunset set since has come |
| Policy.LaterSunsetBinds | crates/eidas-core/src/algorithm.rs:104-178 | permitting and then setting a sunset leaves the sunset binding |
| Policy.AcceptanceIsBackwardClosed | crates/eidas-core/src/algorithm.rs:91-101 | acceptance at an instant implies acceptance at every earlier one |
| Policy.SunsetDecisionCarries | crates/eidas-core/src/algorithm.rs:91-178 | the sunset decision about a permitted algorithm answers for every other time as the policy itself would |
| Policy.Etsi119312Of2023 | crates/eidas-policy/src/lib.rs:17-64 | the nested loops build exactly the described table of sunsets and refusals |
| Policy.SunsetRsa | crates/eidas-policy/src/lib.rs:17-64 | the two RSA loops set exactly the sunsets of RSA at 2048 bits |
| Policy.ForbidDsa | crates/eidas-policy/src/lib.rs:17-64 | the DSA loop forbids exactly DSA at 2048 and 3072 bits |
| Policy.EtsiTableExactly | crates/eidas-policy/src/lib.rs:17-64 | the rules, the sunsets with their date and the refusals, entry by entry |
| Policy.EtsiClosedForm | crates/eidas-policy/src/lib.rs:17-64 | that table accepts, over all algorithms, key sizes and times, exactly a closed form |
| Policy.EtsiMonotoneInKeySize | crates/eidas-policy/src/lib.rs:17-64 | a larger key is never judged worse |
| Der.LengthRoundTrip | crates/eidas-cades/src/unsigned.rs:166-172 | decoding a length inverts encoding it, whatever follows |
| Der.LengthUnique | crates/eidas-cades/src/unsigned.rs:166-172 | an accepted length has one form, the minimal one of section 10.1 of X.690 |
| Der.HeaderRoundTrip | crates/eidas-cades/src/unsigned.rs:166-172 | a header decodes to itself and leaves what follows |
| Der.HeaderUnique | crates/eidas-cades/src/unsigned.rs:166-172 | encoding an accepted header gives back its own bytes |
| Der.TlvRoundTrip | crates/eidas-cades/src/unsigned.rs:166-172 | the same for a whole element |
| Der.TlvUnique | crates/eidas-cades/src/unsigned.rs:166-172 | the same for a whole element, backwards |
| Der.DecodesExactly | crates/eidas-cades/src/unsigned.rs:166-172 | an element decodes, with this rest, if and only if the input is its encoding followed by the rest |
| Der.EncodingExactly | crates/eidas-cades/src/unsigned.rs:166-172 | the encoding octet by octet, and exactly which elements have one |
| Der.SplitOfJoin | crates/eidas-cades/src/unsigned.rs:123-159 | any elements run together split into themselves |
| Der.JoinOfSplit | crates/eidas-cades/src/unsigned.rs:123-159 | whatever splits is its elements run together |
| Revocation.CollectEntries | crates/eidas-cades/src/unsigned.rs:131-154 | the inner loop pushes each element's own bytes in order, or fails on the first bad one |
| Revocation.ParseRevocationValues | crates/eidas-cades/src/unsigned.rs:107-161 | the loop over fields computes the split, or fails with it |
| Revocation.RevocationValuesRoundTrip | crates/eidas-cades/src/unsigned.rs:107-172 | any lists of CRLs and OCSP responses with unknown elements between them come back exactly and in order |
| Revocation.RevocationValuesExactly | crates/eidas-cades/src/unsigned.rs:107-172 | splitting succeeds if and only if the input is a SEQUENCE (0x30) of such fields (0xA0, 0xA1, others) whose CRLs all decode, and gives the members of each in order |
| Revocation.SplittingIsLossless | crates/eidas-cades/src/unsigned.rs:107-172 | the results run together are the bodies of the [0] and of the [1] elements |
| TimestampCodecs.ShiftedAdd | crates/eidas-timestamp/src/tst.rs:186-189 | the checked shift and addition never fail and keep the arc modulo 2^64 |
| TimestampCodecs.DecodeArc | crates/eidas-timestamp/src/tst.rs:179-193 | one arc is its base-128 value modulo 2^64, and fails exactly when no octet ends it |
| TimestampCodecs.DecodeOidToDotted | crates/eidas-timestamp/src/tst.rs:169-198 | the loop returns the dotted form of all arcs, or fails |
| TimestampCodecs.DottedReadsBack | crates/eidas-timestamp/src/tst.rs:174-196 | reading the decimals between the dots of the text gives the arcs back in order |
| TimestampCodecs.NoLeadingZero | crates/eidas-timestamp/src/tst.rs:174-196 | no arc but zero is written with a leading zero |
| TimestampCodecs.OidFailsExactly | crates/eidas-timestamp/src/tst.rs:169-198 | decoding fails if and only if the body is empty, or longer than one octet and ending in a continued one |
| TimestampCodecs.OidRoundTripExact | crates/eidas-timestamp/src/tst.rs:169-198 | decoding inverts the encoding of section 8.19 of X.690 if and only if the second arc is below 40 and later arcs below 2^64 |
| TimestampCodecs.FractionToNanos | crates/eidas-timestamp/src/tst.rs:228-249 | padding or truncating to nine digits gives whole nanoseconds below one second |
| TimestampCodecs.OnlyDigitsExactly | crates/eidas-timestamp/src/tst.rs:232 | exactly the ten digits are kept, in order |
| TimestampCodecs.NanosRoundDown | crates/eidas-timestamp/src/tst.rs:228-249 | the nanoseconds of a fraction of any length are its share of a second, rounded down |
| TimestampCodecs.TruncateDivides | crates/eidas-timestamp/src/tst.rs:243-245 | dropping digits divides and rounds down |
| TimestampCodecs.PadMultiplies | crates/eidas-timestamp/src/tst.rs:240-242 | appended zeros multiply |

## Left out

- Cryptography, digest computation, key-size readers and algorithm identifiers (`crates/eidas-cms`): uninterpreted.
- Library decoding: XML tokenising with its reference resolution and white-space trimming, certificates, base64, calendar
  dates, CMS. XML is an event sequence; leaf codecs are parameters, and round trips assume only that they invert on the
  values at hand.
- Clock, policy inputs and the outcomes of time-stamp, OCSP and CRL verification: parameters of the model.
- Texts of diagnostics and errors; in most modules an error is a plain `None`. Reasons of policy refusals.
- Chain, B-B and time-stamp diagnostics inside the cascade's report, its claimed signing time and its qualification step:
  they do not feed the properties. The qualification engine itself is modelled in `Qualify`.
- `find_sub_filter` and `SubFilter` in PDF locations: a display string.
- `parse_certificate_values` and the attribute dispatch of `unsigned::extract`: the same splitting with fewer cases.
- `locate_signer_cert`, `classify_algorithm` and the reference-input choice of `verify_one_inner`: straight-line choices.
- `crates/eidas-xades/src/parse.rs`, qcStatements parsing, ASiC, JWS, PAdES dispatch, the facade: easy members or plumbing.
- The end of the trusted list's source bytes (`source_xml`): a copy of the input.
- TslParser.ParseTrustedList: the structures the loops fill through mutable references are in- and out-parameters here;
  Rust allows no alias of them. The shared reader is an object. Depth counters are unbounded integers.
- TslTree.LoopReadsExactly: exact level by level, given that what the level's sub-parsers take fits them; a document as a
  whole may be read rightly although an inner loop stopped early.
- TslFields.SchemeFieldsExactly: for schemes without a scheme type; behind the first one the loop walks into any other, where
  further fields may stand.
- TslRender.RoundTrip: text that the tokeniser would trim is taken as written; empty text is written as no text at all.
- CanonicalReader.CanonicalBytesReadBack: the reader resolves the references the two escapers write and no others, and names
  must be ones a reader can delimit.
- SignedInfo.SignedInfoIsSliceOfDocument: the pull reader is a parameter that gives the slice the events the document has there.
- Der.HeaderRoundTrip: every single-octet tag is accepted, while the library knows fewer; lengths end at 0x0FFFFFFF as there.
- PdfRevisions.SigningsScanBack: files are no longer than a machine can address.
- Archive imprint recomputation, path length, name and policy constraints: the code does not implement them.
