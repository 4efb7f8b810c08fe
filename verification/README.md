# What's My Name: a verified model

This project models three parts of the name-constraints test suite and proves what they are for.

* The byte level of the chain generator (`generate_nc_chains.py`): the DER writer and reader, OIDs,
  GeneralNames, NameConstraints and raw extensions, and the routine that splices Names and extensions into a
  signed certificate and signs it again.
* The generator above the bytes: chains of certificates with issuer lookup and inherited raw Names, the DN string
  scanners and parser, the derivation of EC scalars, and the numbered files a chain is written to.
* The differential harness (`test_nc_chains.py`) and the in-memory transport (`wolfssl-verify/verify.c`): the task
  pool, classification and tallies of verdicts, discovery of chains, and the doubling buffers that join two TLS peers.

Code that advances a cursor, loops over pieces or updates a structure is a method with loops or a class, proved
against a function of its inputs; the lemmas are about those functions. Calls into unseen code are parameters: signing
is a deterministic function of key and octets, and the certificate library is a record of functions assumed to be
`ChainTheorems.Conforming` (its certificates are well-formed, carry the Names, public key and extensions they were
asked for, the latter in one SEQUENCE, and are signed over their TBS), an assumption that module ConformingLibrary meets with a library that encodes
different Names differently. Failed allocations, completion
orders, directory orders and file contents are parameters too.

## Files

| file | content |
|---|---|
| `Bytes.dfy`, `Text.dfy` | octet strings, big-endian numbers, options and results; `str.strip()` and `str.replace()` |
| `Der.dfy`, `Oid.dfy`, `Names.dfy` | TLVs; object identifiers; GeneralNames, NameConstraints and extensions |
| `Certificate.dfy` | the fields of a certificate, a strict reader and a printer |
| `Splice.dfy`, `SpliceProofs.dfy`, `SpliceTheorems.dfy`, `WalkExactness.dfy`, `Version3.dfy` | the rewriting of a signed certificate, by offsets, by fields and in octets |
| `Chain.dfy`, `ChainTheorems.dfy`, `Generation.dfy`, `ConformingLibrary.dfy` | chain generation |
| `Dn.dfy`, `DnParser.dfy` | the escape scanners and the DN parser |
| `Scalar.dfy` | EC scalars |
| `Files.dfy`, `Discovery.dfy` | file names, discovery, bundles |
| `Pool.dfy`, `Verdicts.dfy`, `VerdictTheorems.dfy` | the harness |
| `Transport.dfy`, `Duplex.dfy` | the transport |

## Where the code differs from what it says or should do

The model keeps the code as it is; each point is a lemma.

* The P-521 entry of the curve-order table (generate_nc_chains.py:1272) has 513 bits, while the group order of SEC 2
  has 521. Scalars are still valid and evenly spread below the table entry, but no scalar from the entry upwards, over
  255 out of 256 of them, can be drawn (`Scalar.ScalarCoverage`).
* The DN parser removes escapes twice, and strips white space between the two. The docstring calls the format RFC
  4514-like, but of the values that RFC prints (its section 2.4) exactly those survive that have no white space at either
  end, no NUL, and no backslash before the last character (`DnParser.RfcValuesSurvive`): ` a` comes back as `a`, and `a `
  with a backslash behind it (`DnParser.SpacesAreLost`). No escape at all protects white space at the end of a value
  (`DnParser.ValuesExpressible`).
* The reader accepts the length octet 0xFF, which section 8.1.3.5 c) of X.690 rules out; an accepted TLV conforms to
  section 8.1.3 exactly when its first length octet is another (`Der.ConformsUnlessReserved`). So a raw Name of `30 FF` and
  127 zero octets passes the validation (`SpliceProofs.ReservedFormIsAName`). The writer emits that octet for lengths from
  256^126 up, which no certificate reaches, and conforms exactly below (`Der.DerLengthConforms`).
* The reader checks ends against the whole buffer, not against the enclosing TLV. A certificate is well-formed if and
  only if the walk over it succeeds and three ends it does not check fit (`WalkExactness.WalkIsExact`).
* On a well-formed certificate, extensions are appended to all of the `[3]` wrapper and to nothing else if and only if the
  wrapper holds one SEQUENCE and no more (`SpliceTheorems.ExtendsExactly`). What stands behind that SEQUENCE is lost
  (`SpliceTheorems.NothingBehindTheListSurvives`), as with the wrapper `A3 04 30 00 05 00` (`SpliceTheorems.LossInstance`).
  Without a SEQUENCE that fits, the rewriting is refused or copies octets from behind the wrapper into the extensions
  (`SpliceTheorems.ApplicableIsExact`, `SpliceTheorems.ReadsBehindTheWrapper`), as with the wrappers `A3 00` and
  `A3 02 30 05` (`SpliceTheorems.OverrunInstances`). The generator never passes such a certificate: it always adds
  BasicConstraints (generate_nc_chains.py:488-491), so the library always writes one SEQUENCE into a wrapper
  (`ChainTheorems.BuildFailsOnNamesOnly`). The condition is one on other callers.
* The harness finds a leaf's key by replacing every `.cert.pem` in the path of the certificate, not the last one, so it
  misses the key of a leaf whose safe name holds `.cert.pem`, and of no other (`Discovery.LeafKeyIsFound`).
* A self-signed certificate with a raw subject and no raw issuer keeps its encoded subject as issuer, so the two agree
  exactly when the raw subject is that encoding (`ChainTheorems.SelfSignedNamesAgree`).
* The harness documentation speaks of abstentions as chains counted as clean. A chain expected to be invalid on which Go
  abstains is counted as abstained too, and becomes a universal accepts-invalid record although Go rejected it
  (`VerdictTheorems.AbstentionOutcome`).

## Model

| member | source | states |
|---|---|---|
| Der.ReadDerTlv | generate_nc_chains.py:844-874 | the cursor-advancing reader computes `TlvAt`, every error branch included |
| Der.ReaderAcceptsTheGrammar | generate_nc_chains.py:844-874 | reading at a position succeeds with given offsets if and only if a low-form tag, a definite length form or the reserved one, and that many octets stand there |
| Der.ConformsUnlessReserved | generate_nc_chains.py:861-870 | the length octets of an accepted TLV are a form of section 8.1.3 of X.690 if and only if the first is not 0xFF |
| Der.ReservedFormIsAccepted | generate_nc_chains.py:864-868 | `30 FF` and 127 zero octets are one TLV with no contents to the reader, and none to the standard |
| Der.DerLengthConforms | generate_nc_chains.py:1066-1072 | the writer emits a form of the standard if and only if the length is below 256^126 |
| Der.ReaderErrors | generate_nc_chains.py:851-873 | which error is reported for which octets |
| Der.ReadingIsLocal | generate_nc_chains.py:851-874 | a TLV reads the same wherever its octets are moved to |
| Der.ReadBack | generate_nc_chains.py:1062-1072 | in any context a written string reads back as its tag and value if and only if the tag has the low form and the length needs at most 127 octets |
| Der.RewritingIsMinimal | generate_nc_chains.py:844-874 | re-encoding any accepted TLV never takes more octets than were read, and as many only when it is the same string (section 10.1 of X.690) |
| Der.ShortestLengthForm | generate_nc_chains.py:1066-1072 | the length the writer emits is the shortest of all length forms and the only one of its size |
| Der.DerStringInjective | generate_nc_chains.py:1062-1063 | no two values have the same encoding under a tag, at any length |
| Der.SplitAllInvertsJoin | generate_nc_chains.py:844-874 | cutting a concatenation into TLVs gives the list back if and only if all its elements are TLVs |
| Oid.Base128 | generate_nc_chains.py:714-723 | the septet loop, reversal and continuation bits give the subidentifier of the value |
| Oid.EncodeOidDer | generate_nc_chains.py:700-711 | the append loop gives the TLV over all subidentifiers, or refuses |
| Oid.SubidentifierShape | generate_nc_chains.py:714-723 | continuation bits on all octets but the last, and no padding octet in front (section 8.19 of X.690) |
| Oid.SubidentifiersDecodeExactly | generate_nc_chains.py:714-723 | a strict base-128 decoder accepts exactly the written octets and returns the written numbers |
| Oid.OidBodyDecodesExactly | generate_nc_chains.py:703-711 | identifier contents and valid arc lists are in one-to-one correspondence |
| Oid.EncodeOidIsInjective | generate_nc_chains.py:700-711 | encoding fails exactly on invalid arcs and is injective on valid ones |
| Oid.KnownIdentifiers | generate_nc_chains.py:700-711 | the octets of 2.5.29.30, the identifier of nameConstraints, and of 1.2.840 |
| Certificates.TbsReadsExactly | generate_nc_chains.py:775-805 | TBS contents and valid field records are in one-to-one correspondence (section 4.1 of RFC 5280) |
| Certificates.CertificateReadsExactly | generate_nc_chains.py:759-773 | the strict reader accepts exactly one SEQUENCE around a TBS, an algorithm and a BIT STRING |
| Splice.ValidateSingleTlv | generate_nc_chains.py:726-736 | the validation of raw Names computes `ValidateSingle` |
| SpliceProofs.ValidatesNames | generate_nc_chains.py:726-736 | validation accepts exactly None and single SEQUENCE TLVs |
| SpliceProofs.ValidationErrors | generate_nc_chains.py:730-736 | which of its errors the validation reports |
| SpliceProofs.ReservedFormIsAName | generate_nc_chains.py:726-736 | the validation accepts a Name whose length has the reserved form |
| Splice.WalkCertificate | generate_nc_chains.py:759-805 | the walk with its cursor finds the offsets of `Walk`, or fails as it does |
| Splice.ScanTrailing | generate_nc_chains.py:797-805 | the scan over optional fields finds the first `[3]` wrapper before the end |
| Splice.SpliceEdits | generate_nc_chains.py:828-836 | the pieces-and-cursor loop applies the edits in order |
| Splice.RewriteTbsAndResign | generate_nc_chains.py:739-841 | the whole routine computes `Rewrite` on every input, malformed ones included |
| SpliceProofs.WalkFindsTheFields | generate_nc_chains.py:759-805 | on a well-formed certificate the offsets found over the whole buffer are those of the strictly read fields |
| WalkExactness.WalkIsExact | generate_nc_chains.py:759-805 | for all octet strings, the strict reader accepts if and only if the walk succeeds, the outer SEQUENCE and a BIT STRING behind the algorithm end with the octets, and the scan stops inside the TBS; then the offsets are those of the fields |
| WalkExactness.WalkSucceeds | generate_nc_chains.py:759-805 | the walk succeeds exactly when its fields can be read one behind the other and the scan ends |
| WalkExactness.WalkRefusesTags | generate_nc_chains.py:762-769 | the two tags it insists on, and its error |
| WalkExactness.RewritesInPlace | generate_nc_chains.py:807-841 | on any octets the walk gets through, well-formed or not, the new TBS is the stretches between the edited fields with the new fields between them |
| SpliceProofs.SortSorts | generate_nc_chains.py:828 | the sort gives the same edits in order |
| SpliceProofs.SortKeepsOrder | generate_nc_chains.py:828 | the stable sort leaves edits that are in order alone |
| SpliceProofs.EditedValue | generate_nc_chains.py:807-836 | applying the edits by offset gives the contents octets of the edited fields |
| SpliceProofs.RewriteRefines | generate_nc_chains.py:739-841 | on every well-formed certificate and for all Names and blobs, the rewriting by offsets computes a rewriting on fields, errors included |
| Version3.ContentsRead | generate_nc_chains.py:775-805 | for any fields, contents that start with `A0 03 02 01 02` read as version 3 and those fields (section 4.1.2.1 of RFC 5280) |
| Version3.RewritesVersion3 | generate_nc_chains.py:739-841 | every version 3 certificate, spelled with literal tags, comes out with issuer and subject replaced, blobs appended, all else unchanged and all lengths and the signature new |
| Version3.WholeCertificate | generate_nc_chains.py:739-841 | one certificate and its rewriting, octet by octet |
| SpliceTheorems.SpliceCorrect | generate_nc_chains.py:739-841 | for every well-formed certificate and every combination of edits, reading the output gives the replacement Names, the old and new extension octets, all other fields and the algorithm unchanged and a signature over exactly the new TBS, if and only if the output length is representable |
| SpliceTheorems.ExtensionsAreAppended | generate_nc_chains.py:813-826 | seen as lists the extensions are the old ones followed by the blobs, if and only if every blob is one TLV |
| SpliceTheorems.PassesFuse | generate_nc_chains.py:807-841 | rewriting twice gives, octet for octet, the certificate of one pass with both sets of edits |
| SpliceTheorems.PassesMerge | generate_nc_chains.py:807-841 | any number of passes gives, octet for octet, the certificate of one pass with the merged edits |
| SpliceTheorems.AnyOrderOfThree | generate_nc_chains.py:807-841 | all six orders of a subject, an issuer and an extensions pass give the certificate of the single pass |
| SpliceTheorems.PassesCommute | generate_nc_chains.py:807-841 | any two of an issuer, a subject and an extensions pass commute |
| SpliceTheorems.NoEditsIsIdentity | generate_nc_chains.py:828-841 | without edits the TBS is unchanged if and only if it was minimal, the certificate if and only if in addition its outer length was minimal and its signature this signer's |
| SpliceTheorems.RewriteRefuses | generate_nc_chains.py:815-823 | a raw Name that is not one SEQUENCE TLV fails; extensions without a wrapper, behind whose header no TLV stands, or another one than a SEQUENCE, fail with those errors; everything else succeeds |
| SpliceTheorems.ApplicableIsExact | generate_nc_chains.py:813-826 | the rewriting succeeds without copying an octet from behind the wrapper if and only if the Names are valid and, for blobs to append, the wrapper holds a SEQUENCE |
| SpliceTheorems.ExtendsExactly | generate_nc_chains.py:813-826 | with blobs to append, it succeeds and the list it copies ends where the wrapper does if and only if the Names are valid and the wrapper holds one SEQUENCE and nothing else |
| SpliceTheorems.NothingBehindTheListSurvives | generate_nc_chains.py:824-826 | the output's wrapper holds the extended list alone, so what stood behind the old list is kept if and only if nothing did |
| SpliceTheorems.LossInstance | generate_nc_chains.py:824-826 | a concrete certificate, with wrapper `A3 04 30 00 05 00`, of which two octets are lost |
| SpliceTheorems.ReadsBehindTheWrapper | generate_nc_chains.py:818-826 | when the wrapper holds none, the rewriting is refused or the SEQUENCE it copies runs past the wrapper, with the certificate that then comes out |
| SpliceTheorems.EmptyWrapperTakesSignatureAlgorithm | generate_nc_chains.py:818-826 | with an empty wrapper the signature algorithm's contents end up in the extension list |
| SpliceTheorems.OverrunInstances | generate_nc_chains.py:818-826 | two concrete certificates, with wrappers `A3 00` and `A3 02 30 05`, on which it copies from behind the wrapper |
| Names.TypedNameIsStripped | generate_nc_chains.py:912-916 | wrapping and stripping a typed name is the identity if and only if its length is representable |
| Names.GeneralNamesRoundTrip | generate_nc_chains.py:919-921 | GeneralNames parse to the assembled list if and only if all names are TLVs (section 4.2.1.6 of RFC 5280) |
| Names.NameConstraintsRoundTrip | generate_nc_chains.py:924-932 | NameConstraints parse to exactly the permitted and excluded lists, order and duplicates kept and an empty side absent, if and only if all names are TLVs (section 4.2.1.10 of RFC 5280) |
| Names.AssembledNamesParse | generate_nc_chains.py:908-932 | the same from raw and typed names in any mixture, for SANs and constraints |
| Names.ConstraintsInOctets | generate_nc_chains.py:919-932 | the tags of constraints, subtrees and GeneralNames, spelled out |
| Names.ExtensionInOctets | generate_nc_chains.py:689-697 | the octets of a critical and of a non-critical nameConstraints extension with any value |
| Names.ExtensionRoundTrip | generate_nc_chains.py:689-697 | a structured raw extension is one TLV that parses to its arcs, criticality and value; only invalid arcs fail (section 4.2 of RFC 5280) |
| Chain.GenerateChain | generate_nc_chains.py:363-413 | the loop over the map, the list and the files computes `Generate`, with its first error |
| Generation.GenerationSucceeds | generate_nc_chains.py:363-472 | a run succeeds if and only if every entry has a new id with a character for a file name, the first is a self-signed CA with the anchor's subject, every other is self-signed or issued by an earlier CA (or allowed not to be), and subjects or SANs, constraints, issuer choice and raw Names are in order |
| Generation.GenerationFails | generate_nc_chains.py:363-569 | a run fails at its first entry that does not fit, and the error names a fault of that entry |
| Generation.AnchorSucceeds | generate_nc_chains.py:352-358 | the shared anchor can be built exactly from a self-signed CA whose own fields fit |
| Generation.EmittedCertificate | generate_nc_chains.py:475-586 | issuer, subject, public key and extensions of every emitted certificate, as its entry and its issuer determine them |
| Generation.SameNameMeans | generate_nc_chains.py:433-438 | Names count as the same exactly when RDN by RDN they hold the same types and values |
| ConformingLibrary.ConformingIsPossible | generate_nc_chains.py:475-544 | the assumption on the certificate library can be met by one whose encoded Names determine the Name and whose signatures determine key and octets |
| ChainTheorems.EmittedFields | generate_nc_chains.py:451-586 | the issuer, subject and signature that reach the disk: explicit raw octets, then the parent's raw subject, then the encoded Name; signed by the resolved issuer over the written TBS |
| ChainTheorems.BuildFailsOnNamesOnly | generate_nc_chains.py:475-586 | what the library builds always has one extension list that fills its wrapper, so building fails, once issuer and extensions are checked, exactly on invalid raw Names |
| ChainTheorems.IssuerResolves | generate_nc_chains.py:451-472 | in a successful run an entry is self-signed or issued by exactly one earlier entry, a CA unless the entry allows otherwise |
| ChainTheorems.IdsAreDistinct | generate_nc_chains.py:387-388 | the ids of a successful run are distinct |
| ChainTheorems.AnchorFields | generate_nc_chains.py:390-397 | the shared anchor is written as the library built it, raw fields dropped, with equal issuer and subject and its own signature |
| ChainTheorems.NamesLink | generate_nc_chains.py:566-586 | every emitted certificate that is not self-signed and chooses no issuer carries the emitted subject octets of its parent |
| ChainTheorems.SelfSignedNamesAgree | generate_nc_chains.py:456-459 | a self-signed certificate's issuer equals its subject if and only if the raw or encoded octets for both are the same; without a raw issuer, if and only if no raw subject changed it |
| ChainTheorems.SignedByIssuer | generate_nc_chains.py:535-586 | every built certificate is signed on disk with its issuer's key over the written TBS |
| ChainTheorems.IssuersAreWellFounded | generate_nc_chains.py:451-472 | following issuers goes strictly back and ends at a self-signed certificate |
| ChainTheorems.GeneratedChainIsDiscovered | generate_nc_chains.py:403-408 | a generated chain is discovered again in generation order |
| ChainTheorems.GeneratedChainIsBundled | test_nc_chains.py:326-329 | for every directory order, the wolfSSL bundle of a generated chain holds the emitted certificates but the first, leaf first, and is the generator's chain bundle |
| Text.StripDropsSpace | generate_nc_chains.py:1166 | stripping drops white space on both sides and nothing else |
| Text.SpacesListed | generate_nc_chains.py:1166 | the white space characters, by code |
| Text.SubstringStands | test_nc_chains.py:1169 | a substring is found exactly when it stands somewhere |
| Dn.UnescapeDnValue | generate_nc_chains.py:1216-1230 | the loop with its pending escape computes `Unescape` |
| Dn.SplitAtUnescaped | generate_nc_chains.py:1179-1199 | the loop over pieces and current computes `SplitUnescaped` |
| Dn.SplitOnceUnescaped | generate_nc_chains.py:1202-1213 | the loop computes `SplitOnce` |
| Dn.ScannersAgree | generate_nc_chains.py:1179-1230 | for every string and delimiter: a cut exists if and only if there are two pieces, and then the unescaped left part and the pieces of the right part are the pieces; otherwise the piece is the unescaped string |
| Dn.CutsAtFirstUnescaped | generate_nc_chains.py:1202-1213 | there is a cut if and only if the delimiter stands behind an even number of backslashes somewhere, and it is at the first such place |
| Dn.SplitOnceParts | generate_nc_chains.py:1202-1213 | the cut loses nothing and is at the first unescaped delimiter |
| DnParser.ParseNameString | generate_nc_chains.py:1154-1167 | the parser loop, both forms, before the OID lookup |
| DnParser.DnRoundTrip | generate_nc_chains.py:1091-1098 | a printer that escapes twice is inverted by the parser on all printable lists, the empty one included |
| DnParser.KeySpaceIsDropped | generate_nc_chains.py:1166 | with any white space before and behind its keys, every printable list reads back as without |
| DnParser.PieceMeans | generate_nc_chains.py:1162-1166 | any piece is cut at its first unescaped equals sign; key and value are what stands between white space before and behind it, the value unescaped |
| DnParser.OuterSpaceIsDropped | generate_nc_chains.py:1092-1098 | white space around the whole string is dropped |
| DnParser.SlashCuts | generate_nc_chains.py:1155-1156 | the slash form is cut at every slash and nowhere else, and only empty segments are left out |
| DnParser.ParsingFails | generate_nc_chains.py:1163-1164 | a string is refused if and only if some piece holds no unescaped equals sign |
| DnParser.ValuesExpressible | generate_nc_chains.py:1160-1167 | a value can be expressed if and only if it does not end in white space |
| DnParser.SlashRoundTrip | generate_nc_chains.py:1155-1156 | the slash form, printed with one level of escapes, is inverted by the parser on all pairs without slashes |
| DnParser.SlashValuesExpressible | generate_nc_chains.py:1155-1156 | a value can be expressed in slash form if and only if it holds no slash and does not end in white space |
| DnParser.EscapingOnce | generate_nc_chains.py:1154-1167 | every value with backslash and comma escaped once comes back stripped and unescaped once more, which is the value if and only if it has no outer white space and no backslash before the last character |
| DnParser.RfcValuesSurvive | generate_nc_chains.py:1080 | a value printed by section 2.4 of RFC 4514 comes back if and only if in addition it holds no NUL |
| DnParser.SpacesAreLost | generate_nc_chains.py:1154-1167 | two values that do not come back, with a space in front and behind, escaped or not |
| Scalar.ScalarBias | generate_nc_chains.py:1276-1291 | every scalar below the table order has q or q+1 preimages among the hash outputs, q being at least 2^64 |
| Scalar.ScalarIsCongruent | generate_nc_chains.py:1290 | the scalar is the number in range congruent to the hash output plus one, modulo the order less one |
| Scalar.FirstScalars | generate_nc_chains.py:1290 | hash outputs below the order less one give the scalar one above them |
| Scalar.ScalarsAreValid | generate_nc_chains.py:1288-1291 | every hash output gives a scalar in range, and the counted numbers are the hash outputs |
| Scalar.PreimagesAreOutputs | generate_nc_chains.py:1288-1290 | each counted number is the number of exactly one octet string that gives the scalar |
| Scalar.ScalarCoverage | generate_nc_chains.py:1269-1273 | all scalars of the group can be drawn if and only if the curve is not P-521 |
| Files.SafeNamesAreSafe | generate_nc_chains.py:1511-1515 | a safe file name is not empty, holds only safe characters and has no dot or dash at either end; such names come back unchanged; exactly the strings without any character but unsafe ones, dots and dashes are refused |
| Files.RunBecomesDash | generate_nc_chains.py:1512 | each run of unsafe characters becomes one dash, and what is around it is treated for itself |
| Files.SafeNamesJoin | generate_nc_chains.py:1511-1515 | two safe names with unsafe characters between them come out joined by a dash |
| Files.TwoDigitsShape | generate_nc_chains.py:403 | numbers are padded to two digits and to no more |
| Files.SafeNameParts | generate_nc_chains.py:1512 | what is cut off at the ends is dots and dashes alone |
| Files.SafeListed | generate_nc_chains.py:1512 | the safe and the trimmed characters, by code |
| Files.MatchesThePattern | test_nc_chains.py:383-385 | a name matches exactly when it is digits, a dash, at least one character and the suffix, and gives the number of the digits |
| Files.FirstFiles | generate_nc_chains.py:403-405 | the files of a first entry `root` |
| Files.CertFileMatches | test_nc_chains.py:383-385 | a numbered certificate file gives its index back for every index, and a key file is never taken for one |
| Discovery.DiscoverChain | test_nc_chains.py:642-653 | the loop collects the matching files and yields root, middle and leaf in sorted order |
| Discovery.SortPermutes | test_nc_chains.py:650 | the sort gives a sorted permutation |
| Discovery.DiscoveryMeans | test_nc_chains.py:642-653 | in any directory, the files found are those that match, in the order of their numbers, and fewer than two are skipped |
| Discovery.DiscoveryRecoversOrder | test_nc_chains.py:642-653 | for any chain of at least two certificates and any listing order, exactly the certificate files are found in generation order |
| Discovery.WolfsslBundle | test_nc_chains.py:326-329 | the loop writes the leaf and then the intermediates in reverse |
| Discovery.BundlesAgree | generate_nc_chains.py:1487-1492 | the wolfSSL bundle of a discovered chain is the generator's chain bundle, octet for octet |
| Discovery.ChainBundleHolds | generate_nc_chains.py:1487-1492 | the bundle of a chain of one holds that one, of a longer chain all but the first |
| Discovery.KeyPathIs | test_nc_chains.py:317 | the path looked up is in the leaf's directory, under the leaf's number |
| Discovery.LeafKeyIsFound | test_nc_chains.py:317-319 | the harness finds a key for a discovered leaf if and only if its safe name does not hold `.cert.pem`, and then its own |
| Discovery.LeafKeyIsMissed | test_nc_chains.py:317-319 | ids that end in `.cert.pem` are safe names whose key is looked for under a name nothing was written to |
| Pool.Collect | test_nc_chains.py:1129-1149 | for every completion order the table ends with exactly one entry per chain and enabled validator, that task's verdict |
| Pool.StoredIsComplete | test_nc_chains.py:1138-1149 | storing verdicts in any permutation of the submitted tasks leads to the same table |
| Verdicts.ClassifyAll | test_nc_chains.py:1151-1220 | the classification loop computes `Summarize` |
| VerdictTheorems.CallsBecomeRows | test_nc_chains.py:1129-1149 | a row accepts if and only if the call finished and accepted; a call that raised is a rejection with its message |
| VerdictTheorems.LastChain | test_nc_chains.py:1161-1207 | each chain adds to counts and buckets what its raw results say: only a rejection by Go alone that names an unhandled critical extension is rewritten, everything else is clean or recorded with exactly its wrong names |
| VerdictTheorems.GenuineRejection | test_nc_chains.py:1167-1220 | a rejection by Go alone for another reason is a rejects-valid record and an outlier |
| VerdictTheorems.GenuineReason | test_nc_chains.py:1169 | a message that is no abstention |
| VerdictTheorems.CollectedRows | test_nc_chains.py:1151-1155 | the rows assembled from the table are in canonical order, one per validator |
| VerdictTheorems.ScheduleIndependent | test_nc_chains.py:1129-1220 | any two completion orders give the same counts, buckets, records and outlier lists |
| VerdictTheorems.RunHarness | test_nc_chains.py:1129-1220 | pool, assembly and classification together compute that summary for every completion order |
| VerdictTheorems.AbstentionOutcome | test_nc_chains.py:1157-1174 | an abstention makes a valid chain clean, an invalid one a universal record, and Go alone in rejecting with three validators |
| VerdictTheorems.OutlierCharacterised | test_nc_chains.py:1209-1220 | a chain gives an outlier entry if and only if there are three validators and one raw verdict differs from all others, and the entry names it |
| VerdictTheorems.OutlierLists | test_nc_chains.py:1214-1220 | each outlier list holds the labels of exactly the chains with that outlier, in order |
| VerdictTheorems.AbstentionsAreOutliers | test_nc_chains.py:1163-1220 | with three validators Go's alone-in-rejecting list is at least as long as the abstention count |
| VerdictTheorems.Conservation | test_nc_chains.py:1161-1207 | every chain is clean, accepts-invalid or rejects-valid; every record has a wrong validator; wrong names and raw verdicts differ only by rewritten abstentions |
| VerdictTheorems.Tally | test_nc_chains.py:1260-1269 | the tally loops count, per validator, how often it gave the wrong verdict in a bucket |
| VerdictTheorems.TallyCounts | test_nc_chains.py:1260-1269 | a validator's tally is the number of records in which it gave the verdict |
| VerdictTheorems.TalliesAddUp | test_nc_chains.py:1260-1269 | the rejects-valid column sums to the wrong names of its bucket, the accepts-invalid column to those of its bucket less the rewritten abstentions |
| VerdictTheorems.ExitCodeIsZero | test_nc_chains.py:1354 | both buckets are empty if and only if all adjusted verdicts are as expected |
| Transport.DoublingTerminates | wolfssl-verify/verify.c:54-55 | in 64-bit arithmetic the doubling loop ends if and only if at most 2^63 octets are needed |
| Transport.GrowShape | wolfssl-verify/verify.c:54-55 | growth keeps capacities 4096 times a power of two, below twice the need and within 2^63 |
| Transport.MemBuf.FindCapacity | wolfssl-verify/verify.c:54-55 | the loop with wrapping products finds the first sufficient doubling |
| Transport.MemBuf.Write | wolfssl-verify/verify.c:52-64 | a write appends its octets, or leaves the buffer unchanged and returns -1 when allocation fails |
| Transport.MemBuf.Read | wolfssl-verify/verify.c:83-89 | a read delivers the next unread octets up to the size asked for, or reports that it would block |
| Transport.WriteOutcome | wolfssl-verify/verify.c:52-64 | a write succeeds if and only if the octets fit or the allocation succeeds; what it changes, moves and reserves then, and that nothing changes otherwise |
| Transport.ReceiveOutcome | wolfssl-verify/verify.c:80-90 | a receive blocks if and only if nothing is unread, and otherwise delivers as much as was asked for or is there |
| Duplex.PeerIo.IoSend | wolfssl-verify/verify.c:72-78 | a send appends to the peer's out buffer and returns the size or the general error |
| Duplex.PeerIo.IoRecv | wolfssl-verify/verify.c:80-90 | a receive takes from the peer's in buffer |
| Duplex.Session | wolfssl-verify/verify.c:194-200 | the two-peer wiring, driven by any callbacks, ends in the state and transcripts of the pure run |
| Duplex.AmortisedGrowth | wolfssl-verify/verify.c:52-64 | after any run of writes the buffer holds the successful ones, its capacity is zero or 4096 times a power of two, and reallocations moved at most twice its length |
| Duplex.AllWritesArrive | wolfssl-verify/verify.c:52-64 | when every allocation succeeds the buffer holds all writes of a run |
| Duplex.AllSendsArrive | wolfssl-verify/verify.c:72-78 | when every allocation succeeds each peer has sent all the data of its sends |
| Duplex.RecvDrains | wolfssl-verify/verify.c:80-90 | a peer that asks for enough has read all the other wrote |
| Duplex.DuplexFifo | wolfssl-verify/verify.c:66-90 | under every interleaving each peer has read a prefix of what the other wrote, the rest is unread, and the directions never mix |

## Left out

- DerLength: a negative length, which no caller passes, and a length of 256^255 or more, where the original raises an uncaught error, are not modelled; no octet string is that long.
- EncodeOid: starts from the arcs; the dotted text and its regular expression are left out.
- ReadTbs: reads each field as one TLV and not the structure inside it; fields behind the extensions are kept as octets.
- Build: serial numbers, dates, usages and typed extensions are one opaque value; keys and parsed raw octets are given; the library's own errors are left out.
- Conforming: is assumed of the certificate library, not proved, and only for certificates shorter than 256^127 octets.
- ParseDn: ends before the OID lookup; the object and array forms of DNs are left out.
- ScalarOf: takes the hash output as given; nothing is said about how SHAKE-256 distributes it.
- MatchCertFile: knows ASCII digits only and names without line ends; other Unicode digits are left out.
- Discover: is about one directory; metadata, skipped directories and messages are left out.
- Collect: the thread pool is an arbitrary order in which every submitted task finishes once.
- ClassifyAll: verbose output, printing and the sorting of printed records are left out, as are the output cleaners.
- MemBuf.Write: is called with at most 2^63 octets in all, which is where the original's loop ends at all, by DoublingTerminates.
- MemBuf.Read: takes a non-negative size, as the TLS library passes.
- Validation of name constraints by the external validators, their shims, the TLS handshake, cryptography, `ascii2der`, command lines and file writes are not part of this model.
- `export_for_botan.py`, the Makefile and the input DSL's type checks would only add easy members.
