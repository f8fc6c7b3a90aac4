# A verified model of the LimniFS Python reader

LimniFS packs a filesystem image into a *manifest* (sections that say where everything is), *slabs*
(the stored contents) and a *metadata blob* (inodes and directory nodes). The Python package has two
sides that share no parsing code: `ManifestBuilder` writes manifests, and cursor-driven parsers read
them. This project models both sides in Dafny and proves how they fit together.

## How it is organised

| file | what it holds |
|---|---|
| `Wire.dfy` | bytes, results, little-endian integers, counted lists, and what "exact" means |
| `Cursor.dfy` | the reader's cursor and the writer's growing buffer, as classes |
| `Utf8.dfy`, `Lookup.dfy`, `FormatTypes.dfy`, `TextId.dfy` | strings and their order, first-match search, identifiers and the manifest header, the text form of identities |
| `FeatureFlags.dfy`, `Locator.dfy`, `MetadataReference.dfy`, `SlabIndex.dfy`, `EcParams.dfy`, `DmsPolicy.dfy`, `History.dfy` | one file per section parser |
| `Manifest.dfy`, `Merkle.dfy`, `Verify.dfy`, `Builder.dfy` | the chain of sections, the root, the verifier, the builder |
| `Slab.dfy`, `Codec.dfy`, `SlabReader.dfy` | slab headers and drop records, codecs, the inferred boundary, reading drops |
| `DirectoryNode.dfy`, `Inode.dfy`, `Metadata.dfy`, `RootDiscovery.dfy` | the metadata blob, content addressing, and the root directory |
| `Layout.dfy`, `MetadataLayout.dfy` | the format in numbers, independent of the parsers and the builder |
| `Outcome.dfy` | every outcome that is not a value: what is truncated, what is a wrong magic, what is unsupported |

Every parser appears in three forms. A `Decode...` function says what is read at a position, including
which error is raised. A `Parse...` method on a mutable cursor is the code's own shape, with its loops
and `seen` sets, and is proved to follow the function, errors included. An `Encode...` function says
what the bytes of a value are, and knows nothing about reading. The `...Exact` lemmas tie the two
together: for every buffer, position, value and end, decoding yields that value and that end **if and
only if** the value is well-formed and its encoding stands there. Canonicality, prefix-freeness,
locality, the harmlessness of the prechecks, the round trips and the binding of the Merkle root are
then consequences.

The constants and predicates of the parsers could be wrong on both sides at once. So the format is
written down a second time, in `Layout.dfy` and `MetadataLayout.dfy`, in literal numbers and bytes and
without any of them; the `...SpelledOut` lemmas prove that the parsers accept precisely that, and the
lemmas of `Outcome.dfy` say in the same terms which error every other input gets.

BLAKE3 is any function from bytes to 32 bytes; nothing is assumed about collisions, and results that
depend on their absence name two colliding inputs instead. `str.isalpha` and `str.isalnum` are
parameters. The LZ4 block functions are parameters too.

## Where the code and its documentation differ

- `limnifs/feature_flags.py:3-5` says a required flag unknown to the reader is refused. The parser
  does not do this: `RequiredUnknownAccepted` shows one accepted, byte by byte, and every other id with it;
  `UnsupportedOnlyByVersion` states exactly when the section is refused as unsupported.
- `limnifs/locator.py:48` cites the scheme grammar of section 3.1 of RFC 3986. The code accepts any
  Unicode letter or digit; `SchemeIsRfc3986` gives the exact condition under which the two agree, and
  `NonAsciiSchemeAccepted` a locator, in bytes, whose scheme they differ on.
- The overflow test at `limnifs/drop_record.py:69` can never fire on Python integers; `ParseDropRecord`
  proves that branch unreachable.
- `_verify_bytes` expects an optional section whenever flag 0x0001 or 0x0002 is declared
  (`limnifs/cli.py:102`, `limnifs/cli.py:109`), but the builder never writes one.
  `AnnouncedSectionBreaksRoundTrip` shows that this breaks the round trip in all such cases and no other;
  `AnnouncingSpecNotRecovered` is one of them.
- `root_inode_number` calls the result "the root" (`limnifs/metadata.py:61-64`), yet nothing checks that
  the rest of the tree hangs off it. `RootReachesExactly` says when it does: every directory is reached
  exactly when each one that is referred to is listed by some directory's own node, and each one on a
  cycle is reached; without cycles the first half alone decides (`AcyclicReachesAllExactly`). Both halves
  can fail in blobs that parse: `OrphanEscapesRoot` (a node no directory owns) and `CycleEscapesRoot`.
- The same docstring speaks of numbers not referenced by any *other* directory. The code also counts a
  directory's entries for itself and the entries of nodes no directory owns. `DocumentedRootAgrees` says
  exactly when the two criteria find the same root; `SelfEntryHidesRoot` is a blob on which they differ.

- `limnifs/format_types.py:33` calls the base32 decoder the inverse of the encoder. It does undo it
  (`TextRoundTrip`), but other texts decode to the same bytes: `DecodeTextExact` and `TextsExactly` say
  exactly which (either case, some explicit padding, any spare bits in the last digit), and
  `CanonicalSpelling` and `CanonicalText` when such a text is the encoder's own. `UpperCaseParses` and
  `PaddedTextParses` give inputs.

## Model

| member | source | states |
|---|---|---|
| `Cursors.Cursor.Open` | limnifs/cursor.py:23-27 | A cursor can be opened exactly at positions inside the buffer or at its end; otherwise the input is truncated. |
| `Cursors.Cursor.Read` | limnifs/cursor.py:45-54 | A read returns the next n bytes and advances past them; a negative n is corrupt, a read past the end is truncated, and a failed read does not move. |
| `Cursors.Cursor.ReadU8` | limnifs/cursor.py:56-57 | The next byte as an integer. |
| `Cursors.Cursor.ReadU16Le` | limnifs/cursor.py:59-60 | The next two bytes as a little-endian integer. |
| `Cursors.Cursor.ReadU32Le` | limnifs/cursor.py:62-63 | The next four bytes as a little-endian integer. |
| `Cursors.Cursor.ReadU64Le` | limnifs/cursor.py:65-66 | The next eight bytes as a little-endian integer. |
| `Cursors.Buffer.Pack` | limnifs/builder.py:163-175 | Packing refuses exactly the integers the field cannot hold and otherwise appends their little-endian bytes. |
| `Wire.LeExact` | limnifs/cursor.py:59-66 | Unpacking and packing little-endian integers of any width are inverse, and nothing else unpacks to the same number. |
| `Layouts.LittleEndian` | limnifs/cursor.py:56-66 | The bytes of one, two, four and eight byte integers, low byte first. |
| `Wire.ReadOutcomes` | limnifs/cursor.py:45-54 | A read is corrupt exactly for a negative count, truncated exactly when it runs past the end, and otherwise the bytes there. |
| `Wire.ReadIntExact` | limnifs/cursor.py:56-66 | An integer read yields n exactly when n fits the width and its bytes stand at the position. |
| `Wire.ManyExact` | limnifs/slab_index.py:75-97 | A counted loop over a step that is exact, given what was read before, is itself exact on lists. |
| `Wire.CountedExact` | limnifs/locator.py:99-106 | With or without the "remaining bytes" precheck the loop accepts the same inputs with the same values, when each accepted element is as wide as the precheck supposes. |
| `Wire.CountedHastens` | limnifs/locator.py:99-106 | Prechecks, of a loop and inside its step, and a buffer that ends sooner, only ever replace an outcome by truncation. |
| `Wire.GuardShows` | limnifs/locator.py:99-106 | A precheck shows exactly when fewer bytes are left than it asks for and the plain loop does not itself report truncation. |
| `Wire.ExactIsLocal` | limnifs/cursor.py:45-54 | Anything that accepts exactly an encoding depends on no byte outside it. |
| `Lookups.FreshIsDistinct` | limnifs/slab_index.py:76-87 | The one-at-a-time test against the keys already seen holds exactly when all keys are pairwise distinct. |
| `Lookups.LookupDistinct` | limnifs/slab_index.py:51-55 | With distinct keys a first-match search finds each element under its own key. |
| `Lookups.OrderFreeExactly` | limnifs/metadata.py:46-56 | First-match searches find the same in every order of a list exactly when elements with one key are equal. |
| `Utf8.Utf8Exact` | limnifs/locator.py:67-73 | Strict UTF-8 decoding yields a string exactly on that string's encoding: overlong forms, surrogates and out-of-range values are all refused (section 3 of RFC 3629). |
| `Utf8.ScalarValues` | limnifs/directory_node.py:75-80 | The characters of strings are exactly the Unicode scalar values. |
| `Utf8.EncodingTable` | limnifs/metadata.py:88-90 | The encoding of a character is the row of the table of section 3 of RFC 3629 for its range, its bits six to a byte from the right. |
| `Utf8.LessMeans` | limnifs/directory_node.py:81-84 | The order of names is lexicographic: a proper prefix comes first, else the first difference decides. |
| `Utf8.Utf8Order` | limnifs/directory_node.py:75-84 | Strings compare as their UTF-8 bytes do (section 1 of RFC 3629). |
| `Utf8.AsciiByte` | limnifs/directory_node.py:67-74 | An ASCII byte occurs in the bytes of a name only for that character of the name, so testing bytes for '/' and NUL tests the string. |
| `TextIds.TextRoundTrip` | limnifs/format_types.py:27-35 | For byte strings of every length, re-padding restores exactly the stripped padding and decoding inverts the lower-case unpadded base32 encoding (section 6 of RFC 4648). |
| `TextIds.Alphabet` | limnifs/format_types.py:27-35 | The digits are A to Z and 2 to 7, in that order (section 6 of RFC 4648). |
| `TextIds.EncoderSpelledOut` | limnifs/format_types.py:27-29 | Five bytes are eight digits of five bits each, from the left, and one to four bytes left over are the digits that hold them, completed by '='. |
| `TextIds.ToTextSpelledOut` | limnifs/format_types.py:67-68 | The text of an identity is "b3:" and its 52 digits in lower case, without the four '='. |
| `TextIds.IdRoundTrip` | limnifs/format_types.py:56-68 | Parsing the text of an identity gives the identity. |
| `TextIds.TextInjective` | limnifs/format_types.py:67-68 | Distinct identities have distinct texts. |
| `TextIds.DecodeTextExact` | limnifs/format_types.py:32-35 | For texts and data of every length, decoding gives the data exactly on its spellings: its digits in either case, the last one up to its spare bits, then at most the padding that completes the quantum. |
| `TextIds.CanonicalSpelling` | limnifs/format_types.py:27-35 | Of the spellings of some data, the encoder writes exactly the one in lower case, without padding, with no spare bit set. |
| `TextIds.TextsExactly` | limnifs/format_types.py:56-65 | A text parses to an identity exactly when "b3:" is followed by its 52 digits in either case, with any of the last one's four spare bits, and by up to four '='. |
| `TextIds.CanonicalText` | limnifs/format_types.py:56-68 | A text that parses is the identity's own text exactly when it is 55 characters long, in lower case, and ends in 'a' or 'q'. |
| `TextIds.UpperCaseParses` | limnifs/format_types.py:32-35 | So texts are not unique: the upper-case spelling of every identity differs from its text and parses to it. |
| `TextIds.PaddedTextParses` | limnifs/format_types.py:32-35 | The text of an identity with more '=' after it parses to it exactly up to four. |
| `FormatTypes.SlabIdExact` | limnifs/format_types.py:120-130 | Forty bytes parse to a slab id exactly when they are its ordinal and hash. |
| `Headers.ParseManifestHeader` | limnifs/header.py:47-67 | The method follows the header decoder, errors and position included. |
| `Headers.HeaderExact` | limnifs/header.py:47-67 | A header is accepted exactly on magic, three u16 versions and six zero bytes. |
| `Layouts.HeaderSpelledOut` | limnifs/header.py:47-67 | A header is accepted exactly on "LMFS", three integers below 0x10000 and six zero bytes, in literal bytes. |
| `Outcomes.HeaderErrors` | limnifs/header.py:52-67 | The magic is bad exactly when four bytes are there and are not "LMFS"; nothing in a header is unsupported. |
| `FeatureFlags.ParseFeatureFlagsSection` | limnifs/feature_flags.py:56-97 | The loop with its `seen` set and precheck follows the section decoder, errors included. |
| `FeatureFlags.FlagsExact` | limnifs/feature_flags.py:56-97 | The section is accepted exactly on the encoding of nonzero u16 flag ids, each new, with 0 or 1 for required, prechecks or not. |
| `Layouts.FlagsSpelledOut` | limnifs/feature_flags.py:56-97 | The same in literal bytes and numbers: version 1, ids 1 to 0xFFFF pairwise different. |
| `Outcomes.FlagsGuard` | limnifs/feature_flags.py:66-72 | With its precheck the section is truncated at once below 3 bytes an entry, and otherwise does what it does without. |
| `FeatureFlags.Get` | limnifs/feature_flags.py:45-49 | The search returns the first entry with the id, and something exactly when the id is declared. |
| `FeatureFlags.FlagLookup` | limnifs/feature_flags.py:73-96 | In an accepted section ids are pairwise distinct, so `get` returns each entry for its id. |
| `FeatureFlags.UnsupportedOnlyByVersion` | limnifs/feature_flags.py:58-63 | The section is unsupported exactly for its version byte; no declared flag has that effect. |
| `FeatureFlags.RequiredUnknownAccepted` | limnifs/feature_flags.py:73-97 | A required flag is accepted whatever its nonzero id, 0x1234 for one, contrary to the promise at lines 3-5. |
| `Locators.ParseLocatorEntry` | limnifs/locator.py:54-85 | The method with its separate checks follows the locator decoder, errors included. |
| `Locators.LocatorExact` | limnifs/locator.py:54-85 | A locator is accepted exactly when it is the length-prefixed UTF-8 of a URI of 4 to 4096 bytes with a valid scheme before its first ':' and something after it. |
| `Layouts.LocatorSpelledOut` | limnifs/locator.py:47-85 | The same in literal numbers: 4 to 4096 bytes, some position with the first ':', letters, digits, '+', '-' and '.' before it and something after. |
| `Locators.ParseLocatorEntries` | limnifs/locator.py:88-111 | The counted loop with its precheck follows the decoder of locator lists. |
| `Locators.LocatorsExact` | limnifs/locator.py:88-111 | A list of n locators is accepted exactly on n encodings in a row, prechecks or not. |
| `Outcomes.LocatorsGuard` | limnifs/locator.py:99-102 | The precheck of a locator list asks for 8 bytes a locator. |
| `Locators.SchemeIsRfc3986` | limnifs/locator.py:47-51 | With tables that agree with ASCII, an accepted scheme is one of RFC 3986 exactly when it is ASCII. |
| `Locators.NonAsciiSchemeAccepted` | limnifs/locator.py:47-85 | Eight bytes from which the reader accepts a locator whose scheme is not one of RFC 3986. |
| `MetadataReferences.ParseMetadataReferenceSection` | limnifs/metadata_reference.py:47-84 | The method follows the section decoder, errors included. |
| `MetadataReferences.MetadataReferenceExact` | limnifs/metadata_reference.py:47-84 | The section is accepted exactly on a 32-byte hash with at least one locator or 1 byte to 1 MiB of inline metadata. |
| `Layouts.ReferenceSpelledOut` | limnifs/metadata_reference.py:47-84 | The same in literal bytes and numbers, at most 1 MiB inlined. |
| `Outcomes.ReferenceErrors` | limnifs/metadata_reference.py:52-58 | The section is unsupported exactly for a version byte other than 1. |
| `SlabIndexes.ParseSlabIndexSection` | limnifs/slab_index.py:58-98 | The nested loop with its `seen` set and prechecks follows the section decoder, errors included. |
| `SlabIndexes.SlabIndexExact` | limnifs/slab_index.py:58-98 | The section is accepted exactly on entries with new slab ids and at least one valid locator each. |
| `Layouts.SlabIndexSpelledOut` | limnifs/slab_index.py:58-98 | The same in literal bytes and numbers. |
| `Outcomes.SlabIndexErrors` | limnifs/slab_index.py:60-66 | The section is unsupported exactly for a version byte other than 1. |
| `Outcomes.SlabIndexGuard` | limnifs/slab_index.py:71-74 | The precheck of the slab index asks for 44 bytes an entry. |
| `SlabIndexes.Find` | limnifs/slab_index.py:51-55 | The search returns the first entry with the slab id. |
| `SlabIndexes.EntryLookup` | limnifs/slab_index.py:75-97 | In an accepted section slab ids are pairwise distinct, so `find` returns each entry for its id. |
| `EcParamsSections.ParseEcParamsSection` | limnifs/ec_params.py:47-82 | The method follows the section decoder, errors included. |
| `EcParamsSections.EcParamsExact` | limnifs/ec_params.py:36-82 | The section is accepted exactly on shard counts within GF(2^8), the one polynomial, and overrides of distinct slabs. |
| `Layouts.EcSpelledOut` | limnifs/ec_params.py:36-82 | The same in literal bytes and numbers: k and m at least 1 and at most 255 together, polynomial 0x011D. |
| `Outcomes.EcErrors` | limnifs/ec_params.py:47-60 | The section is unsupported exactly for another version, or for another polynomial behind shard counts within bounds. |
| `Outcomes.EcGuard` | limnifs/ec_params.py:63-65 | The precheck of the overrides asks for 42 bytes each. |
| `DmsPolicies.ParseDmsPolicySection` | limnifs/dms_policy.py:37-112 | The method follows the section decoder, errors included. |
| `DmsPolicies.DmsPolicyExact` | limnifs/dms_policy.py:37-112 | The section is accepted exactly on 1 <= k <= n with n shares of distinct non-empty custodians, bounded data, and an optional bounded hint. |
| `Layouts.DmsSpelledOut` | limnifs/dms_policy.py:37-112 | The same in literal bytes and numbers: custodians of 1 to 4096 bytes, shares of 1 to 1024, a hint of at most 4096. |
| `Outcomes.DmsErrors` | limnifs/dms_policy.py:37-58 | The section is unsupported exactly for another version or, after it, another scheme than 0. |
| `Histories.SplitRoots` | limnifs/history.py:122-125 | The chunking loop yields the 32-byte pieces that join back to the input. |
| `Histories.ParseHistoryEntry` | limnifs/history.py:103-138 | The method follows the entry decoder, errors included. |
| `Histories.ParseHistorySection` | limnifs/history.py:73-100 | The loop with its precheck follows the section decoder, errors included. |
| `Histories.HistoryExact` | limnifs/history.py:73-138 | The section is accepted exactly on a non-empty list of known operations with u64 times, whole input roots and bounded parameters. |
| `Layouts.HistorySpelledOut` | limnifs/history.py:73-138 | The same in literal bytes and numbers: operations 1 to 5, parameters of at most 4096 bytes. |
| `Outcomes.HistoryErrors` | limnifs/history.py:73-113 | The section is unsupported exactly for another version, or when the precheck lets the loop reach an operation that is not 1 to 5. |
| `Outcomes.HistoryGuard` | limnifs/history.py:90-95 | The precheck of the history asks for 17 bytes an entry. |
| `Merkle.ComputeMerkleRoot` | limnifs/merkle.py:67-88 | Streaming the separator and the ten slots hashes their 330-byte concatenation. |
| `Merkle.RootSpelledOut` | limnifs/merkle.py:67-88 | The root is the hash of "limnifs/v1" and the ten section hashes in their documented order. |
| `Merkle.PreimageInjective` | limnifs/merkle.py:67-88 | The preimage is 330 bytes wide and determines every section hash. |
| `Manifests.ManifestExact` | limnifs/cli.py:81-117 | The chain of five mandatory sections and the optional ones the flags call for is accepted exactly on encodings of well-formed manifests. |
| `Layouts.ManifestSpelledOut` | limnifs/cli.py:81-117 | The same in literal bytes and numbers, sections in order, flag 1 announcing erasure coding and flag 2 key escrow. |
| `Outcomes.TruncatedExactly` | limnifs/cursor.py:45-54 | A manifest is reported truncated exactly when some more bytes would change the outcome: every value and every other error is final. |
| `Outcomes.ManifestBadMagic` | limnifs/cli.py:84-86 | Over the whole chain the magic is bad exactly when the first four bytes are there and are not "LMFS". |
| `Verify.PrefixFree` | limnifs/cli.py:81-119 | No manifest is a prefix of another and no bytes spell two manifests. |
| `Verify.Locality` | limnifs/cursor.py:45-54 | A manifest reads the same, to the same end, from any buffer with the same bytes there, truncated or extended. |
| `Verify.SectionLocality` | limnifs/history.py:73-138 | So do the five sections that test the number of remaining bytes: flags, metadata reference, slab index, erasure coding and history. |
| `Verify.PrechecksChangeNothingAccepted` | limnifs/history.py:90-95 | Deleting every precheck from the whole chain changes neither what is accepted nor what is returned. |
| `Verify.PrechecksOnlyHastenTruncation` | limnifs/cli.py:81-117 | On every input the chain with prechecks gives the outcome of the chain without, or reports truncation where the latter reports some error. |
| `Verify.PrecheckChangesErrorKind` | limnifs/feature_flags.py:66-80 | The latter happens: an input reported truncated with the precheck and corrupt without. |
| `Verify.EqualRoots` | limnifs/merkle.py:67-88 | Manifests with equal roots have equal encodings, or their first differing hashed inputs collide. |
| `Verify.RootSpelledOut` | limnifs/cli.py:121-141 | The root of a manifest is the hash of the separator, the metadata hash it carries, and the hashes of its sections' bytes, empty for absent ones, in order. |
| `Verify.MerkleBinding` | limnifs/cli.py:81-141 | Two accepted buffers with equal roots hold the same manifest in the same bytes up to the end of history, optional sections included, or an explicit pair of inputs collides. |
| `Verify.Summarize` | limnifs/cli.py:158-162 | Inline metadata adds its counts and root inode to the report exactly when it parses. |
| `Verify.SummarySpelledOut` | limnifs/cli.py:48-70 | The summary is the inode count, the node count and the root of the blob whose literal layout the inline bytes start with, and nothing when there is none. |
| `Verify.SummaryOfBlob` | limnifs/cli.py:48-70 | Of a blob written canonically it is that blob's counts and root. |
| `Verify.SpansTile` | limnifs/cli.py:84-140 | The seven recorded spans are adjacent and start at zero, and only an optional section that is absent is empty. |
| `Verify.VerifyBytes` | limnifs/cli.py:81-164 | Every field of the report, from buffer slices, is the one the parsed manifest has; the recorded spans are adjacent and cover everything but the extra bytes, mandatory ones are non-empty, and an optional one is non-empty exactly when its flag is declared. |
| `Builder.BuildHeader` | limnifs/builder.py:163-167 | Appends the header encoding, or fails exactly when a version does not fit. |
| `Builder.BuildFeatureFlags` | limnifs/builder.py:169-175 | Appends the section encoding, or fails exactly when an id or the count does not fit. |
| `Builder.BuildLocators` | limnifs/builder.py:190-192 | Appends the count and the locators, or fails exactly when a length does not fit. |
| `Builder.BuildMetadataReference` | limnifs/builder.py:177-198 | Appends the section encoding, inlined metadata under its own hash, or fails exactly when a length does not fit. |
| `Builder.BuildSlabIndex` | limnifs/builder.py:200-208 | Appends the section encoding, or fails exactly when a length does not fit. |
| `Builder.BuildHistory` | limnifs/builder.py:210-221 | Appends the section encoding, or fails exactly when a time or length does not fit. |
| `Builder.Build` | limnifs/builder.py:114-161 | The artifact is the manifest's encoding with its section hashes and root; each way to fail has its exact condition. |
| `Builder.ConditionsSpelledOut` | limnifs/builder.py:114-221 | In numbers, what is incomplete and what does not fit its field. |
| `Builder.ArtifactSpelledOut` | limnifs/builder.py:121-221 | The artifact's bytes in literal layouts: an external reference copied, inlined metadata behind its own hash, no optional section. |
| `Builder.RoundTrip` | limnifs/builder.py:121-161 | The reader gives back what was built, whole and to the last byte, exactly when the specification is well-formed and announces no optional section. |
| `Builder.BuildThenVerify` | limnifs/cli.py:81-164 | Building and then verifying a specification that announces no optional section reports its fields, no extra bytes, the artifact's root, and the summary of the blob it inlines. |
| `Builder.AnnouncedSectionBreaksRoundTrip` | limnifs/cli.py:100-113 | For a specification well-formed otherwise, some reading recovers its five sections exactly when neither optional section is announced. |
| `Builder.AnnouncingSpecNotRecovered` | tests/test_round_trip.py:67-73 | A well-formed specification announcing 0x0001 that packs, reads back section by section, and is not recovered by any reading that heeds the flags. |
| `Builder.FiveSectionRoundTrip` | tests/test_round_trip.py:94-131 | The reader of the five mandatory sections recovers exactly the well-formed specifications, whatever flags they declare. |
| `Builder.DistinctSpecsDistinctRoots` | tests/test_round_trip.py:166-170 | Different well-formed specifications have different roots, or an explicit pair of inputs collides. |
| `SlabRecords.ParseSlabHeader` | limnifs/slab_header.py:52-96 | The method follows the header decoder, errors included. |
| `SlabRecords.SlabHeaderExact` | limnifs/slab_header.py:52-96 | A slab header is accepted exactly on version 1, a length from 56 bytes to 64 MiB, and descriptors other than 0xFF. |
| `Layouts.SlabHeaderSpelledOut` | limnifs/slab_header.py:52-96 | The same in literal bytes and numbers. |
| `Outcomes.SlabHeaderErrors` | limnifs/slab_header.py:61-89 | Exactly which headers have a bad magic, and which are unsupported: another version, or a descriptor 0xFF behind a length within bounds. |
| `Outcomes.SlabTruncatedExactly` | limnifs/slab_header.py:52-96 | A slab header and a drop record are truncated exactly when more bytes would change the outcome. |
| `SlabRecords.ParseDropRecord` | limnifs/drop_record.py:35-81 | The method follows the record decoder, errors included, and its overflow branch is unreachable. |
| `SlabRecords.RecordExact` | limnifs/drop_record.py:35-81 | A record is accepted exactly on a bounded plaintext length and a representation consistent with the slab header. |
| `Layouts.RecordSpelledOut` | limnifs/drop_record.py:35-81 | The same in literal bytes and numbers. |
| `Outcomes.RecordPlain` | limnifs/drop_record.py:35-81 | A record is never unsupported: it is truncated or corrupt. |
| `Codecs.CodecRoundTrip` | limnifs/codec.py:30-76 | Compression fails exactly for other codecs, where the LZ4 library does, and at 2^32 bytes or more under LZ4; decompression undoes it always for the store codec, for LZ4 exactly on blocks the library inverts; any other codec is refused by both. |
| `Codecs.CodecsSpelledOut` | limnifs/codec.py:30-76 | Every outcome of both directions for codec ids 0, 1 and others. |
| `SlabReader.ParseSlab` | limnifs/slab_reader.py:75-119 | The loop follows the recursive boundary walk, errors included. |
| `SlabReader.SlabExact` | limnifs/slab_reader.py:83-119 | A slab is accepted with given records exactly when header, valid records and the window they claim fill it. |
| `SlabReader.SlabSpelledOut` | limnifs/slab_reader.py:83-119 | The same in literal bytes and numbers: 56 bytes of header, 48 a record, and the window they claim. |
| `SlabReader.AcceptedSlab` | limnifs/slab_reader.py:113-119 | An accepted slab is one of those, and its window starts right after its records. |
| `SlabReader.BoundaryUnique` | limnifs/slab_reader.py:90-111 | At most one number and list of records fills a slab, zero-length drops included. |
| `SlabReader.SlabErrors` | limnifs/slab_reader.py:75-111 | A slab fails as its header does, and once the header is read only as corrupt, so never as truncated. |
| `SlabReader.FindRecord` | limnifs/slab_reader.py:31-35 | The search returns the first record with the id. |
| `SlabReader.PlaintextFor` | limnifs/slab_reader.py:37-72 | The method returns the plaintext, absence, or the refusal that the record and codec call for. |
| `SlabReader.PlaintextOutcomes` | limnifs/slab_reader.py:37-72 | Each outcome from the record's fields: sealed or another window unsupported, a range past the slab corrupt, then what the codec makes of the bytes. |
| `SlabReader.PlaintextAbsent` | limnifs/slab_reader.py:31-41 | There is nothing exactly when no record has the id. |
| `SlabReader.WrittenSlabParses` | tests/test_slab.py:18-46 | A slab written from any list of drops is read back record for record exactly when it and each plaintext keep the 64 MiB ceilings. |
| `SlabReader.WriteThenRead` | limnifs/slab_reader.py:37-119 | On a written slab `plaintext_for` is a search of the list of drops, for store drops always and for LZ4 drops whose block the library inverts. |
| `SlabReader.EachDropReadsBack` | limnifs/slab_reader.py:37-119 | With distinct ids every drop reads back its own plaintext. |
| `DirectoryNodes.ParseDirectoryNode` | limnifs/directory_node.py:49-93 | The loop that keeps the previous name follows the node decoder, errors included. |
| `DirectoryNodes.NodeExact` | limnifs/directory_node.py:49-93 | A node is accepted exactly on the encoding of valid entries, each name above the one before it. |
| `MetadataLayouts.NodeSpelledOut` | limnifs/directory_node.py:49-93 | The same in literal bytes and numbers: names without 0x2F and 0x00, types 1 to 4, raw names in strict lexicographic order. |
| `Outcomes.NodeErrors` | limnifs/directory_node.py:55-58 | A node is unsupported exactly for a version byte other than 1. |
| `DirectoryNodes.NodeOrder` | limnifs/directory_node.py:61-92 | Checking each decoded name against the last accepts precisely the valid entries whose raw names are pairwise in strict byte order, a proper prefix first. |
| `DirectoryNodes.NamesDistinct` | limnifs/directory_node.py:81-84 | The names of an accepted node are pairwise distinct. |
| `DirectoryNodes.DirNodeHash` | limnifs/metadata.py:80-94 | The growing buffer hashes to the hash of the entries' encoding. |
| `DirectoryNodes.NodeHashIsWireHash` | limnifs/metadata.py:80-94 | Re-encoding an accepted node hashes exactly the wire bytes it was read from. |
| `Inodes.ParseXAttrBlock` | limnifs/inode.py:164-184 | The loop follows the attribute decoder, errors included. |
| `Inodes.XAttrsExact` | limnifs/inode.py:164-184 | An attribute block is accepted exactly on valid namespaces and NUL-free UTF-8 keys. |
| `Inodes.ParseContentHandle` | limnifs/inode.py:187-250 | The mode-dependent method follows the handle decoder, errors included. |
| `Inodes.HandleExact` | limnifs/inode.py:187-250 | A handle is accepted exactly when its kind is the one the file type and inline flag call for and its contents are in range, for all six kinds. |
| `Inodes.FileTypeNibble` | limnifs/inode.py:103-112 | The file type is the fourth hexadecimal digit of the mode, whatever its permission bits. |
| `MetadataLayouts.HandleSpelledOut` | limnifs/inode.py:187-250 | The same with the digits themselves: 8 regular, 4 directory, 10 link, 6 and 2 device, 1 and 12 pipe. |
| `Inodes.ParseInode` | limnifs/inode.py:122-161 | The method follows the record decoder with the flags byte dropped. |
| `Inodes.InodeExact` | limnifs/inode.py:122-250 | A record is accepted exactly on the encoding of a well-formed inode under flags that fit it. |
| `MetadataLayouts.InodeSpelledOut` | limnifs/inode.py:122-250 | The same in literal bytes and numbers, the three flag bits included. |
| `Outcomes.InodePlain` | limnifs/inode.py:122-250 | An inode is never unsupported: it is truncated or corrupt. |
| `Inodes.DirectoryHoldsHash` | limnifs/inode.py:110-112 | A well-formed record is a directory exactly when it holds the hash of a directory node. |
| `Metadata.ParseMetadataBlob` | limnifs/metadata.py:97-106 | The two counted loops follow the blob decoder, errors included. |
| `Metadata.MetadataExact` | limnifs/metadata.py:97-106 | A blob is accepted exactly on encodings of well-formed inodes and nodes. |
| `MetadataLayouts.MetadataSpelledOut` | limnifs/metadata.py:97-106 | The same in literal bytes and numbers. |
| `Outcomes.MetadataTruncatedExactly` | limnifs/metadata.py:97-106 | A blob is truncated exactly when more bytes would change the outcome. |
| `Metadata.InodeByNumber` | limnifs/metadata.py:46-50 | The search returns the first inode whose number field is the one asked for, and nothing exactly when none has it. |
| `Metadata.InodeLookupOrderIndependent` | limnifs/metadata.py:21-23 | Lookups by number are the same in every order of the inodes exactly when only equal inodes share a number, as when numbers are distinct. |
| `Metadata.NodeLookupOrderIndependent` | limnifs/metadata.py:21-23 | Lookups by hash are the same in every order of the nodes, or the two nodes found have different encodings with one hash. |
| `Metadata.DirNodeByHash` | limnifs/metadata.py:52-56 | The search returns the first node whose entries hash to the given hash. |
| `Metadata.NodeSpan` | limnifs/metadata.py:104-105 | Each node of an accepted blob is what the node parser reads at its offset, and the nodes' bytes are adjacent. |
| `Metadata.FoundByWireHash` | limnifs/metadata.py:52-56 | In an accepted blob a hash finds a node exactly when the bytes some node was read from hash to it, and every node can be re-encoded, as the search requires. |
| `Metadata.Spellings` | limnifs/inode.py:137-148 | Exactly which flag bytes spell a given inode: the attribute bit is free when there are none, the inline bit is free outside regular files. |
| `Metadata.TwoSpellings` | limnifs/inode.py:144-146 | Parsing is not injective: every inode without attributes has two different encodings. |
| `Metadata.CanonicalRoundTrip` | limnifs/metadata.py:97-106 | Encoding canonically and parsing returns the blob exactly when it is well-formed. |
| `Metadata.NormalForm` | limnifs/metadata.py:97-106 | Every accepted blob re-encodes to no more bytes that parse to the same value, and to the same bytes exactly when it was canonical. |
| `Metadata.BytesPaid` | limnifs/metadata.py:97-106 | An accepted blob consumes at least 8 bytes, plus 45 an inode with 9 an attribute and 56 a slice, plus 5 a node with 14 an entry. |
| `RootDiscovery.FindRootInodeNumber` | limnifs/metadata.py:58-77 | Filling the set and filtering the list computes the root function. |
| `RootDiscovery.RootIsUniqueCandidate` | limnifs/metadata.py:58-77 | A root is reported exactly when one inode, and no other, is a directory no entry refers to. |
| `RootDiscovery.RootSpelledOut` | limnifs/metadata.py:58-77 | In a blob that parses the root is the number of the one inode that holds a node hash and whose number stands in no entry of any node. |
| `RootDiscovery.RootOrderIndependent` | limnifs/metadata.py:21-23 | No permutation of inodes, nodes or entries changes the root. |
| `RootDiscovery.SomeDirectoryUnreferenced` | limnifs/metadata.py:58-77 | An acyclic blob with any directory has one that no directory lists, and one that nothing refers to if all nodes belong to directories. |
| `RootDiscovery.ReachesAllExactly` | limnifs/metadata.py:52-77 | A number reaches every directory (and whatever else is asked) along hash-resolved edges exactly when each target but itself is listed by some directory's own node and every directory on a cycle is reached. |
| `RootDiscovery.AcyclicReachesAllExactly` | limnifs/metadata.py:52-77 | Without cycles it does exactly when each target but itself is listed by some directory's own node. |
| `RootDiscovery.RootReachesExactly` | limnifs/metadata.py:58-77 | A reported root reaches every directory exactly when none is referred to by ownerless nodes only and every cycle is reached, and everything referred to exactly when that holds of every reference; in an acyclic blob the second condition always holds. |
| `RootDiscovery.RootReachesEverything` | limnifs/metadata.py:52-77 | In such a blob a reported root reaches every directory, and everything any entry refers to, along hash-resolved edges. |
| `RootDiscovery.CycleEscapesRoot` | limnifs/metadata.py:58-77 | For every hash function, a well-formed blob whose nodes all belong to directories, with a root that does not reach a directory on a cycle. |
| `RootDiscovery.OrphanEscapesRoot` | limnifs/metadata.py:58-77 | For every hash function, a well-formed acyclic blob with a root that does not reach a directory listed only by an ownerless node. |
| `RootDiscovery.DocumentedRootAgrees` | limnifs/metadata.py:61-73 | Where the documented criterion or the code finds a root, the other finds the same one exactly when every directory that is referred to is listed by another directory. |
| `RootDiscovery.DocumentedRootWithoutSelfEntries` | limnifs/metadata.py:61-73 | The two agree on every blob whose nodes all belong to directories and whose directories do not list themselves. |
| `RootDiscovery.SelfEntryHidesRoot` | limnifs/metadata.py:61-73 | For every hash function, a well-formed blob with a documented root for which the code reports none. |

## Left out

- Verify.Summarize: reports the inode count, the node count and the root; the sorted per-inode and per-node listings of `limnifs/cli.py:50-70` are presentation.
- Cursors.Cursor.Follows: says nothing about the cursor's position after a failed parse, which the code abandons.
- File reading, argument parsing, JSON and human-readable printing in `limnifs/cli.py`: input and output.
- `limnifs/delta_linkage.py`: nothing in the verifier or builder uses it, and its loop has the shape of the other sections.
- `LocatorEntry.scheme` and `LocatorEntry.scheme_specific_part`: they are `urllib.parse.urlparse`.
- Exception message text; only the kind of error is modelled, and the locator loop's annotation does not change it.
- The ceilings that callers may pass as optional arguments: the defaults, which every caller in the package uses, are fixed.
- The internals of BLAKE3 and LZ4, sealed (AEAD) drops, erasure-code arithmetic and Shamir reconstruction: the reader does none of the last three.
- Strings with lone surrogates, which `str.encode("utf-8")` refuses in the builder: a string is a sequence of Unicode scalar values.
- Base32 texts with characters outside ASCII: `str.upper` maps some to ASCII letters, one for one (U+0131 to 'I', U+017F to 'S') or to several (U+00DF to 'SS', and ligatures such as U+FB01), so such texts can parse in the code; the model refuses them all.
- `Cursor.skip`, `Cursor.remaining`, `ManifestHeader.current`, `Tier` and the boolean properties of headers and representations: nothing to prove beyond their bodies.
- A check of inline metadata against `metadata_hash`, or of plaintext against its drop id: the reader makes neither.
