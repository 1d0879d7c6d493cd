# A model of sealr

sealr promises one interpretation of an archive or none. It keeps that promise by checking every claim twice:
covering audits re-walk the bytes against recorded evidence, the worker protocol refuses any frame that is not the
canonical one, the canonical JSON emitter gives a document one byte string, admission keeps member paths apart, the
execution loop publishes only what it verified, and two history folds decide every row on their own. This project
models those parts and proves what they are for.

| part | files |
|---|---|
| shared values | `Prelude`, `Lex`, `Bits`, `Decimal`, `Utf8` |
| interval sweep and ZIP32 audit | `Intervals`, `ZipCovering`, `ZipReadings` |
| PAX records and override replay | `TarHeader`, `PaxRecords`, `PaxCovering` |
| old-GNU long names | `GnuLongName` |
| 7z Copy | `SevenZip`, `SevenZipReadings` |
| bzip2 container replay and CRC | `Bzip2`, `Bzip2FirstBlock`, `Bzip2Crc` |
| worker wire protocol | `Wire`, `WireStrings`, `StartFrame`, `ResultFrame`, `ResultCodec`, `ManifestDecoder`, `FindingDecoder`, `ResultDecoder`, `WireProtocol`, `ResultFaults` |
| canonical JSON | `Utf16`, `CanonicalJson`, `JsonWriter`, `JsonReader` |
| path admission and topology | `Paths`, `PathAdmission` |
| execution | `Quota`, `Execution`, `MembersView`, `ExecutionRun` |
| history folds | `History`, `HistoryReplay` |

Code that changes state step by step is imperative here: loops with invariants, a `Cursor` that advances, an `Output`
that is appended to, the CRC hasher, the two admission maps, the quota, the stage and the clock. Each method is proved
against a predicate or function that says what it decides or computes, and the lemmas are about those. A snapshot is a
byte sequence, a bit position an index into its derived bits, and a machine width is a subset type, so every sum that
the source checks for overflow is checked here.

Decoders are stated as exact partial inverses: a value is returned if and only if it is valid and the input is its
encoding. Audits are stated as `ok <==> Accepts(...)`, where the acceptance predicate is declarative, and the global
theorems (one label per byte, provenance, tiling, uniqueness) are lemmas about that predicate. A stopped or failed run
is described by its findings, its report and the event log of its stage.

Five statements one might expect do not hold of the code. Each has a witness and its exact condition. A PAX record's
length field can have two solutions: `LengthFieldIsNotCanonical` gives two accepted payloads, and
`RivalsExistAroundPowersOfTen` says for which values there are two. The bzip2 covering audit does not require the first
block at bit 32, which only the parser does: `AuditAcceptsWhatParserRefuses` gives a stream, `AuditedPrefix` says when
they agree. A committed run may still carry an error finding, because discarding the retention record and syncing the
parent directory report after publication: `CommittedRunCarriesError` is such a run, `CommittedFindings` says when
nothing is added. Replay may refuse rows that a check emitted: `BackwardClock` is such a row, and `CollectedRowsReplay`
says that it happens exactly when the clocks disagree. Acceptance does not give a ZIP or 7z archive one reading, as it
does for PAX, old-GNU and bzip2 (the lemmas named `EvidenceIsUnique` and `AuditedEvidenceIsUnique`):
`PayloadStartIsFree` and `PayloadBoundaryIsFree` move a payload boundary of any accepted archive by a byte, and
`CoveringIsNotUnique` is a ZIP with two coverings. The lemmas named `CutsAreFree` say which other cuts are accepted,
and `CoveringIsItsEocd`, `RecordsAreTheirStarts`, `EnvelopeIsUnique` and `ClaimsAreTheirStarts` say what is fixed and
when two accepted archives agree.

## Model

| member | source | states |
|---|---|---|
| Intervals.SortThenSweep | crates/sealr/src/covering.rs:3105-3138 | Sorting any list of parts by start and sweeping it accepts exactly when all parts are non-empty and every position of the outer interval lies in exactly one part and none outside it (the counting oracle of the tests, for unbounded inputs) |
| Intervals.SweepAcceptsChains | crates/sealr/src/covering.rs:3105-3138 | The sweep in the given order accepts exactly the chains: each part non-empty, starting where the one before ended, from the outer start to the outer end |
| Intervals.ExactCoverPermute | crates/sealr/src/covering.rs:4234-4253 | Whether parts cover an interval exactly does not depend on their order |
| Intervals.CoverIsItsStarts | crates/sealr/src/covering.rs:3105-3138 | Two exact covers of one interval consist of the same parts exactly when their parts start at the same positions |
| ZipCovering.AuditCovering | crates/sealr/src/covering.rs:2879-3103 | The ZIP32 audit accepts exactly the snapshots and evidence whose signatures, EOCD counts and sizes agree, whose top-level ranges tile the snapshot and whose member records cover the local and central areas exactly |
| ZipCovering.AuditTopLevel | crates/sealr/src/covering.rs:2889-2965 | The local area, central directory, EOCD and comment tile the snapshot and the EOCD's fields repeat them |
| ZipCovering.AuditMember | crates/sealr/src/covering.rs:2975-3072 | One member's signatures, adjoining local ranges and central record are accepted exactly when they agree with the bytes and lie in their areas; the two record intervals are returned |
| ZipCovering.AuditMembers | crates/sealr/src/covering.rs:2967-3072 | All members agree and their records, in order, are collected; a refusal means some member disagrees or the records cannot cover the areas |
| ZipCovering.AuditPartition | crates/sealr/src/covering.rs:3086-3102 | Sorting in place and sweeping decides exact cover |
| ZipCovering.EveryByteHasOneLabel | crates/sealr/src/covering.rs:2879-3103 | After acceptance every byte of the snapshot belongs to exactly one of: a member's local header, payload, descriptor or central header, the EOCD, or the comment (APPNOTE 4.3.6) |
| ZipCovering.LabelsDoNotOverlap | crates/sealr/src/covering.rs:2879-3103 | No byte has two labels |
| ZipCovering.MemberOrderIsIrrelevant | crates/sealr/src/covering.rs:2879-3103 | Listing the members in another order changes nothing |
| ZipReadings.CutsAreFree | crates/sealr/src/covering.rs:2879-3103 | For an accepted archive, another one with the same covering and the same record intervals is accepted exactly when every local record is cut into header, payload and descriptor somewhere from byte 30 on: acceptance says nothing more about where the payloads are |
| ZipReadings.PayloadStartIsFree | crates/sealr/src/covering.rs:2879-3103 | For every accepted archive with a nonempty payload, the archive whose payload starts one byte later is accepted too |
| ZipReadings.CoveringIsNotUnique | crates/sealr/src/covering.rs:2879-3103 | A snapshot with two end records, for which two archives with different coverings are both accepted |
| ZipReadings.CoveringIsItsEocd | crates/sealr/src/covering.rs:2879-3103 | Two accepted archives have the same covering exactly when their end records are at the same offset, and then as many members |
| ZipReadings.RecordsAreTheirStarts | crates/sealr/src/covering.rs:2879-3103 | In one covering, two accepted archives have the same local records, and the same central records, exactly when these start at the same positions |
| SevenZip.AuditCovering | crates/sealr/src/covering.rs:720-866 | The 7z Copy audit accepts exactly the evidence whose headers agree, whose folders tile the pack region and whose member claims are the flattened substreams |
| SevenZip.AuditHeaders | crates/sealr/src/covering.rs:736-790 | Signature header and next header agree with their ranges and CRCs, the next header ending the source |
| SevenZip.AuditFolder | crates/sealr/src/covering.rs:791-838 | A folder starts at the cursor, its substreams tile it and its CRCs match |
| SevenZip.AuditFolders | crates/sealr/src/covering.rs:786-840 | The folders tile from byte 32 to the next header and each agrees |
| SevenZip.AuditMembers | crates/sealr/src/covering.rs:839-866 | Each member is either empty with no CRC at the empty offset or claims, in order, the next recorded substream; nothing is left over |
| SevenZip.FlattenedSubStreamsTile | crates/sealr/src/covering.rs:786-866 | Flattening folders keeps the tiling, without knowing where folders end |
| SevenZip.MembersTilePackRegion | crates/sealr/src/covering.rs:720-866 | The non-empty payloads in member order tile the source from byte 32 to the next header, so 32 + all payload lengths + the next header's length is the source length |
| SevenZip.EveryPackByteHasOneMember | crates/sealr/src/covering.rs:720-866 | Every byte of the pack region lies in exactly one claimed payload |
| SevenZipReadings.CutsAreFree | crates/sealr/src/covering.rs:720-866 | An accepted archive whose folders are cut into other substreams, as many as before and claimed by the same members, is accepted exactly when the pieces tile each folder |
| SevenZipReadings.PayloadBoundaryIsFree | crates/sealr/src/covering.rs:720-866 | For every accepted archive and two neighbouring substreams, the second of two bytes or more, another archive with another boundary is accepted |
| SevenZipReadings.EnvelopeIsUnique | crates/sealr/src/covering.rs:720-866 | Two accepted archives of the same bytes agree in version, pack region, next header and its CRC |
| SevenZipReadings.ClaimsAreTheirStarts | crates/sealr/src/covering.rs:720-866 | Two accepted archives claim the same payload ranges exactly when these start at the same positions |
| PaxRecords.AuditRecords | crates/sealr/src/covering.rs:1911-2054 | Acceptance means: one or two `len key=value` lines with distinct keywords whose concatenation is the payload, each length counting its own line, ranges consecutive and absolute, the size value the exact u64 |
| PaxRecords.AuditRecord | crates/sealr/src/covering.rs:1927-2046 | One line of the evidence occurs at the cursor, in full, with its ranges and a keyword not seen before |
| PaxRecords.AuditBody | crates/sealr/src/covering.rs:1957-2011 | Keyword, equals sign and value of the line are those of the evidence |
| PaxRecords.ReadLength | crates/sealr/src/covering.rs:1930-1947 | The bounded digit scan returns n exactly when the canonical numeral of n and a space stand there |
| PaxRecords.EvidenceIsUnique | crates/sealr/src/covering.rs:1911-2054 | At most one evidence list is accepted for a payload at an offset |
| PaxRecords.LineIsUnique | crates/sealr/src/covering.rs:1911-2054 | At most one record is accepted at a place |
| PaxRecords.LengthFieldIsNotCanonical | crates/sealr/src/covering.rs:1911-2054 | The self-counting length has two solutions: for one 90-byte path value a line of 99 bytes and a line of 100 bytes are each accepted as a whole payload, so record bytes are not canonical |
| PaxRecords.RivalsExistAroundPowersOfTen | crates/sealr/src/covering.rs:1911-2054 | A record has a second form with the same keyword and value exactly when the value is 10^d - 8 - d bytes long for some d (1, 90, 989, ...) |
| Decimal.ParseIsValue | crates/sealr/src/covering.rs:2570-2576 | The checked decimal fold is the numeral's value, or nothing when it exceeds u64 |
| Decimal.NumeralOfValue | crates/sealr/src/covering.rs:2570-2576 | A canonical numeral is the only numeral of its value |
| TarHeader.PaxHeaderNameMatches | crates/sealr/src/covering.rs:2504-2525 | Matching piecewise is the same as comparing with the joined prefix/name of the header |
| TarHeader.AuditZeroRange | crates/sealr/src/covering.rs:2845-2870 | The range is inside the snapshot and holds only zeroes |
| PaxCovering.AuditCovering | crates/sealr/src/covering.rs:1523-1665 | The PAX audit accepts exactly the archives whose identity, covering and every record agree and whose records replay from the start to the end of the member area |
| PaxCovering.AuditReplay | crates/sealr/src/covering.rs:1580-1665 | The cursor loop with its two override states accepts exactly when some order of extension and member records replays: each starts at the cursor, a local extension is never followed by another extension and never left over |
| PaxCovering.AuditExtension | crates/sealr/src/covering.rs:1713-1774 | An extension is accepted exactly when its header, records, padding and digest agree, and the cursor moves to its end |
| PaxCovering.AuditMember | crates/sealr/src/covering.rs:1776-1885 | A member is accepted exactly when it fits at the replay position, given the override state kept so far |
| PaxCovering.AuditMemberHeader | crates/sealr/src/covering.rs:1790-1845 | The member's header, digest and facts agree with its evidence |
| PaxCovering.AuditMemberValues | crates/sealr/src/covering.rs:1845-1885 | The member's name and size are those its chosen sources give, local before global before ustar |
| PaxCovering.FromExtension | crates/sealr/src/covering.rs:1667-1711 | The state of one extension holds, for each keyword, its last record |
| PaxCovering.SourcesStep | crates/sealr/src/covering.rs:1667-1711 | Folding one more extension into the state keeps it equal to a backwards search over all extensions so far |
| PaxCovering.MemberValuesHavePosixProvenance | crates/sealr/src/covering.rs:1776-1885 | After acceptance each member's path and size come from the local extension ending where it starts if that sets the keyword, else from the last earlier global record that sets it, else from the ustar header, and equal that value (POSIX.1 pax utility, pax Extended Header) |
| PaxCovering.LastGlobalIsLast | crates/sealr/src/covering.rs:1667-1711 | The global source found is the last earlier global extension with the keyword |
| PaxCovering.LocalExtensionIsFollowedByMember | crates/sealr/src/covering.rs:1587-1665 | A member record starts where each local extension ends |
| PaxCovering.ProvenanceResolves | crates/sealr/src/covering.rs:1887-1909 | A source that is not the ustar header names a record that exists and has the keyword |
| PaxCovering.RecordsTileTheArea | crates/sealr/src/covering.rs:1523-1665 | Every byte of the member area belongs to exactly one extension or member record |
| PaxCovering.EvidenceIsUnique | crates/sealr/src/covering.rs:1523-1665 | One interpretation or nothing: two archives accepted for the same bytes are equal in their whole covering, extensions and members |
| GnuLongName.AuditCovering | crates/sealr/src/covering.rs:2060-2343 | The old-GNU audit accepts exactly the archives whose identity and covering agree and whose record layout matches carriers and members one for one |
| GnuLongName.AuditReplay | crates/sealr/src/covering.rs:2110-2343 | The cursor loop over headers, at least one 512-byte block a turn, accepts exactly when the layout agrees with the evidence and no carrier is chained or left over |
| GnuLongName.AuditCarrier | crates/sealr/src/covering.rs:2139-2201 | A carrier's header, payload, padding and digest are those of the record at the cursor |
| GnuLongName.AuditMember | crates/sealr/src/covering.rs:2202-2320 | A member's evidence is that of the record, with its name from the pending carrier if there is one and from the header otherwise |
| GnuLongName.DirectoryNameIsRecovered | crates/sealr/src/covering.rs:2283-2309 | The normalization check passes a directory exactly when its decoded name is its canonical path followed by as many slashes as strips were recorded, none or one, and no unrecorded slash is left |
| GnuLongName.CarrierNamesTheMemberItTouches | crates/sealr/src/covering.rs:2060-2343 | A member's name comes from carrier k exactly when it starts where carrier k ends, and then it is that carrier's path |
| GnuLongName.EachCarrierNamesOneMember | crates/sealr/src/covering.rs:2060-2343 | Each carrier names exactly one member |
| GnuLongName.CarriersFeedInOrder | crates/sealr/src/covering.rs:2060-2343 | Carriers feed members in source order |
| GnuLongName.RecordsTileTheArea | crates/sealr/src/covering.rs:2060-2343 | Every byte of the member area belongs to exactly one carrier or member record |
| GnuLongName.EvidenceIsUnique | crates/sealr/src/covering.rs:2060-2343 | One interpretation or nothing: two archives accepted for the same bytes have the same covering and carriers, as many members, and read each member alike |
| Bzip2.ScanBlockMagics | crates/sealr/src/bzip2.rs:573-613 | The rolling 64-bit window returns, in increasing order, precisely the bit positions from 32 up whose 48 bits are the block magic and end by the footer, or nothing when there are more than the limit |
| Bzip2.ScanByte | crates/sealr/src/bzip2.rs:585-610 | One byte pushed into the window adds exactly the magics that end in its eight bits |
| Bzip2.BlockStartsAreExact | crates/sealr/src/bzip2.rs:573-613 | The specification list is increasing and holds a position if and only if the magic stands there within bounds |
| Bzip2.EosMagicHasNoSelfOverlap | crates/sealr/src/bzip2.rs:468-505 | The end-of-stream magic never occurs again one to seven bits later |
| Bzip2.FooterIsUnique | crates/sealr/src/bzip2.rs:495-499 | At most one padding gives a footer, so the ambiguous-footer branch cannot be taken |
| Bzip2.RecoverFooter | crates/sealr/src/bzip2.rs:475-515 | The footer found has its magic, zero padding and combined CRC; an error means no padding works |
| Bzip2.ReadBlockFrame | crates/sealr/src/bzip2.rs:617-633 | Six bytes give the 32 CRC bits and the flag bit wherever they are bit-aligned |
| Bzip2.ReadFrames | crates/sealr/src/bzip2.rs:538-569 | Each frame's CRC is read and folded, or some offset holds no valid frame |
| Bzip2.ParseStreamPrefix | crates/sealr/src/bzip2.rs:389-455 | The prefix is accepted exactly when header, level and first block agree, and the error kind is exact: short source, magic, version, level, empty stream, missing block magic, a block header cut off, randomised block |
| Bzip2.ParseContainer | crates/sealr/src/bzip2.rs:468-569 | Returns the one container that agrees with the bits and meets the parser's own demands; otherwise the error kind is exact: no good footer, too many blocks, a first block elsewhere, the metadata cap, or the first frame that does not fit or is randomised |
| Bzip2.ParseBlocks | crates/sealr/src/bzip2.rs:507-569 | Behind a found footer the container is returned exactly when it exists and meets the parser's demands, and the error kind says which demand failed first |
| Bzip2.AuditWrapperCovering | crates/sealr/src/covering.rs:873-1030 | The second replay accepts exactly the evidence whose container agrees with the bits; it does not ask for the first block at bit 32 |
| Bzip2.AuditFooter | crates/sealr/src/covering.rs:908-948 | The claimed padding and combined CRC are those of the footer |
| Bzip2.AuditFrames | crates/sealr/src/covering.rs:989-1018 | Every claimed block CRC stands behind its offset, and the fold is theirs |
| Bzip2.ReplaysAgree | crates/sealr/src/covering.rs:873-1030 | Given the parser's extra demands, the parser's agreement and the audit's acceptance are the same for every evidence record, so what the parser builds always passes |
| Bzip2FirstBlock.AuditedPrefix | crates/sealr/src/covering.rs:873-1030 | A stream the audit accepts has a prefix the parser accepts exactly when its first block starts at bit 32 |
| Bzip2FirstBlock.AuditAcceptsWhatParserRefuses | crates/sealr/src/covering.rs:873-1030 | A 26-byte stream with a zero byte between header and block that the audit accepts and both halves of the parser refuse |
| Bzip2.ContainerIsUnique | crates/sealr/src/bzip2.rs:468-569 | At most one padding, offset list, CRC list and combined CRC agree with a bit string |
| Bzip2.AuditedEvidenceIsUnique | crates/sealr/src/covering.rs:873-1030 | At most one level and container can pass the audit for a snapshot |
| Bzip2.FoldIsXorOfRotations | crates/sealr/src/bzip2.rs:224-228 | Folding n block CRCs is the XOR of each rotated left by its distance from the end modulo 32 |
| Bzip2.SingleCrcChangeIsDetected | crates/sealr/src/bzip2.rs:224-228 | Replacing any one block CRC by another value changes the combined value |
| Bzip2Crc.BuildTable | crates/sealr/src/bzip2.rs:187-205 | The table holds for every byte the remainder of eight division steps |
| Bzip2Crc.TableRefinesDivision | crates/sealr/src/bzip2.rs:207-222 | One table step is eight most-significant-bit-first division steps by 0x04C11DB7, for every state and byte |
| Bzip2Crc.Bzip2Crc32.Update | crates/sealr/src/bzip2.rs:212-217 | Updating with bytes feeds their bits to the division |
| Bzip2Crc.Bzip2Crc32.Finalize | crates/sealr/src/bzip2.rs:219-221 | The result is the checksum of all bytes fed since construction, in whatever pieces |
| Bzip2Crc.HashChunks | crates/sealr/src/bzip2.rs:296-316 | Hashing in any chunking is the checksum of the whole |
| Bzip2Crc.ChecksumOfConcatenation | crates/sealr/src/bzip2.rs:296-316 | The checksum of two strings together continues from the first one's remainder |
| Paths.ValidateTopology | crates/sealr-protocol/src/lib.rs:867-882 | One binary search per separator accepts exactly when no file is a slash-ancestor of any object |
| Paths.BinarySearch | crates/sealr-protocol/src/lib.rs:867-882 | A key is found exactly when it is in the ordered list |
| Paths.OrderedTopology | crates/sealr-protocol/src/lib.rs:839-882 | For a strictly ordered list, no file above another object is the same as pairwise compatibility |
| Paths.PairwisePermute | crates/sealr/src/apply.rs:2325-2391 | Pairwise compatibility does not depend on order |
| PathAdmission.PrepareName | crates/sealr/src/apply.rs:2294-2321 | The prepared name is what is left after one trailing slash of a directory and every leading `./`; the archive root is recognised |
| PathAdmission.FindConflict | crates/sealr/src/apply.rs:4778-4794 | The ancestor lookups and the single range probe find no conflict exactly when no recorded entry conflicts, and a conflict found is a real one |
| PathAdmission.RangeProbe | crates/sealr/src/apply.rs:4785-4792 | The first key at or after `path/` has that prefix exactly when some key has |
| PathAdmission.AdmittedPaths.Admit | crates/sealr/src/apply.rs:2325-2391 | A member is admitted exactly when its name is valid and it fits in both spaces; then both maps gain its entry, otherwise neither changes |
| PathAdmission.AdmitAll | crates/sealr/src/apply.rs:2325-2391 | Admitting a list succeeds exactly when every name is valid and the entries are pairwise compatible as paths and as case folds |
| PathAdmission.AdmissionIsOrderIndependent | crates/sealr/src/apply.rs:2325-2391 | Admission of a list does not depend on its order |
| PathAdmission.AdmissionMatchesProtocolTopology | crates/sealr-protocol/src/lib.rs:839-882 | The path half of admission accepts exactly the lists whose sorted form is strictly ordered and passes the protocol's topology check |
| Wire.DecodeHeader | crates/sealr-protocol/src/lib.rs:931-994 | A payload is returned exactly for a complete frame of the expected kind within the limit; the error and its offset are those of the first check that fails, and trailing bytes are reported exactly behind a complete frame |
| Wire.FramedIsFrame | crates/sealr-protocol/src/lib.rs:920-994 | The header checks accept exactly what the header encoder writes in front of a payload |
| Wire.NoFrameIsAProperPrefix | crates/sealr-protocol/src/lib.rs:920-994 | No frame of either kind is a proper prefix of another |
| Wire.Output.Header | crates/sealr-protocol/src/lib.rs:920-929 | What is written is the frame's header for every payload of the announced length |
| Wire.Cursor.Bytes | crates/sealr-protocol/src/lib.rs:1161-1174 | The next bytes, or truncation with the cursor unmoved |
| Wire.Cursor.Zeroes | crates/sealr-protocol/src/lib.rs:1198-1204 | Succeeds exactly when the reserved bytes are present and zero |
| Wire.Le64Occurs | crates/sealr-protocol/src/lib.rs:1106-1116 | A number's little-endian bytes stand at a place exactly when the number is read there |
| WireStrings.PathLanguage | crates/sealr-protocol/src/lib.rs:1003-1064 | Valid paths are exactly the slash-joined lists of canonical components up to the length limit |
| WireStrings.DepthIsComponentCount | crates/sealr-protocol/src/lib.rs:709-715 | Separators plus one is the number of components |
| WireStrings.BoundedString | crates/sealr-protocol/src/lib.rs:1206-1230 | A string is returned exactly when the next bytes are UTF-8 in the asked language; truncation, UTF-8 and language errors are told apart |
| StartFrame.ValidateStart | crates/sealr-protocol/src/lib.rs:737-793 | Accepts exactly the requests with a nonzero id, the slots their mode needs, the received capability count and a source within its limit; which error is told apart |
| StartFrame.PayloadLayout | crates/sealr-protocol/src/lib.rs:263-301 | The 196 encoded bytes and the decoder's fixed offsets describe the same payloads |
| StartFrame.EncodeStart | crates/sealr-protocol/src/lib.rs:263-301 | Exactly the valid requests are encoded, as their frame |
| StartFrame.DecodeStart | crates/sealr-protocol/src/lib.rs:304-388 | A request is returned exactly when it is valid, has the received capability count and the input is its frame |
| StartFrame.PayloadDeterminesRequest | crates/sealr-protocol/src/lib.rs:263-388 | Different valid requests have different payloads, although an absent stage is written as a slot number |
| ResultFrame.EntryLayout | crates/sealr-protocol/src/lib.rs:417-427 | An entry's bytes stand at a place exactly when its fields do |
| ResultFrame.FindingLayout | crates/sealr-protocol/src/lib.rs:428-448 | A finding's bytes stand at a place exactly when its fields do |
| ResultFrame.HeadLayout | crates/sealr-protocol/src/lib.rs:402-416 | The fixed head's bytes are the fields at the decoder's offsets |
| ResultFrame.AscendingIsOrdered | crates/sealr-protocol/src/lib.rs:839-865 | Comparing neighbouring paths orders the whole manifest |
| ResultFrame.ValidManifestIsATree | crates/sealr-protocol/src/lib.rs:795-882 | A valid manifest has distinct paths and no file above another object |
| ResultCodec.ValidateResult | crates/sealr-protocol/src/lib.rs:795-865 | Accepts exactly the valid results: limits, status rules, ordered and flat manifest, strings in their languages; semantic errors carry offset 0 |
| ResultCodec.ValidateManifest | crates/sealr-protocol/src/lib.rs:839-857 | Accepts exactly ascending canonical paths with no content evidence on directories |
| ResultCodec.PayloadLen | crates/sealr-protocol/src/lib.rs:884-903 | The length computed beforehand is the length of the encoding |
| ResultCodec.EncodeResult | crates/sealr-protocol/src/lib.rs:391-452 | Exactly the valid results within the wire limit are encoded, as their frame of payload length plus 16 |
| ManifestDecoder.DecodeEntry | crates/sealr-protocol/src/lib.rs:521-545 | An entry is returned exactly when its record stands at the cursor with a valid path |
| ManifestDecoder.DecodeManifest | crates/sealr-protocol/src/lib.rs:503-566 | A manifest is returned exactly when it is the well-formed list of that many entries standing at the cursor; an error is a fault: no room for the count, or a well-formed beginning followed by bytes that are no entry or by an entry out of place |
| FindingDecoder.DecodeFinding | crates/sealr-protocol/src/lib.rs:585-636 | A finding is returned exactly when its record stands at the cursor with valid strings |
| FindingDecoder.DecodeFindings | crates/sealr-protocol/src/lib.rs:568-637 | Findings are returned exactly when they are the well-formed list of that many records standing at the cursor; an error is a fault: no room for the count, or a well-formed beginning followed by bytes that are no finding |
| ResultDecoder.DecodeHead | crates/sealr-protocol/src/lib.rs:471-502 | A head is returned exactly when it stands in the payload with the expected id and counts within limits; otherwise the error and its offset are those of the first field at fault |
| ResultDecoder.DecodePayload | crates/sealr-protocol/src/lib.rs:458-657 | A payload is accepted exactly when it carries a valid result of the expected operation; a well-formed one that is refused gets an invalid state at offset 0, any other its fault, with kind and offset |
| ResultDecoder.DecodeResult | crates/sealr-protocol/src/lib.rs:458-657 | A result is returned exactly when it is encodable, of the expected operation, without capabilities, and the input is its frame; otherwise the error, with its offset, is that of the capability check, of the frame header, of the payload's fault, or an invalid state at offset 0 for a well-formed payload |
| ResultFaults.FaultIsUnique | crates/sealr-protocol/src/lib.rs:458-657 | A payload has at most one fault, so the error a decoder reports is determined by the bytes and the expected operation alone |
| ResultFaults.ShapedHasNoFault | crates/sealr-protocol/src/lib.rs:458-657 | A well-formed payload has no fault: a fault and a reading exclude each other |
| WireProtocol.EncodeThenDecode | crates/sealr-protocol/src/lib.rs:391-657 | Whatever is encoded decodes to itself |
| WireProtocol.DecodeThenEncode | crates/sealr-protocol/src/lib.rs:391-657 | Whatever is decoded re-encodes to the same bytes |
| WireProtocol.StartRoundTrip | crates/sealr-protocol/src/lib.rs:263-388 | Start requests survive the round trip and their frames have the fixed length |
| WireProtocol.PayloadDeterminesResult | crates/sealr-protocol/src/lib.rs:391-657 | One payload encodes at most one valid result |
| WireProtocol.ResultFramesArePrefixFree | crates/sealr-protocol/src/lib.rs:391-452 | No result frame is a prefix of another's |
| WireProtocol.StartFramesArePrefixFree | crates/sealr-protocol/src/lib.rs:263-301 | No start frame is a prefix of another's |
| WireProtocol.KindsAreDisjoint | crates/sealr-protocol/src/lib.rs:920-994 | A start frame and a result frame never begin one another |
| WireProtocol.CheckLimits | crates/sealr-protocol/src/lib.rs:704-733 | The running checked total accepts exactly the manifests whose exact totals, sizes, depths and count are within the request; overflow is reported only when the exact total exceeds u64 |
| WireProtocol.ValidateForRequest | crates/sealr-protocol/src/lib.rs:682-735 | Accepts exactly the results that answer the request |
| WireProtocol.DecodeForRequest | crates/sealr-protocol/src/lib.rs:666-675 | A result is returned exactly when it answers the request and the input is its frame |
| Utf8.DecodeEncoded | crates/sealr/src/canonical_json.rs:161-174 | UTF-8 encoding then decoding gives the text back |
| Utf8.EncodeDecoded | crates/sealr-protocol/src/lib.rs:1206-1230 | Valid UTF-8 bytes are the encoding of what they decode to |
| Utf16.KeyOrderIsStrict | crates/sealr/src/canonical_json.rs:131-133 | Comparing UTF-16 code units is a strict total order on distinct strings (RFC 8785 section 3.2.3) |
| Utf16.OrdersDisagree | crates/sealr/src/canonical_json.rs:131-133 | It differs from code-point order exactly when the first difference is a supplementary character against one from U+E000 to U+FFFF |
| CanonicalJson.SortedIsUnique | crates/sealr/src/canonical_json.rs:131-143 | There is one sorted list of a set of keys, so emission cannot depend on map order |
| CanonicalJson.DomainHasNoFault | crates/sealr/src/canonical_json.rs:95-120 | A document is in the domain exactly when none of its numbers is a non-integer or out of range |
| JsonWriter.WriteString | crates/sealr/src/canonical_json.rs:154-174 | The quoted string with the escape of each character is appended |
| JsonWriter.SortKeys | crates/sealr/src/canonical_json.rs:131-133 | The keys come out sorted and are the same keys |
| JsonWriter.WriteValue | crates/sealr/src/canonical_json.rs:91-148 | A document in the domain appends its canonical bytes; any other fails with a fault it really has |
| JsonWriter.JcsBytes | crates/sealr/src/canonical_json.rs:79-89 | All canonical bytes, exactly when no number is a non-integer or beyond 2^53-1; otherwise an error and no bytes |
| JsonReader.StringIsReadBack | crates/sealr/src/canonical_json.rs:154-174 | A reference reader recovers every string from its escaped form |
| JsonReader.ValueIsReadBack | crates/sealr/src/canonical_json.rs:91-148 | A reference reader recovers every document in the domain from its canonical bytes, whatever follows that is not a digit |
| JsonReader.CanonicalBytesIdentifyTheDocument | crates/sealr/src/canonical_json.rs:79-174 | Equal canonical bytes mean equal documents |
| Quota.QuotaState.Consume | crates/sealr/src/quota.rs:24-34 | The transition of the wide-integer oracle; a refused amount leaves the state alone |
| Quota.ConsumeAll | crates/sealr/src/quota.rs:15-41 | Consuming amounts one by one succeeds throughout exactly when their exact sum fits the cap, and stops at the first that does not |
| Execution.ExitCodeAgreesWithVerdict | crates/sealr/src/apply.rs:5022-5048 | The exit code is 0 exactly for an allowed verdict, and otherwise 2 or 3 |
| Execution.Stage.Commit | crates/sealr/src/materialize.rs:1041-1127 | A commit that fails leaves the log alone and marks the outcome only where the source does; a commit that succeeds is published whatever its parent sync and record removal report, and keeps both reports for later; a record is removed only if one was written |
| Execution.Stage.Abort | crates/sealr/src/materialize.rs:1439-1470 | A pending or failed cleanup is tried once more, a settled stage is left alone; a failed publication keeps its outcome, and the retention record is discarded only after the tree is gone |
| Execution.AbortAndReport | crates/sealr/src/apply.rs:4760-4776 | One removal attempt, and a second if the first one failed; the findings added, the events, the outcome (aborted, or publication-failed if the commit said so) and the cleanup state are exact |
| ExecutionRun.VerifyMember | crates/sealr/src/apply.rs:4466-4656 | A member succeeds exactly when its step of the accounting does; then its stage event is logged and the quota holds the new total, otherwise the quota is unchanged |
| ExecutionRun.ValidateVerified | crates/sealr/src/apply.rs:4317-4342 | Accepts exactly members that are all verified and have distinct canonical paths |
| ExecutionRun.StopVerification | crates/sealr/src/apply.rs:4476-4504 | A stop pushes its finding, aborts the stage with exactly the findings, events and report of the cleanup, counts verified and pending members, and is rejected |
| ExecutionRun.OpenStage | crates/sealr/src/apply.rs:4406-4462 | A stage opens with its retention record, or the run ends as setup failed with exactly the findings and cleanup of that failure |
| ExecutionRun.Publish | crates/sealr/src/apply.rs:4695-4758 | Audit and commit decide between a committed run, whose findings are the earlier ones and what discarding the record and syncing the parent report, and a failed publication with its cleanup; both show the members in path order |
| ExecutionRun.VerifyMembers | crates/sealr/src/apply.rs:4465-4657 | The loop verifies every member, or stops where the accounting first fails, with the earlier members verified and accounted |
| ExecutionRun.ExecuteReadyArchive | crates/sealr/src/apply.rs:4346-4758 | The main result on runs: every run ends in one of six shapes that fix members, view, axes, findings, report and stage log, and it finishes exactly when validation, stage, every member, distinct paths, audit and commit succeed |
| MembersView.SortShows | crates/sealr/src/apply.rs:4669 | Sorting members with distinct paths gives the same members in strictly ascending path order |
| MembersView.ShownListIsUnique | crates/sealr/src/apply.rs:4669 | There is one ascending list of given members, so the list shown does not depend on the order in the archive |
| ExecutionRun.PublicationSafety | crates/sealr/src/apply.rs:4660-4735 | Publication means every planned member was verified and staged, paths are distinct, the audit passed just before, and the accounted total is their exact bytes within the cap |
| ExecutionRun.FailureAborts | crates/sealr/src/apply.rs:4760-4776 | Corollary of the ending shapes: once a stage is open, every other ending's last event is a removal attempt, and it is rejected with a nonzero exit code |
| ExecutionRun.AllowedIsFinished | crates/sealr/src/apply.rs:5022-5048 | Corollary of the ending shapes: allowed is exactly finished, committed is exactly finished with a destination, and anything else exits nonzero |
| ExecutionRun.ViewIsAccounted | crates/sealr/src/apply.rs:4465-4735 | However a run ends, it shows verified members only and the accounted total is the exact sum of their file sizes within the cap: a prefix of the plan with verified plus pending planned, or, when complete, all members in ascending path order |
| ExecutionRun.FindingsAreKept | crates/sealr/src/apply.rs:4346-4758 | In every ending the earlier findings come first unchanged, and a rejected run adds at least one error to them |
| ExecutionRun.CommittedFindings | crates/sealr/src/apply.rs:4725-4730 | Corollary of the ending shapes: a committed run adds no finding exactly when the retention record, if any, was discarded and the parent directory, if requested, was synced |
| ExecutionRun.CommittedRunCarriesError | crates/sealr/src/apply.rs:4725-4730 | A run that is committed, allowed and exits with 0 while its only finding is an error |
| History.ObserveAfter | scripts/collect_assurance_history.py:78-101 | Returns the first reading in a later whole second; it gives up as exhausted only when a monotonic reading reached the deadline, and as stuck only when one reached the stop time or all 126 readings were used, none of them later |
| History.ActiveIsCountedAfterReset | scripts/propose_assurance_ledger.py:131-136 | The running sequence with resets is the counted rows after the last reset |
| HistoryReplay.Check | scripts/collect_assurance_history.py:366-440 | A completed check ended before its deadline, has one row per run, each what the records say given the rows before, in increasing seconds, its qualifying ids are those of the active sequence, and it is eligible exactly when it may be promoted and at least ten qualify; a check fails only over its clock, at the deadline if it says so, or over a run whose records are unreadable or pending, and never completes over such a run |
| HistoryReplay.CollectedCommitsAreDistinct | scripts/collect_assurance_history.py:425-440 | The qualifying runs of a completed check have pairwise distinct commits, so ten of them are ten commits |
| HistoryReplay.Replay | scripts/propose_assurance_ledger.py:79-137 | Accepts exactly the row lists that are well formed, chronological and decided as their evidence says, and returns the active sequence |
| HistoryReplay.LaddersAgree | scripts/collect_assurance_history.py:409-428 | On a row made from the records the two ladders decide alike |
| HistoryReplay.CollectedRowsReplay | scripts/propose_assurance_ledger.py:79-137 | Of the row lists a completed check emits, replay accepts exactly those whose clocks agree: each observation between the report's start and the replay, no run created after its observation (listed runs and jobs, fingerprints that determine the job list) |
| HistoryReplay.BackwardClock | scripts/propose_assurance_ledger.py:98-106 | A completed check of one run created after its observation emits a row that replay refuses |
| HistoryReplay.ActiveCommitsAreDistinct | scripts/propose_assurance_ledger.py:126-136 | The qualifying rows of an accepted history have pairwise distinct commits |
| HistoryReplay.CheckThenReplay | scripts/propose_assurance_ledger.py:138-180 | A check followed by a replay of its rows: replay accepts exactly when the clocks agree, and then with the same qualifying runs, of distinct commits, and the same eligibility |

## Left out

- The ZIP64, gzip, zstd and xz audits and the plain ustar audit: they repeat the tiling pattern of the audits modelled here.
- External codecs and hashes (deflate, libbz2, zstd, xz, SHA-256, zlib CRC32): a digest or checksum is a function parameter, and a payload's verification is an outcome of the run's surroundings.
- Allocation failures and source read errors; message texts of findings and errors.
- The Unicode name rules (jail, portability, case fold): parameters of admission.
- The filesystem under the stage: creation, writing, audit and commit are outcomes; their order, the removal attempts, the findings and the report are modelled.
- Receipts, views, identities, hints, the command line, and the reader that feeds the bzip2 decoder.
- PathAdmission.AdmittedPaths.Admit: the two ordered maps are maps whose next key is found by a search, because only the first key at or after a bound is used.
- Intervals.SortByStart: the library's in-place sort of ranges is a sorting function; the sweep theorem holds for any sorted permutation.
- JsonWriter.SortKeys: the library's sort is insertion of one key after another; the result is the only sorted list.
- MembersView.SortByPath: the library's stable sort is insertion of one member after another; with distinct paths the result is the only ascending list.
- GnuLongName.AuditMember: canonical path strings of members are compared as recorded components.
- GnuLongName.EvidenceIsUnique: a file's canonical path and components are not among what is read alike, because the audit compares them only with each other.
- Bzip2.ScanBlockMagics: one scan serves both replays, and sources are below 2^61 bytes so that bit positions fit; CRC words are strings of 32 bits. Its contract does not depend on the 64 KiB chunks it reads, since the window carries over from byte to byte.
- ExecutionRun.ExecuteReadyArchive: captured payload retention is not modelled; of directory sync only the parent sync after publication is, a failed sync before it being one way for a commit to fail. The surroundings answer by member index and remaining bytes, and the findings of earlier phases are arbitrary.
- HistoryReplay.Check: the current domain and the list of runs are given, and reading them or a run's records is an outcome of the surroundings; repository, branch, event, URL and tree identity strings are constant or copied and do not appear; required job names are a multiset, which is what comparing sorted lists compares; seconds are whole microsecond counts.
