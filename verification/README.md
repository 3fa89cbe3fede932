# Verification of the build engine's core algorithms

A Dafny model of the algorithms in this repository that decide bytes that ship or protocol state that must hold, with
proofs of what they promise. `dafny verify dfyconfig.toml` checks all of it. The code's loops, cursors and in-place writes
are methods; each is proved against a function or predicate that says what it computes, and the theorems are lemmas about
those.

| module | what it models |
|---|---|
| `DebianVersion`, `VersionLaws`, `Decimal` | dpkg's version order as a loop over two cursors |
| `BootRecords`, `FitEnvironment` | the boot record format: encoder in TypeScript, reader and renderer in C, two redundant copies |
| `Crc32`, `Iteration` | the bit-level CRC the two formats share |
| `Chunks`, `Transfer` | the content-defined chunker, its index, and the release a device reassembles objects from |
| `Archive`, `ArchiveReaders`, `ArchiveLaws` | the MICAUPD1 archive: one writer, four readers, and what a verified archive is |
| `Ubifs`, `UbifsLayout`, `FlashImage` | the normalisation of a UBIFS image in place, images as their writer lays them out, and the region writer |
| `Offsets`, `DeviceTree`, `FlatTree`, `Uki`, `UkiLayout`, `Newc`, `NewcArchive`, `NewcLayout`, `BootPolicy` | the policy in a boot object's initrd: the flattened tree scan, the section table and the cpio scan |
| `JsonScan` | the duplicate-key scanner of the runtime report |
| `PngFilter`, `Resample`, `MedianCut`, `Palette` | the logo: unfiltering, exact resampling, median cut |
| `Registry`, `TagMoves`, `Publisher` | publishing to an OCI registry, as requests of many publishers and as the code of one; when a tag can move, exactly |
| `VersionGuard` | the guard between releases, over histories |
| `Upload`, `UploadTurns`, `UploadRuns` | the multipart upload under any answers: the client as a machine, what follows each request, and what holds of its runs |
| `FlashLayout`, `KernelFeatures` | flash geometry and capacity; the kernel feature closure |
| `Bytes`, `Buffers`, `Arithmetic`, `Wrappers` | bytes and their numbers; writes into a buffer; minima and products; options and results |

## Conventions

- SHA-256 is a function parameter. Where distinct contents must have distinct digests, that is required only of the finite
  set of contents at hand (`Transfer.CollisionFree`, `VersionGuard.OneVersionIsOneArchive`); elsewhere nothing is assumed.
- The gear table is any 256 entries of 64 bits. `JSON.parse`, zstd, `vercmp` and the authentication of envelopes are
  parameters.
- A thrown error is a failed `Result` or an empty `Option`. Which message it carries is not modelled.
- JavaScript's 32-bit operators, C's bounded buffers and fixed-width fields are written out where they matter.
- UBIFS well-formedness (`Ubifs.WellFormed`) is: whole LEBs, a superblock of 124 bytes up to a LEB, every inode holding its
  times inside its LEB, and every padding node holding its length inside its LEB.

## What the proofs found

- The 512-character guard of `encodeFitEnvironment` and the truncation guard of `mica_boot_render` are never reached
  (`BootRecords.TextLength`, `BootRecords.Render`).
- `unpackArchive` does not look past the last object, where the other readers refuse trailing bytes
  (`ArchiveReaders.TrailingBytesSeparateTheReaders`). `unpackCoreArchive` clamps an overlong last object to the file, where
  the other readers refuse it (`ArchiveReaders.OverlongLastObject`).
- The newc scan remembers a first `boot.json` by its truth value, so a second is accepted after a first that is `null`,
  `false`, `0` or `""`, and in no other case (`NewcArchive.OneOrSeveral`, `NewcArchive.FalsyPolicyIsReplaced`).
- The tree scan masks its offset to 32 bits. It ends on every structure block below 2^32 - 3 bytes, and from that size on
  there are blocks on which it does not (`DeviceTree.LargerBlocksMayLoop`).
- In `pinUbifs` the message of `node` speaks of the LEB, and its check is of the image. The model follows the check.
- From 2^31 on the same mask makes the offset negative, and the scan refuses the tree (`FlatTree.ScanIsLookup`,
  `FlatTree.LargeTreeIsRefused`).
- A tag can be re-pointed by two publishers of different manifests that overlap (`Registry.RivalsRepoint`), or by a write
  that was given up and lands late (`Registry.LateWriteRepoints`). A held tag can move exactly where a publisher already
  told that it is missing, or a write given up, is to write another digest (`TagMoves.NeverMovesExactly`); a free tag can
  come to hold two exactly where two publishers, or writes still to land, differ (`TagMoves.FreeTagMovesExactly`).
- The header of `src/offline/test-publish.ts` promises that an upload is aborted when it cannot finish. It is left where
  the last accepted answer carried no status, or that of another upload, or where the answer to its start was lost
  (`UploadRuns.BodyWithoutStatus`, `UploadRuns.OtherUpload`, `UploadRuns.LostStart`), and nowhere else
  (`UploadRuns.SettledExactly`).
- A package left out of a release may come back at a lower version (`VersionGuard.ReturnMayGoBack`).

## Model

| member | source | states |
|---|---|---|
| `DebianVersion.CompareDebianVersions` | src/image/debian-version.ts:67-71 | Undefined exactly when either text is no version; otherwise the sign of epoch, then upstream, then revision in the order of keys; what that order is, character by character, the laws of VersionLaws say |
| `DebianVersion.ComparePart` | src/image/debian-version.ts:43-64 | The two-cursor loop ends on all texts with the sign of the lexicographic order of the two keys |
| `DebianVersion.CompareText` | src/image/debian-version.ts:46-54 | The inner loop stops at the first difference in weight with its sign, or past both non-digit runs with the order of what is left unchanged |
| `DebianVersion.CompareNumbers` | src/image/debian-version.ts:55-61 | Stripping zeros, comparing lengths and then texts decides as the numbers of the two digit runs do, and an empty run is zero |
| `DebianVersion.CompareStripped` | src/image/debian-version.ts:58-60 | Stripped digit runs compare by length and then by text exactly as their numbers compare, and are equal texts exactly for equal numbers |
| `DebianVersion.VersionOrderIsTotalPreorder` | src/image/debian-version.ts:66-71 | On all valid versions: reflexive, antisymmetric in sign, transitive, strictly so where either step is strict, and versions that compare equal are interchangeable |
| `DebianVersion.OrderTransitive` | src/image/debian-version.ts:43-64 | Transitivity of one part's order, with equality exactly where both steps are equal |
| `DebianVersion.OrderZeroIsAgreement` | src/image/debian-version.ts:43-64 | Two parts compare equal exactly when their zero-padded keys agree at every index |
| `DebianVersion.OrderIsFirstDifference` | src/image/debian-version.ts:43-64 | Otherwise the first index at which the keys differ decides |
| `DebianVersion.AppendedTextDecides` | src/image/debian-version.ts:33-40 | A non-digit character appended to a part, whatever follows it, moves the part by the sign of that character's weight (VersionLaws.TildeSortsBefore and OthersSortAfter say which) |
| `VersionLaws.TildeSortsBefore` | src/image/debian-version.ts:33-40 | A part with a tilde and anything at all appended sorts before the part |
| `VersionLaws.OthersSortAfter` | src/image/debian-version.ts:33-40 | With any other non-digit character appended it sorts after the part |
| `VersionLaws.CharactersInOrder` | src/image/debian-version.ts:33-50 | After one common part, whatever follows: a tilde before letters before all other characters, and within each kind by code |
| `VersionLaws.NumbersDecide` | src/image/debian-version.ts:55-61 | After one common part that does not end in a digit, two digit runs decide as their numbers do where the numbers differ, whatever follows |
| `VersionLaws.SplitIsExact` | src/image/debian-version.ts:9-31 | The parse into epoch, upstream and revision is that of the grammar, in both directions: a text has the three parts exactly where it is written from them |
| `VersionLaws.VersionsInOrder` | src/image/debian-version.ts:66-71 | On valid versions the epoch decides first, then the upstream part, then the revision |
| `VersionLaws.AppendedToVersion` | src/image/debian-version.ts:33-71 | Carried to whole versions: a tilde in the upstream part sorts before, any other character after |
| `VersionLaws.AppendedToRevision` | src/image/debian-version.ts:33-71 | And the same in the revision |
| `DebianVersion.AcceptsExactly` | src/image/components.ts:191-198 | The bounds are inclusive: a version is accepted exactly where no bound stated is invalid or lies beyond it |
| `DebianVersion.AcceptedVersionsAreConvex` | src/image/components.ts:191-198 | A requirement by bounds that accepts two versions accepts every version between them |
| `Decimal.PrecedesIsLess` | src/image/debian-version.ts:59-60 | Of equally long numerals the text order is the number order, and equal texts are equal numbers |
| `Decimal.LongerIsLarger` | src/image/debian-version.ts:58-59 | Of numerals without leading zeros the longer is the larger |
| `BootRecords.ParseIsExact` | common/uboot/mica-records.h:41-90 | The grammar accepts exactly the texts of valid records (one or two, distinct ids, strictly falling generations of 1 to 2^53-1, tries of -1 to 3) and gives back those records: both directions |
| `BootRecords.ParseInto` | common/uboot/mica-records.h:41-90 | The cursor parser succeeds exactly on those texts, reading no further than the text's end or 513 characters, and leaves exactly the records in its output |
| `BootRecords.ParseId` | common/uboot/mica-records.h:24-39 | An id is 64 lower-case hexadecimal digits and a comma; the cursor moves past them |
| `BootRecords.IdExactly` | common/uboot/mica-records.h:24-39 | An id is 64 characters of 0 to 9 and a to f, and nothing else |
| `BootRecords.ParseGeneration` | common/uboot/mica-records.h:61-69 | The guard before each digit refuses exactly the numbers above 2^53-1, and the number built is that of the digits |
| `BootRecords.FillEntry` | common/uboot/mica-records.h:53-87 | One pass of the loop: the next entry is filled and checked against all before it as the grammar does |
| `BootRecords.TextLength` | src/image/fit-environment.ts:15-16 | A valid text takes 4 to 300 characters, so the 512-character guards are never reached |
| `BootRecords.Snprintf` | common/uboot/mica-records.h:107-110 | What a bounded print leaves: the piece cut to the room, a terminating zero, and the piece's full length as result |
| `BootRecords.Render` | common/uboot/mica-records.h:92-116 | Rendering succeeds exactly on valid records, whatever the C struct holds in the entries it counts, and leaves their text; the truncation guard is proved not to fire |
| `BootRecords.ParseThenRender` | common/uboot/mica-records.h:41-116 | Rendering after parsing is the identity on every text that parses |
| `BootRecords.ParseOfWritten` | common/uboot/mica-records.h:115 | Parsing what was rendered refuses exactly the records that are not valid and otherwise returns them |
| `BootRecords.CRecordTextLength` | common/uboot/mica-records.h:107-112 | One record of a C struct never takes more than 152 characters |
| `BootRecords.EnvValue` | common/uboot/mica-records.h:126-140 | A copy has a value exactly when it holds the key, a string of at most 512 characters and zeros to its end; the value found is that string |
| `BootRecords.EntryIsTheString` | common/uboot/mica-records.h:126-140 | A copy holds one entry at most: the string at the value's offset |
| `BootRecords.EnvStore` | common/uboot/mica-records.h:143-147 | On a copy zeroed from byte 5 the text stored is the entry held, and bytes 0 to 4 are kept |
| `BootRecords.Next` | common/uboot/mica-records.h:149-157 | The first record with tries left, or -1 exactly when none has any |
| `BootRecords.SlotOf` | common/uboot/mica-records.h:159-167 | An invalid copy is never selected beside a valid one; of two valid ones the second where its flag is next after the first's, the first where its flag is next after the second's or the same, and otherwise the larger flag |
| `BootRecords.WriteSelectsTheNewCopy` | common/uboot/mica-records.h:159-167 | Writing the copy not selected with the flag one higher modulo 256: interrupted, the old copy stays selected; completed, the new one is; and repeating an interrupted write ends the same |
| `BootRecords.WritesAlternate` | common/uboot/mica-records.h:159-167 | Over any number of completed writes, through the flag's wrap, the two copies alternate |
| `FitEnvironment.EncodeFitEnvironment` | src/image/fit-environment.ts:7-27 | Accepts exactly the record lists that meet its checks with a flag of 0 to 255; the 65536 bytes are CRC, flag, key and text, zeros |
| `FitEnvironment.Check` | src/image/fit-environment.ts:10-14 | The per-record checks hold exactly for well-typed, valid, distinct records of falling generation |
| `FitEnvironment.AcceptableIsValid` | src/image/fit-environment.ts:11-12 | One record passes exactly when it is of the right types and what the reader calls valid, with no tries as null |
| `FitEnvironment.IdStringExactly` | src/image/fit-environment.ts:10-12 | The encoder takes the same ids: 64 characters of 0 to 9 and a to f |
| `FitEnvironment.EncodeValue` | src/image/fit-environment.ts:17-26 | In place: the CRC over bytes 5 on, the flag, the key and value, and zeros |
| `FitEnvironment.ReadsBack` | src/image/fit-environment.ts:15-25 | A copy so encoded holds the entry and parses to exactly the records encoded |
| `FitEnvironment.EncodeAndRead` | src/image/fit-environment.ts:7-27 | Encoder, then reader, then parser: for every accepted list and flag the loader's records are those given, null tries as -1 |
| `Crc32.FeedLoop` | src/image/flash-image.ts:90-97 | The byte and bit loops compute the fold of the eight-shift step from all ones |
| `Crc32.CrcsAreComplements` | src/image/fit-environment.ts:20-25 | The environment CRC is the complement of the UBIFS CRC of the same bytes, on every buffer |
| `Crc32.CheckValue` | src/image/fit-environment.ts:20-25 | The CRC of the digits 1 to 9 is 0xCBF43926, the check value of CRC-32 |
| `Crc32.StepIsBijective` | src/image/flash-image.ts:93-94 | For each byte the step is a bijection of the state, with its inverse on both sides |
| `Crc32.FeedInjectiveInState` | src/image/flash-image.ts:92-95 | Over any bytes, different states stay different |
| `Crc32.FeedFourIsBijective` | src/image/flash-image.ts:92-95 | From every state the loop maps four-byte sequences one to one onto the states |
| `Crc32.WindowChangesAreDetected` | src/image/flash-image.ts:90-97 | Different buffers of one length that differ only within a four-byte window never share either CRC |
| `Chunks.Cut` | src/release/chunks.ts:32-52 | The loop over two 32-bit halves cuts exactly where the 64-bit rule says, and describes the pieces by digest and length |
| `Chunks.StepIsTheHash` | src/release/chunks.ts:37-41 | The halves after JavaScript's signed and unsigned 32-bit operations carry 2 * hash + GEAR[b] modulo 2^64 |
| `Chunks.TopBitsOfTheHash` | src/release/chunks.ts:43 | The mask on the high half is the fourteen top bits of the 64-bit hash |
| `Chunks.PiecesPartition` | src/release/chunks.ts:32-52 | The pieces concatenate to the input, each at most 65536 bytes and all but the last at least 4096; each but the last ends where the rule cuts, and no piece could have been cut earlier |
| `Chunks.HashForgets` | src/release/chunks.ts:30-41 | The hash of a chunk is that of its last 64 bytes |
| `Chunks.HashCutIsLocal` | src/release/chunks.ts:42-43 | Whether the hash cuts depends on no byte more than 64 back |
| `Chunks.HashIsReducedSum` | src/release/chunks.ts:38-41 | The running hash is the weighted sum of the gears, reduced once |
| `Chunks.CutsResynchronise` | src/release/chunks.ts:32-52 | Two inputs with a common suffix and one cut at the same point of it have the same pieces from there on |
| `Transfer.EncodeIndex` | src/release/chunks.ts:56-67 | In place at fixed offsets: refused exactly where a number does not fit its field, and otherwise the bytes of the format |
| `Transfer.IndexRoundTrip` | src/release/chunks.ts:54-67 | An index decodes to the digest, length and chunks it was made from |
| `Transfer.Publish` | src/release/chunks.ts:102-115 | An index for every object in order, and chunks under distinct digests that include every piece of every object |
| `Transfer.AddChunks` | src/release/chunks.ts:108-112 | Slicing the object at the running offset publishes exactly its pieces, keeping what is published |
| `Transfer.Reassembles` | src/release/chunks.ts:54-67 | From a sound set of published chunks, the chunks an object's decoded index names concatenate to the object |
| `Transfer.ReleaseReproducesItsObjects` | src/release/chunks.ts:101-115 | For every object list, every object of the release is reproduced from its published index and chunks, unless two different pieces of the objects share a digest |
| `Archive.TakeArchiveIsExact` | src/image/component-archive.ts:64-106 | Taking an archive apart succeeds exactly on an envelope and intact objects as written, followed by anything |
| `Archive.Collect` | src/image/component-archive.ts:66-71 | Refused exactly where one digest is given two lengths; otherwise the first artifact under each digest |
| `Archive.WriteObjects` | src/image/component-archive.ts:83-106 | Written exactly when every file is there with its stated length and digest |
| `Archive.WriteArchive` | src/image/component-archive.ts:65-117 | Succeeds exactly on writable input, and then writes the envelope and one object for each digest, in the order Archive.WrittenObjects states |
| `Archive.WrittenObjects` | src/image/component-archive.ts:83-106 | What is written is intact, names exactly the artifacts given, and of two objects the earlier digest agrees with the later up to some byte and is smaller in that |
| `Archive.ReadersTakeWhatIsWritten` | src/image/component-archive.ts:65-117 | Whatever is written, taking it apart gives back the envelope and those objects and nothing more |
| `Archive.ArchiveObjects` | src/release/chunks.ts:72-92 | Reads exactly the intact archives without trailing bytes, and returns their objects in order |
| `Archive.ReadObject` | src/release/chunks.ts:79-89 | One object at an offset: header, bounds and digest |
| `ArchiveReaders.VerifyArchive` | src/image/release-manifest.ts:512-561 | Returns a deployment exactly for a verified archive; ArchiveLaws.VerifiedExactly says without the reader which files those are |
| `ArchiveLaws.VerifiedExactly` | src/image/release-manifest.ts:512-561 | A file is verified as a deployment if and only if it is an envelope of 1 to 16384 bytes that authenticates as it, then intact objects in ascending byte order and nothing more, which are exactly the artifacts the descriptor names and, with a core set carried under its digest, length and identity, exactly those and its components, in at most 128 objects |
| `ArchiveLaws.VerifiedNamesOnly` | src/image/release-manifest.ts:526-555 | Its objects are in byte order and exactly those named: each artifact is carried under its digest in its length, and nothing else is |
| `ArchiveLaws.NamesAreCarried` | src/image/release-manifest.ts:526-555 | The lengths carried are the lengths named exactly where the archive carries exactly what is named |
| `ArchiveLaws.HexDigits` | src/image/release-manifest.ts:541 | A digest is written in the digits 0 to 9 and the letters a to f, and no other byte |
| `ArchiveReaders.NameAllIs` | src/image/release-manifest.ts:526-530 | Naming succeeds exactly when no digest has two lengths, and the map then holds exactly the artifacts named |
| `ArchiveReaders.FullArchiveVerifies` | src/image/component-archive.ts:65-117 | Every full archive written, with or without a core set, with an envelope of at most 16384 bytes, is accepted and gives back the deployment packed |
| `ArchiveReaders.UnpackArchive` | src/image/component-archive.ts:125-183 | Succeeds exactly on archives with distinct intact objects that include the five artifacts, and yields their bytes |
| `ArchiveReaders.FullArchiveUnpacks` | src/image/component-archive.ts:125-183 | Every full archive written unpacks to the deployment and the files packed |
| `ArchiveLaws.UnpacksTheFive` | src/image/component-archive.ts:160-183 | What unpackArchive yields holds the boot, the support and its signature, the root and its signature of the descriptor, each under its digest, of its length and hashing to it |
| `ArchiveLaws.CoreUnpacksBoth` | src/image/component-archive.ts:206-222 | What unpackCoreArchive yields holds the image and the signature of every component, each under its digest, of its length and hashing to it |
| `ArchiveReaders.TrailingBytesSeparateTheReaders` | src/image/component-archive.ts:138-160 | Trailing bytes change nothing for unpackArchive, and make the other readers refuse: where the readers of one format differ |
| `ArchiveReaders.UnpackCoreArchive` | src/image/component-archive.ts:190-222 | Succeeds exactly as its checks say, with the slice of a last object clamped to the file |
| `ArchiveReaders.CoreUnpacksIsExact` | src/image/component-archive.ts:206-208 | What is accepted holds exactly the objects the set names, each under its digest |
| `ArchiveReaders.CoreArchiveUnpacks` | src/image/component-archive.ts:60-62 | Every core archive written unpacks to the set and files packed |
| `ArchiveReaders.OverlongLastObject` | src/image/component-archive.ts:200-208 | Of the archives this reader accepts, the others refuse exactly those whose last header states more bytes than follow; from the rest they take the same objects, with nothing after them |
| `ArchiveReaders.OverlongObject` | src/image/component-archive.ts:200-205 | Every content has such a header, which this reader takes and the others do not |
| `Ubifs.PinUbifs` | src/image/flash-image.ts:104-137 | The in-place rewrite succeeds exactly where the walk and its bounds allow, and leaves the specified bytes; that the walk meets every inode a writer laid out is UbifsLayout.LaidOutInodes |
| `Ubifs.PinNodes` | src/image/flash-image.ts:113-126 | The outer loop over LEBs is the walk of the whole image |
| `Ubifs.PinLeb` | src/image/flash-image.ts:114-125 | The inner loop, with its own offset arithmetic, is the walk of one LEB |
| `Ubifs.PinNode` | src/image/flash-image.ts:115-124 | One node: refused, rewritten if an inode, and the offset of the next, which UbifsLayout.NextItem proves to be where the next node of a laid-out block is |
| `Ubifs.PinInode` | src/image/flash-image.ts:116-123 | The five writes within an inode |
| `Ubifs.Seal` | src/image/flash-image.ts:112 | The CRC of bytes 8 on of a node, in place at its offset 4 |
| `Ubifs.PinSuperblock` | src/image/flash-image.ts:127-136 | Blanking, hashing, the UUID and the superblock's CRC, in place |
| `Ubifs.FixInodeIsFixed` | src/image/flash-image.ts:117-122 | The overlapping in-place copies are the rewrite of the node as a whole |
| `Ubifs.WalkIsFixAll` | src/image/flash-image.ts:113-126 | On a well-formed image the walk rewrites exactly its inodes, each once, although it reads what it has already changed |
| `Ubifs.PinFrame` | src/image/flash-image.ts:99-103 | On a well-formed image nothing is refused, no byte changes but inode times and CRCs and the superblock's UUID and CRC, and the result is well-formed with the same inodes |
| `Ubifs.PinIsCanonical` | src/image/flash-image.ts:99-103 | Two well-formed images have one result if and only if they differ only in those bytes |
| `Ubifs.PinIsIdempotent` | src/image/flash-image.ts:99-103 | Rewriting the result again changes nothing |
| `Ubifs.PinSeals` | src/image/flash-image.ts:112-135 | In the result every inode the walk meets has one time, its mtime, and a valid CRC; the superblock has a valid CRC over a version 4 UUID taken from the rest of the image |
| `Ubifs.WellFormedAgrees` | src/image/flash-image.ts:113-126 | Well-formedness and the inodes depend on none of the bytes replaced |
| `UbifsLayout.NextItem` | src/image/flash-image.ts:114-124 | From any node of a laid-out block, filled with zeros to a multiple of eight bytes or, padding, followed by its gap, the walk goes on exactly behind it |
| `UbifsLayout.ScanItems` | src/image/flash-image.ts:113-126 | The walk of a block of such nodes and free space meets exactly its inodes, by induction on the nodes |
| `UbifsLayout.LaidOutInodes` | src/image/flash-image.ts:113-126 | Every image laid out in blocks of such nodes, the superblock first, is well-formed, and the inodes rewritten are exactly those laid out, where they are and as long as they are |
| `UbifsLayout.LaidOutInodesAreSealed` | src/image/flash-image.ts:99-126 | So every inode node of every such image comes out with one time, its mtime, and a valid CRC |
| `FlashImage.WriteRegions` | src/image/flash-image.ts:192-207 | Refused exactly when a region's input is missing or too large; otherwise the file is as long as the flash, each region holding its bytes and then 0xff |
| `FlashImage.WriteRegion` | src/image/flash-image.ts:203-205 | The two positioned writes append exactly one region |
| `FlashImage.WriteAtIs` | src/image/flash-image.ts:203-205 | A positioned write, byte by byte: what is written, elsewhere what was there, and zeros between the old end and the position |
| `FlashImage.ImageIsUnique` | src/image/flash-image.ts:192-207 | Those requirements leave no byte of the file open |
| `DeviceTree.Scan` | src/image/boot-policy.ts:27-49 | The token loop over a stack of names ends on every structure block of fewer than 2^32 - 3 bytes with the result of the step-by-step specification |
| `DeviceTree.Step` | src/image/boot-policy.ts:30-48 | One token: on a block below that limit every step moves forward or leaves the offset negative, where the next read throws |
| `DeviceTree.LargerBlocksMayLoop` | src/image/boot-policy.ts:45 | From the limit on there is a block, of every size the header can state, whose first step returns to its own start: the 32-bit mask wraps to zero |
| `FlatTree.ScanIsLookup` | src/image/boot-policy.ts:27-51 | On the flattening of any tree, with NOPs anywhere and anything after its end: where every begin and property ends below 2^31, the data property of /images/ramdisk if the tree has exactly one, nothing if it has none, and a refusal of several; where one does not, a refusal |
| `FlatTree.LargeTreeIsRefused` | src/image/boot-policy.ts:45 | Such a tree: any tree behind a property of 2 GiB, less 20 bytes |
| `FlatTree.ScanOverflows` | src/image/boot-policy.ts:34-45 | A begin or property that ends at 2^31 or above makes the masked offset negative, and the next read throws |
| `FlatTree.ScanItems` | src/image/boot-policy.ts:29-49 | The same inside any node, by induction on the tree: what is picked up below, and the offset and stack after it |
| `FlatTree.PickedIsFound` | src/image/boot-policy.ts:41 | What the stack test picks up is what lookup by path finds |
| `FlatTree.StackIsPath` | src/image/boot-policy.ts:41 | Joining names with slashes identifies the path, as names hold no slash |
| `FlatTree.JoinIsInjective` | src/image/boot-policy.ts:41 | Different lists of slash-free names join to different texts |
| `Newc.Scan` | src/image/boot-policy.ts:53-70 | The loop ends on every archive, with a policy exactly where the members read and the values held allow one |
| `NewcArchive.MembersRoundTrip` | src/image/boot-policy.ts:55-68 | Any archive in the newc layout reads back as its members, up to a trailer and whatever follows it |
| `NewcArchive.ReadsRecord` | src/image/boot-policy.ts:56-67 | One member's header, name, data and padding are found where the format puts them |
| `NewcArchive.HexRoundTrip` | src/image/boot-policy.ts:58 | Eight hexadecimal digits of either case read back as their number |
| `NewcArchive.ScanIsExact` | src/image/boot-policy.ts:53-70 | The scan of any archive yields the last of its boot.json members if it is an object and every earlier one is a falsy JSON value, and refuses all else |
| `NewcArchive.OneOrSeveral` | src/image/boot-policy.ts:63-66 | One boot.json is accepted exactly when it is an object; a second is refused exactly unless the first is falsy |
| `NewcArchive.FalsyPolicyIsReplaced` | src/image/boot-policy.ts:64 | A second boot.json is not always refused: in any archive of two, of which the first parses to null and the second to an object, the second is taken |
| `NewcLayout.HeaderExactly` | src/image/boot-policy.ts:56-58 | 110 bytes are a header exactly where they are the magic and thirteen numbers below 2^32 in eight hexadecimal digits of either case each |
| `NewcLayout.HeaderReads` | src/image/boot-policy.ts:58-59 | And each of the thirteen is read where it stands |
| `NewcLayout.PlainIs` | src/image/boot-policy.ts:62-63 | A name counts as a path exactly where it is the path or the path behind ./ |
| `NewcLayout.FalsyExactly` | src/image/boot-policy.ts:64-69 | The values the test for a second policy does not see are null, false, 0 and the empty string; those taken in the end are arrays and objects |
| `NewcLayout.ScanOfArchive` | src/image/boot-policy.ts:53-70 | So the scan of any archive laid out from such headers, names and data, up to a trailer and whatever follows it, yields the last text under the name if it is an array or object and all before it are falsy, and refuses every other archive |
| `NewcLayout.ReadExactly` | src/image/boot-policy.ts:55-62 | Of whatever bytes, a member is read at an offset if and only if it stands there: a header that states its lengths, its name and a NUL, and its data at the next multiple of four |
| `NewcLayout.PolicyExactly` | src/image/boot-policy.ts:53-70 | Of whatever bytes, an archive yields a policy if and only if members stand in it one behind the other up to a trailer or its end, and of their texts under the name the last is an array or object and all before it are falsy |
| `Uki.Initrd` | src/image/boot-policy.ts:8-22 | The initrd of a UKI exactly where every section header is inside the file, one section has the name, and its bytes are no more than stated for the file and inside it |
| `UkiLayout.ReadsSection` | src/image/boot-policy.ts:14-20 | In an image laid out by the PE format each section is read with the name, size, size in the file and place its header states |
| `UkiLayout.HoldsOfUki` | src/image/boot-policy.ts:8-22 | Such an image holds an initrd exactly where one of its sections, and only one, has the name, is no longer in memory than in the file and lies inside it; and these are the bytes there |
| `UkiLayout.HoldsExactly` | src/image/boot-policy.ts:8-22 | And no other object holds one: an object holds an initrd if and only if it is an image so laid out and that is its one section of the name |
| `BootPolicy.FindInitrd` | src/image/boot-policy.ts:7-51 | For both formats, the initrd the object holds, or none; BootPolicy.BlocksOfFit and PolicyOfFit say what a FIT holds from its header on |
| `BootPolicy.BootPolicy` | src/image/boot-policy.ts:2-71 | A policy exactly where the object holds an initrd and the initrd, decompressed, a policy |
| `BootPolicy.BlocksOfFit` | src/image/boot-policy.ts:24-26 | In an object that begins with the ten-word header of section 5.2 of the Devicetree Specification v0.4, and has its structure and strings blocks anywhere it says, those two blocks are the ones scanned |
| `BootPolicy.BlocksExactly` | src/image/boot-policy.ts:24-26 | And no other object yields blocks: an object yields these two if and only if it has such a header and they stand where that says |
| `BootPolicy.PolicyOfFit` | src/image/boot-policy.ts:24-70 | For an object with such a header whose structure block flattens a tree with an initrd in newc layout: a policy exactly when the tree fits the masked offsets and has one ramdisk, the archive's last text under the policy's name is an array or object and all before it are falsy; and then that one |
| `BootPolicy.PolicyExactly` | src/image/boot-policy.ts:52-70 | Of whatever bytes, an initrd holds a policy if and only if it decompresses to at most 64 MiB in which members so stand one behind the other |
| `BootPolicy.PolicyOfUki` | src/image/boot-policy.ts:8-70 | The same of a UKI laid out by the PE format with one section of the initrd's name inside the file |
| `JsonScan.Scan` | src/image/release-manifest.ts:225-236 | The loop over tokens with its mutable stack refuses exactly where the token-by-token specification does |
| `JsonScan.TokensOfText` | src/image/release-manifest.ts:226 | The regular expression's tokens of any JSON text are its strings and marks, whatever escapes its strings hold and whatever space surrounds them |
| `JsonScan.RunValue` | src/image/release-manifest.ts:226-236 | Over a value's tokens the scan is back at the same stack, or has refused a duplicate in it |
| `JsonScan.ScanIsExact` | src/image/release-manifest.ts:225-236 | A JSON text passes exactly when no object in it, at any depth, has two members whose keys decode alike |
| `PngFilter.UnfilterRow` | common/kernel/mklogo.ts:75-99 | In place, for each of the five filters, the row recovered from the filtered bytes and the row above |
| `PngFilter.UnfilterImage` | common/kernel/mklogo.ts:69-107 | The rows in turn, each against the one before, the first against zeros |
| `PngFilter.UnfilterOfFiltered` | common/kernel/mklogo.ts:75-99 | Each filter is undone exactly, for every row and row above |
| `PngFilter.FilteredOfUnfilter` | common/kernel/mklogo.ts:75-99 | And no two filtered rows give one row |
| `PngFilter.PaethIsNearest` | common/kernel/mklogo.ts:91-96 | The Paeth prediction is the neighbour nearest to left plus above less above left, the left before the above before the above left among those as near, and only that one |
| `PngFilter.FilteredByte` | common/kernel/mklogo.ts:75-99 | A filtered byte plus what section 9 of the PNG specification predicts for it is the byte of the row, modulo 256, for each of the five filters |
| `PngFilter.ImageRoundTrip` | common/kernel/mklogo.ts:69-107 | Whatever filter an encoder chose for each row, the image comes back |
| `Resample.Resample` | common/kernel/mklogo.ts:112-139 | An image of the size asked for, each pixel the rounded weighted mean of the source |
| `Resample.PixelAt` | common/kernel/mklogo.ts:115-134 | The two inner loops accumulate exactly the weighted sums, never reading outside the source |
| `Resample.AddRow` | common/kernel/mklogo.ts:124-132 | One source row's part of the sums, positions without overlap skipped |
| `Resample.VisitedCover` | common/kernel/mklogo.ts:120-125 | The rows and columns visited lie inside the source and cover the output pixel |
| `Resample.GatherConstant` | common/kernel/mklogo.ts:112-134 | The weights along one axis sum to the source's size, for all sizes |
| `Resample.SumsAreResampled` | common/kernel/mklogo.ts:131-134 | The area is exactly sw * sh, so nothing is divided by zero, and the quotients are channels |
| `Resample.ResampledIsNearest` | common/kernel/mklogo.ts:133-134 | Each channel of an output pixel is the whole number nearest to its weighted mean, the upper of two as near |
| `Resample.ResampledBetween` | common/kernel/mklogo.ts:112-136 | Each channel lies between the least and the greatest of the source pixels covered |
| `Resample.EqualSizesAreIdentity` | common/kernel/mklogo.ts:112-136 | Equal sizes give the image itself |
| `Resample.EachPixelCountsAlike` | common/kernel/mklogo.ts:119-134 | Each source pixel weighs dw * dh over the whole output |
| `Resample.ResampleConserves` | common/kernel/mklogo.ts:119-134 | Summed over the whole output, each channel's weighted sums are dw * dh times the source's total |
| `Palette.Quantise` | common/kernel/mklogo.ts:146-196 | Unchanged where there are few enough colours; otherwise every pixel mapped by its box; and the rows returned have at most the limit of colours |
| `Palette.BuildHistogram` | common/kernel/mklogo.ts:147-149 | The counts, and the colours in the order of their first pixels |
| `MedianCut.HistogramCounts` | common/kernel/mklogo.ts:149 | The histogram counts each colour's pixels |
| `Palette.ChooseBox` | common/kernel/mklogo.ts:162-169 | The loop finds the box of the specification |
| `MedianCut.BestIsPreferred` | common/kernel/mklogo.ts:164-169 | Of the boxes that can be split none is wider than the one chosen, none as wide holds more pixels, and none as wide and as full comes before it; one is chosen where any can be split |
| `MedianCut.WidestIsSpread` | common/kernel/mklogo.ts:172-174 | The channel chosen is as wide as any, and the first of those as wide |
| `MedianCut.ExtentIsDifference` | common/kernel/mklogo.ts:159-161 | The spread in a channel is the largest difference of two colours of the box |
| `Palette.FindCut` | common/kernel/mklogo.ts:176-182 | The loop finds the cut of the specification |
| `MedianCut.CutIsAtTheMedian` | common/kernel/mklogo.ts:176-182 | The median is reached in every box, and the cut is there, moved only to leave both halves a colour |
| `MedianCut.MedianIsFirst` | common/kernel/mklogo.ts:178-182 | Before the median lies less than half the population, up to it at least half |
| `MedianCut.HalvesAreOrdered` | common/kernel/mklogo.ts:175-183 | No colour of the lower half exceeds one of the upper in the channel cut by |
| `MedianCut.OrdersAreRanks` | common/kernel/mklogo.ts:141-143 | Both comparisons order by a number and tie no two colours |
| `MedianCut.SortedIsUnique` | common/kernel/mklogo.ts:155 | So a set of colours has one sorted arrangement, whatever sort is used |
| `Palette.CutBoxes` | common/kernel/mklogo.ts:155-184 | The loop ends with the boxes of the specification |
| `MedianCut.AlwaysABest` | common/kernel/mklogo.ts:170 | While there are fewer boxes than colours one can be split: the loop never breaks off |
| `MedianCut.SplitKeepsPartition` | common/kernel/mklogo.ts:171-183 | A split keeps every colour in exactly one box and no box empty |
| `MedianCut.BoxesPartition` | common/kernel/mklogo.ts:161-184 | With more colours than the limit the loop ends with exactly the limit, a partition of the colours, with the population conserved |
| `Palette.BoxesOfPartition` | common/kernel/mklogo.ts:146-184 | For every image: exactly the limit of boxes, non-empty, populated, partitioning the colours met, with every pixel counted once |
| `Palette.MappingIsTotal` | common/kernel/mklogo.ts:185-195 | Every pixel is mapped to the mean of the box that holds it, within the box's extent in every channel |
| `Palette.RepresentativeIsMean` | common/kernel/mklogo.ts:185-190 | A box's colour is in each channel the mean over the box's pixels rounded down: n times it is at most the weighted sum, and n times the next number is above it |
| `Palette.MappedDependsOnHistogram` | common/kernel/mklogo.ts:146-196 | The mapping of a colour depends on the histogram alone, not on where its pixels lie |
| `Palette.NoMoreThanTheLimit` | common/kernel/mklogo.ts:146-196 | A quantised image has at most the limit of colours, for every image and every limit of at least one |
| `Palette.MainNeverRefuses` | common/kernel/mklogo.ts:204-207 | The count of 224 in main is never exceeded; the same bound holds of the rows Palette.Quantise returns |
| `Registry.StepKeepsSound` | src/pool/registry.ts:281-334 | Every request of every publisher, however answered, keeps every tagged manifest's config and layers stored and every publisher's progress true |
| `Registry.TagsAreComplete` | src/pool/registry.ts:281-334 | So in every run, with any interleaving, crashes, lost answers and late effects, at every moment |
| `Registry.HasBlobsIs` | src/pool/registry.ts:304-312 | A manifest is complete where its config and every one of its layers is stored |
| `Registry.EmptyIsSound` | src/pool/registry.ts:281-334 | The empty registry is where such runs may start |
| `Registry.StepKeepsTag` | src/pool/registry.ts:318-331 | One request moves no tag that has no rival publishers |
| `Registry.TagNeverMoves` | src/pool/registry.ts:316-331 | Over whole runs, from a free tag on: while no two live publishers of the tag, or writes of it given up and still to land, push different manifests, the tag never changes a digest it has had |
| `TagMoves.NeverMovesExactly` | src/pool/registry.ts:316-331 | A held tag keeps its digest in every run, whoever publishes it, if and only if no publisher already told that it is missing, and no write given up, is to write another |
| `TagMoves.FreeTagMovesExactly` | src/pool/registry.ts:316-331 | A free tag gets two digests in some run without a new publisher of it if and only if two that are publishing it, or whose write of it is still to land, push different manifests |
| `TagMoves.RunStands` | src/pool/registry.ts:321-325 | New publishers of a held tag, and those that have not read it yet, never move it: they find it held |
| `Registry.RivalsRepoint` | src/pool/registry.ts:320-327 | The condition is needed: of any two different manifests the second written takes the tag, where both publishers read it before either wrote |
| `Registry.LateWriteRepoints` | src/pool/registry.ts:242-253 | And of late writes too: one given up that lands after the next publisher has finished takes the tag, although no two publishers are ever live |
| `Registry.FinishedHolds` | src/pool/registry.ts:321-328 | A publisher finishes only with its tag at its own digest, and never where the tag holds another |
| `Registry.EqualPublishersAgree` | src/pool/registry.ts:316-331 | Publishers that push equal manifests may overlap and crash: the tag is free or at their digest |
| `Registry.AnsweredFinishes` | src/pool/registry.ts:281-331 | A publisher answered well finishes within three requests a blob and two, with its tag at its digest and no other tag touched, where the tag was free or at its digest |
| `Registry.RerunEndsAtTheSameDigest` | src/pool/registry.ts:302-334 | After any crash of any such publishers, publishing again, answered well, ends with the tag at the same digest |
| `Publisher.BlobPut` | src/pool/registry.ts:281-300 | The code of one upload is a run of the protocol in which each request has the next reply, and crashes only where the replies have run out; it takes at most three, a success stores exactly that blob, and a failure means a bad reply or none left |
| `Publisher.TagManifest` | src/pool/registry.ts:318-334 | The same of tagging, in at most two replies: a success leaves the tag at the digest, a tag that holds another is left, and a failure means a bad reply, none left, or a tag that holds another digest |
| `Publisher.Publish` | src/pool/registry.ts:304-314 | The whole of publish: each request has the next reply, at most three a blob and two; with good replies, and so many of them, it succeeds where the tag is free or at the digest; it fails only where a reply is bad, they run out or the tag holds another; a success has all blobs stored and the tag at the digest, in every case no other tag moves, and no write is left to land late but its own |
| `VersionGuard.Guard` | src/pool/version-guard.ts:63-88 | The loop passes exactly when every package's decision does, and counts the decisions |
| `VersionGuard.PassesExactly` | src/pool/version-guard.ts:64-86 | A package passes if and only if it is built as one archive and is new, or of a higher version, or at the published version the layer of the published digest has its file name and its inputs of now, and what is served under that digest is its bytes |
| `VersionGuard.OneStep` | src/pool/version-guard.ts:69-85 | Between a release and one that passed against it a package's version does not go down, and at one version its digest is the same |
| `VersionGuard.VersionsNeverDecrease` | src/pool/version-guard.ts:11-21 | Over any history, while a package stays published: versions never decrease, and releases of one version carry one digest |
| `VersionGuard.OneVersionIsOneArchive` | src/pool/version-guard.ts:11-21 | And identical bytes, unless two of the package's own archives share a digest |
| `VersionGuard.ReturnMayGoBack` | src/pool/version-guard.ts:70 | Continuity is needed: a package left out of one release may return at a lower version |
| `VersionGuard.DpkgOrderQualifies` | src/pool/version-guard.ts:72 | What is assumed of the imported comparison holds of dpkg's order on versions as modelled, epoch included |
| `Upload.Upload` | src/offline/test-publish.ts:163-196 | The loops, retries and handlers send exactly the requests of the machine over the answers, and end where it ends, whatever the answers |
| `Upload.Attempt` | src/offline/test-publish.ts:165-193 | One start, its parts, its completion, and its abort on every way out that has a status to abort by |
| `Upload.SendParts` | src/offline/test-publish.ts:167-180 | The part loop with its resumption and its failures; an accepted answer without a status ends it with nothing to abort by |
| `Upload.Call` | src/offline/test-publish.ts:125-154 | A request with bytes is sent once, another until it is answered for good, six times at most; a body that cannot be taken in raises at once |
| `UploadTurns.AfterPart` | src/offline/test-publish.ts:168-180 | In every whole run: a part taken is followed by what its status asks for; one not taken, where a network error, 429, 5xx, PART_FAILED or PART_OUT_OF_ORDER leaves open where to go on, by asking for the status, up to five times in a row, and otherwise by the abort of its upload |
| `UploadTurns.AfterTransient` | src/offline/test-publish.ts:131-154 | Any other request is sent again on a network error, 429 or 5xx, until it has been sent six times |
| `UploadTurns.AfterAnswer` | src/offline/test-publish.ts:163-196 | Answered for good: a start or a question that succeeds goes on with its status, a start that does not ends the run, a question that does not is followed by the abort; a completion taken ends the run, any other is followed by the abort; and the abort, once, by a second start where the file arrived spoiled or too late, and otherwise by nothing |
| `UploadTurns.CountsOfRun` | src/offline/test-publish.ts:163-196 | The counters of the code are what the requests and answers so far say: repeats, parts not taken in a row, starts |
| `UploadRuns.EveryRequest` | src/offline/test-publish.ts:163-196 | Every request but a start is about the status the last accepted answer carried: a part is the one it asks for, a completion is sent only when it has no more |
| `UploadRuns.SettledExactly` | src/offline/test-publish.ts:163-196 | In every run that is over, an upload that was started is completed or has had its abort attempted if and only if, for that start or a later one, the last accepted answer carried a status that names it |
| `UploadRuns.LeftExactly` | src/offline/test-publish.ts:163-196 | Where no later start ends under its id, such an upload is left exactly where the last accepted answer carried no status or one of another upload |
| `UploadRuns.LostIsLeft` | src/offline/test-publish.ts:163-165 | One whose start took effect unseen, with nothing accepted after it, is always left |
| `UploadRuns.EveryUploadSettled` | src/offline/test-publish.ts:163-193 | Where accepted answers carry the status of their upload and no start is lost, every upload is settled |
| `UploadRuns.BodyWithoutStatus` | src/offline/test-publish.ts:172 | A part accepted with no status in the body leaves its upload: the handler's own use of the id throws, so no abort is sent |
| `UploadRuns.OtherUpload` | src/offline/test-publish.ts:172-191 | A part accepted with the status of another upload: that one is aborted, and the one started is left |
| `UploadRuns.LostStart` | src/offline/test-publish.ts:131-141 | A start that takes effect although its answer is lost is sent again, and the first upload is left |
| `UploadRuns.NamedAgain` | src/offline/test-publish.ts:168-182 | A status that names another upload on the way does no harm where the last one names it again |
| `UploadRuns.StepCosts` | src/offline/test-publish.ts:163-196 | With parts that move on, one answer lowers the number of requests still possible: parts remaining, failures left and tries left in one measure |
| `UploadRuns.RunEnds` | src/offline/test-publish.ts:163-196 | So a run against such a server takes no more than a stated number of requests |
| `UploadRuns.AcceptedForEver` | src/offline/test-publish.ts:168-172 | The condition on the server is needed: where every accepted answer leaves a part to send the run never ends, with ever more parts for one |
| `UploadRuns.NeverAdvances` | src/offline/test-publish.ts:168-172 | Against a server whose accepted parts do not move on there are runs of every length that are not over |
| `UploadRuns.MovesBack` | src/offline/test-publish.ts:168-179 | Nor is it enough that accepted parts move on: against a status that moves back there are runs as long as one likes |
| `UploadRuns.PartIsItsBytes` | src/offline/test-publish.ts:169-170 | Part n carries the file's bytes from (n-1) parts to n parts or its end |
| `UploadRuns.PartsAreTheFile` | src/offline/test-publish.ts:169-170 | The parts in order are the file |
| `FlashLayout.CheckRegions` | src/image/flash-layout.ts:148-161 | The loop accepts exactly the regions that tile the flash in order, aligned, with distinct names, one ubi region and at most one loader |
| `FlashLayout.ChipRulesExactly` | src/image/flash-layout.ts:142-147 | The chip is accepted exactly where a sub-page divides a page, a page an erase block and that the flash, and the volume header lies on a sub-page past the first 64 bytes and ends inside its block |
| `FlashLayout.EveryByteInOneRegion` | src/image/flash-layout.ts:148-159 | Every byte of the flash then lies in exactly one region |
| `FlashLayout.AlignedExactly` | src/image/flash-layout.ts:150-151 | A region is accepted as aligned exactly where it is whole erase blocks from a whole erase block on |
| `FlashLayout.LebFits` | src/image/flash-layout.ts:143-147 | By the chip's rules a LEB is never negative nor larger than its erase block |
| `FlashLayout.BlockHolds` | src/image/flash-layout.ts:143-147 | An erase block holds its counter's 64 bytes, then the volume header on a sub-page of its own, and the LEB from the first page after both to its end |
| `FlashLayout.OfferedBlocks` | src/image/flash-layout.ts:190-198 | The LEBs offered are the whole erase blocks of the UBI region less four and, on NAND, less the least number that keeps 20 for every 1024 of the whole chip |
| `FlashLayout.ParsedLayoutsQualify` | src/image/flash-layout.ts:169-176 | On every accepted layout a LEB holds a record copy, the fixed volumes fit, and a store reserve keeps, in whole LEBs, the system reserve and one more |
| `FlashLayout.CeilIsLeast` | src/image/flash-layout.ts:200-203 | Rounding up gives the least number of whole units that covers |
| `FlashLayout.LebsCoverBytes` | src/image/flash-layout.ts:234-235 | Whole-LEB rounding covers the raw bytes of every object and of all together |
| `FlashLayout.LebsAreCounted` | src/image/flash-layout.ts:200-235 | What the rule adds up and takes the largest of is, object by object, the fewest LEBs that hold its bytes |
| `FlashLayout.AcceptedExactlyWithStore` | src/image/flash-layout.ts:212-247 | With a store reserve content is accepted if and only if the reserve holds one more deployment and core set, the largest object and the system reserve; volumes, content and reserve leave DATA at least its size; and four fifths of what they leave hold what an update stages (0.8 as 4/5) |
| `FlashLayout.AcceptedExactlyWithoutStore` | src/image/flash-layout.ts:249-252 | Without one if and only if two deployments, the core set, the largest object and the system reserve fit beside the volumes and records |
| `FlashLayout.LayoutAcceptedExactly` | src/image/flash-layout.ts:190-253 | The same of any accepted layout, in terms of its chip, regions, volumes and reserves |
| `FlashLayout.AcceptedWithStore` | src/image/flash-layout.ts:212-247 | With a store reserve: the grown DATA leaves exactly the store LEBs free, a further deployment, core set, object in flight and the system reserve fit in them, and DATA holds what is staged (0.8 as 4/5) |
| `FlashLayout.AcceptedWithoutStore` | src/image/flash-layout.ts:249-252 | Without one: two deployments, the core set, an object in flight and the system reserve fit beside the volumes |
| `FlashLayout.AcceptedHoldsTheBytes` | src/image/flash-layout.ts:212-247 | The same in bytes |
| `FlashLayout.AcceptanceIsDownwardClosed` | src/image/flash-layout.ts:232-253 | What is accepted stays accepted with any objects no larger |
| `FlashLayout.EveryUpdateFits` | src/image/flash-layout.ts:223-231 | If the device collects the fallback before it writes an update, as the comment says: over any number of updates no larger than the factory content there is always room for the next, for an object in flight and for the system reserve |
| `KernelFeatures.CheckTable` | src/boards/kernel-features.ts:39-49 | Accepts exactly the tables with distinct names, core first and bare, and known requirements |
| `KernelFeatures.AddTriggered` | src/boards/kernel-features.ts:95 | Exactly the triggered features, in the order of the table, each with every trigger it met in order as its reasons |
| `KernelFeatures.DirectIsBrought` | src/boards/kernel-features.ts:88-95 | A feature is triggered exactly where one of its triggers, kind and value, is among what the product brings: its init, its storage, each of its features, each of its packages |
| `KernelFeatures.Pass` | src/boards/kernel-features.ts:98 | One pass over the growing map closes it up to its end, and reports growth exactly when it grew |
| `KernelFeatures.NeededKernelFeatures` | src/boards/kernel-features.ts:88-101 | Ends even where requirements form cycles, with exactly the least set that holds the triggered features and is closed under requirements; the triggered come first with their triggers as reasons, every other has one reason, that of a needed feature which requires it |
| `KernelFeatures.ClosureIsUnique` | src/boards/kernel-features.ts:96-99 | There is one such set |
| `KernelFeatures.StorageFeature` | src/boards/kernel-features.ts:58-62 | Found exactly when one row has a storage trigger of the model |
| `KernelFeatures.StorageTriggers` | src/boards/kernel-features.ts:58-62 | A row has a model's storage trigger exactly where it lists the storage trigger of that name |
| `KernelFeatures.BoardKernelFeatures` | src/boards/kernel-features.ts:68-82 | Accepts exactly the lists that are named once, closed under requirements and name the model's storage feature and no other |
| `KernelFeatures.MissingKernelFeatures` | src/boards/kernel-features.ts:104-106 | Exactly the needed features the list does not name, in the order of the map |
| `KernelFeatures.NothingMissing` | src/boards/kernel-features.ts:103-106 | For an accepted list nothing is missing exactly when every directly triggered feature is in it |

## Left out

- DeviceTree.Scan: is stated for structure blocks below 2^32 - 3 bytes, because from there on the loop need not end; so are the members that use it, BootPolicy.BootPolicy among them.
- Newc.Scan: JSON values are told apart by kind and truth value; numbers are reals, so a not-a-number has no model.
- Palette.Quantise: needs a limit of at least one, as main's 224 is; JavaScript's sort is any sort, as no two colours tie.
- Resample.Resample: sizes are positive integers, as a PNG's are; the numbers stay below 2^53 and are exact integers here.
- PngFilter.UnfilterImage: takes the rows as already cut from the inflated data; PNG chunks and inflate are left out.
- Registry.TagsAreComplete: the registry keeps what it stores and answers truly.
- Publisher.Publish: sees one publisher at work; interleavings are the steps of Registry.
- VersionGuard.Guard: takes the board's packages, pool and previous release as read; finding the previous release is left out.
- VersionGuard.VersionsNeverDecrease: assumes the imported vercmp to be a total preorder.
- Upload.Upload: the numbers in a status are natural numbers; a body that is neither empty of data nor a status has no model, nor have waiting times.
- FlashLayout.EveryUpdateFits: that the device collects the fallback before it writes an update is taken from the comments of src/image/flash-layout.ts.
- FlashLayout.CheckRegions: takes parsed rows; the text of flash.tsv, sources of regions and raw blocks are left out.
- KernelFeatures.CheckTable: takes parsed rows; the text of features.tsv and the names' alphabet are left out.
- BootRecords.ParseInto: what the output struct holds after a refusal is not stated.
- BootRecords.WriteSelectsTheNewCopy: is about any writer that writes the copy not selected with the next flag; the loader's writers are not part of this model.
- Archive.WriteArchive: the file system (temporary file, link, fsync, modes) is left out; a file is its bytes, or absent; comparing lower-case digests by locale is comparing them by byte.
- ArchiveReaders.VerifyArchive: reads the file as a sequence; short reads and the 64 KiB copying loop are not modelled.
- Transfer.EncodeIndex: object lengths are integers; a length JavaScript cannot represent exactly has no model.
- Ubifs.PinIsCanonical: is stated for well-formed images; what the rewrite does elsewhere is exactly Ubifs.PinUbifs and no more.
- Signatures, certificates, HTTP, tokens and retries with waiting, and the rest of the release manifest.
- Docker, git, tar, mkfs, ubinize and the other tools driven by the build; stage planning, layout tables, labels and keys.
