# MiraMedia: verified model of archive import, rate limiting, feeds and events

This project models the parts of MiraMedia that parse untrusted input, keep state under concurrency, or
must agree with a much simpler rule, and proves that they do. It holds one Dafny module per component;
`dafny verify dfyconfig.toml` checks all of them.

- **Archive preflight and extraction.** `ZipHeaders` has the packed fields of the ZIP records,
  `OrdinaryZip` one archive byte by byte, `ZipDirectory` the search for the end-of-central-directory
  record, the central-directory walk and the extra-field check (PKWARE APPNOTE.TXT sections 4.3.12,
  4.3.16, 4.5.1 and 4.5.3), `ZipExtraction` and `TarStream` the two extractors (the latter for the "ustar
  Interchange Format" of the pax utility in POSIX.1-2017). They share `Staging` (directory creation,
  exclusive file creation, short and failing writes, the byte budget and the path registry), `EntryNames`
  and `LeastTree`, which says what tree an entry list asks for, independently of any order.
- **Content-addressed publication.** `CanonicalTree` frames a tree into a byte stream, `CanonicalDigest`
  is the walk that feeds the hash, `Publication` the protocol that installs containers among any number of
  publishers that may crash at any step, `PublishOnce` the code of one publisher from end to end, and
  `ImportListing` the policy for what is offered for import. `ImportPipeline` joins the three: it says in
  terms of an archive's entries which files are offered once it was extracted, published into an empty
  directory and listed, and when that listing fails; `ReservedNames` has two archives of which not all is
  offered.
- **Rate limiting.** `RateLimit` has the limiter, `RateLimitRuns` relates it to a naive log of accepted
  requests, `RateLimitEviction` has the order and eviction of its buckets and what a refused caller is
  told, `RateLimitMemory` says exactly what a bucket must hold for the two to agree from some state on, and
  `RateLimitAgreement` exactly which runs lead to such states.
- **Release feeds.** `FeedLease` has the lease and watermark protocol of many pollers, `FeedPoll` the
  handling of one page, `FeedService` one poll from end to end, `FeedBind` the binding of an entry to a
  library row through indexes, and `FeedTitles` exactly when the title index misses a row.
- **File import.** `ImportFile` has publication through a temporary name by concurrent importers that may
  crash, `ImportOneFile` the code of one import from end to end, and `SubtitlePlacement` the choice of
  targets for a batch of subtitles.
- **Events and inventory.** `EventBridge` relays events between processes, `Inventory` keeps a table with
  two unique keys.

Objects that the source updates in place are classes, its loops are loops; each method is proved against a
function or relation on values, and the properties are proved of those. The four protocols (publication,
leases, file import, event relay) are step relations over arbitrary interleavings with an inductive
invariant; publishing and importing are besides modelled as methods whose every execution is shown to be a
run of the relation. Decoders, hashes, clocks, file-system outcomes and the text functions of the title
matcher are parameters, and every statement holds for all of them that meet its hypotheses.

## What the proofs show about the code

Where the code does not do what one would expect of it, there is a lemma with a concrete input, and one
that says exactly when it does.

- The `Retry-After` value of a refusal is the whole seconds left, rounded down but at least one. In
  every state reached with the key's times in order, a retry after exactly that long, with nothing in
  between, is accepted if and only if less than one second was left (`RateLimitEviction.RetryAcceptedIff`);
  `RateLimitEviction.RetryRefused` is a run in which the retry is refused again.
- The limiter reads the clock before taking its lock, so two threads can record the times of one key out
  of order. Then it can refuse what a log of accepted requests would allow
  (`RateLimitRuns.OutOfOrderRefuses`), and it can accept more requests within one window than the limit
  (`RateLimitRuns.OutOfOrderOverAdmits`). A key that is evicted starts afresh, so with 10,001 keys two
  requests at once are accepted under a limit of one (`RateLimitEviction.EvictionOverAdmits`). From any
  state reached with the times of a key in order, evictions or not, all further decisions for the key are
  those of the log if and only if its bucket still holds every accepted request that counts, or is full
  (`RateLimitMemory.AgreesFromIff`). Over all limits, windows and continuations in order they are if and
  only if the key's own times never went back and no eviction made its bucket forget
  (`RateLimitAgreement.AgreesIffRemembered`). With at most 10,000 keys there are no evictions
  (`RateLimitEviction.FewKeysNeverEvicted`), so then the first alone decides
  (`RateLimitAgreement.AgreesIffMonotone`).
- A check reads the head of an empty bucket and fails if and only if the limit is zero or less
  (`RateLimitEviction.BrokenIff`), and then the very first one does (`RateLimitEviction.ZeroLimitBreaks`).
- `publish_staging_tree` hands back an existing container when its layout and marker fit the digest in its
  name; it does not digest that container's payload again (`PublishOnce.HandedExisting`). So a publisher
  can be handed another tree, whatever the digest (`PublishOnce.ForeignTreeReturned`), even if no two trees
  share one (`PublishOnce.FaithfulDigestDoesNotHelp`). Under such a collision-free digest it gets its own
  tree exactly when the name was not taken before by something that holds another one
  (`Publication.ReturnedHoldsOwnTreeIff`).
- A call of `publish_staging_tree` fails and leaves the complete container in the destination all the same
  if and only if everything works but reopening the container just renamed
  (`PublishOnce.ImportDirectory.PublishStagingTree`); `PublishOnce.ReopenFails` is such a call.
- The size-mismatch check at the end of the central-directory walk cannot fail
  (`ZipDirectory.SizeMismatchUnreachable`).
- The writer of the tar extractor issues one write per chunk and ignores how much was written. A stream is
  extracted if and only if it is well formed and no write fails, however short the writes are
  (`TarStream.ParseTarStream`); the files are right if and only if every write took its whole chunk
  (`TarStream.ReceivedWholeIff`). `TarStream.TruncatedStream` extracts a whole stream with success and a
  file cut short. The budget is debited either way.
- A completion marker that is not ASCII makes the listing fail as a whole: the decoding error is not among
  the errors caught. The listing fails if and only if it gets to such a marker
  (`ImportListing.RaisesAtRootIff`); `ImportListing.UnreadableMarkerFails` has a directory in which a video
  is not offered on account of one.
- Entry names are not checked against the names that publication and listing use themselves. So an archive
  can be imported and have a file that is never offered (`ReservedNames.HiddenFile`), or make every later
  listing fail (`ReservedNames.BrokenListing`). `ImportPipeline.ImportArchive` says exactly which files are
  offered and when the listing fails, for every archive; with no such name among its directories all are
  offered (`ImportPipeline.PlainArchive`).
- In `_filter_by_maxage` the watermark has no influence and the branch for late GUIDs is never taken; in
  `_advance_watermark` the page count has none (`FeedPoll.FilterByMaxAge`, `FeedPoll.WatermarkIsLeastBound`).
- The title index can miss a row that a scan would bind (`FeedTitles.PrefixTestCanMiss`). Some row can be
  missed if and only if the words of the title, years in parentheses included, have its only year right
  after words that are not how the title starts without such years, and the title ends there or goes on
  with a release marker (`FeedTitles.IndexMissesIff`). A year in parentheses after the name, as in
  "Name (2024) S01E01", does no harm (`FeedTitles.UsualYearIsHarmless`).
- An import skips a target that has the size of the source, whatever its content
  (`ImportOneFile.SameSizeSkipped`); `ImportOneFile.FileSystem.Import` says exactly when it skips.
- When replacing a target fails after the temporary name was made a hard link, that name stays behind
  (`ImportOneFile.HardLinkStays`). For every outcome `ImportOneFile.FileSystem.Import` says exactly when it
  stays.
- The numbering of subtitles ends for the two target functions in use
  (`SubtitlePlacement.ImportersCanPlace`); with a constant one a second subtitle would be numbered for ever
  (`SubtitlePlacement.ConstantTargetStuck`).

## Model

| member | source | states |
|---|---|---|
| `Binary.LittleEndianRoundTrip` | miramedia/imports/archive_parsers.py:227-231 | reading a little-endian field gives back the value written, for every width |
| `Binary.LittleEndianSurjective` | miramedia/imports/archive_parsers.py:227-231 | every byte string is the encoding of the value read from it |
| `Binary.BigEndianRoundTrip` | miramedia/imports/archive_publication.py:33-34 | the same for the big-endian lengths of the framing |
| `ZipHeaders.UnpackPacked` | miramedia/imports/archive_parsers.py:33-37 | unpacking little-endian fields of any widths gives back the values packed |
| `ZipHeaders.PackUnpacked` | miramedia/imports/archive_parsers.py:33-37 | every byte string of the right length is what the values read from it are packed into |
| `ZipHeaders.HeaderRoundTrip` | miramedia/imports/archive_parsers.py:36 | reading a written directory header gives back all 17 fields |
| `ZipHeaders.HeaderSurjective` | miramedia/imports/archive_parsers.py:36 | any 46 bytes are the writing of the fields read from them |
| `ZipHeaders.EndRoundTrip` | miramedia/imports/archive_parsers.py:33 | the same for the eight fields of an end record |
| `ZipHeaders.EndSurjective` | miramedia/imports/archive_parsers.py:33 | and for any 22 bytes |
| `ZipDirectory.RejectZip64ExtraField` | miramedia/imports/archive_parsers.py:227-240 | the offset loop gives the verdict of the scan that the next four lemmas characterise |
| `ZipDirectory.ExtraDecomposition` | miramedia/imports/archive_parsers.py:227-240 | every extra field is a run of plain records followed by a tail at which a parser must stop |
| `ZipDirectory.ExtraDecompositionUnique` | miramedia/imports/archive_parsers.py:227-240 | that decomposition is unique |
| `ZipDirectory.ExtraVerdictIsExact` | miramedia/imports/archive_parsers.py:227-240 | the verdict, accepting or any of the three errors, is the one the tail calls for |
| `ZipDirectory.ExtraAcceptedIff` | miramedia/imports/archive_parsers.py:227-240 | a byte string is accepted if and only if it is exactly a concatenation of (id, length, data) records none of which has id 1 |
| `ZipDirectory.ParseCentralDirectory` | miramedia/imports/archive_parsers.py:143-214 | the file-cursor walk, which ends because each record takes at least 46 bytes, gives the result of the scan characterised below, error cases included |
| `ZipDirectory.ReadBodyAt` | miramedia/imports/archive_parsers.py:189-208 | the variable parts are read where the three lengths put them, and rejected in the source's order |
| `ZipDirectory.EncodedRecordIsRead` | miramedia/imports/archive_parsers.py:153-210 | a well-formed record is consumed exactly, leaving what follows it |
| `ZipDirectory.ReadRecordIsEncoded` | miramedia/imports/archive_parsers.py:153-210 | whatever is consumed without error is the encoding of a well-formed record |
| `ZipDirectory.EncodedRecordsAreScanned` | miramedia/imports/archive_parsers.py:143-214 | parsing the serialisation of any record list gives its length, or the entry-count error above 10,000 |
| `ZipDirectory.ScannedRegionIsEncoded` | miramedia/imports/archive_parsers.py:143-214 | an accepted region is the serialisation of as many records as were counted |
| `ZipDirectory.DirectoryAcceptedIff` | miramedia/imports/archive_parsers.py:143-214 | a region is accepted with count n if and only if it is exactly a concatenation of n records, each a header written from its 17 fields and the name, extra field and comment whose lengths it states, n at most 10,000 |
| `ZipDirectory.DirectoryPastEndRefused` | miramedia/imports/archive_parsers.py:152-214 | a directory said to reach past the end of the file is refused |
| `ZipDirectory.SizeMismatchUnreachable` | miramedia/imports/archive_parsers.py:211-213 | the final size check never fails |
| `ZipDirectory.LocateEndRecord` | miramedia/imports/archive_parsers.py:121-140 | the search over the last 65,557 bytes finds the largest offset in the whole file at which an end record ends exactly at end of file, and none only if there is none |
| `ZipDirectory.PreflightZipArchive` | miramedia/imports/archive_parsers.py:56-118 | preflight returns (count, offset, size) if and only if the file is prefix, directory, an end record written from these values and comment, no later end record in the comment, no zip64 locator in the last 65,557 bytes, and all bounds kept |
| `ZipDirectory.LocatorInReachIff` | miramedia/imports/archive_parsers.py:62-67 | the locator is found if and only if it is in the last 65,557 bytes |
| `OrdinaryZip.PreflightOrdinary` | miramedia/imports/archive_parsers.py:56-118 | given the 108 bytes of an archive with one entry "a.txt", preflight counts one entry and finds its directory at 35, of 51 bytes |
| `ZipDirectory.ArchiveIsLocated` | miramedia/imports/archive_parsers.py:56-118 | of such a file the search finds the end record it was written with |
| `ZipDirectory.LocatedIsArchive` | miramedia/imports/archive_parsers.py:56-118 | a file that passes all checks has that form |
| `EntryNames.StrippedParts` | miramedia/imports/archive_extraction.py:506-509 | a trailing slash changes no path component |
| `EntryNames.DistinctKeysDistinctPaths` | miramedia/imports/archive_extraction.py:111-121 | names with different logical keys ask for different paths |
| `EntryNames.PartsBySlash` | miramedia/imports/archive_extraction.py:506-509 | a slash puts the components of two names one after the other; a name without one is one component, or none if empty or a dot |
| `EntryNames.KeysEqualIff` | miramedia/imports/archive_extraction.py:506-509 | two names have the same key if and only if they have equally many components, pairwise equal when folded |
| `EntryNames.KeyTakenIff` | miramedia/imports/archive_extraction.py:111-121 | a name is a duplicate if and only if an earlier one asks for the same path but for folding |
| `EntryNames.NamesAcceptedIff` | miramedia/imports/archive_extraction.py:111-121 | a list is accepted if and only if all names are valid and no two have the same path but for folding |
| `EntryNames.DistinctPathsAccepted` | miramedia/imports/archive_extraction.py:111-121 | if folding tells the components apart, exactly the lists of valid names with different paths are accepted |
| `EntryNames.ForbiddenIff` | miramedia/imports/archive_extraction.py:533-538 | the percent sequences refused are those of a slash, a backslash, two dots and NUL, in capitals or not |
| `EntryNames.ValidIff` | miramedia/imports/archive_extraction.py:512-554 | a name is valid if and only if it is relative, has no forbidden character or sequence, and no component is "..", reserved, or ends in a space or a dot |
| `EntryNames.ValidComponents` | miramedia/imports/archive_extraction.py:512-554 | so no component of a valid name leads out of the directory |
| `EntryNames.AncestorNamesValid` | miramedia/imports/archive_extraction.py:512-554 | every ancestor of a valid entry name is itself a valid name, so creating it cannot fail validation |
| `EntryNames.NamesStep` | miramedia/imports/archive_extraction.py:111-121 | a list of names is accepted if and only if each is valid and no two share a key, one name at a time |
| `EntryNames.EarlierPathsDiffer` | miramedia/imports/archive_extraction.py:111-121 | in an accepted list no path comes twice |
| `Staging.Budget.Consume` | miramedia/imports/archive_extraction.py:91-108 | the total grows even when the limit is then exceeded, and success means it is not |
| `Staging.Registry.Register` | miramedia/imports/archive_extraction.py:111-121 | a name is taken up if and only if it is valid and its key, which the rows above characterise, is new |
| `Staging.StagingDirectory.MkdirParts` | miramedia/imports/archive_staging_io.py:227-262 | all ancestors come to exist unless a file is in the way, and then nothing changes |
| `Staging.StagingDirectory.OpenEntryForWrite` | miramedia/imports/archive_staging_io.py:85-117 | an empty file is created if and only if its parent exists and the name is free |
| `Staging.StagingDirectory.WriteAll` | miramedia/imports/archive_staging_io.py:120-139 | under any pattern of short writes all bytes arrive in order; on an error a prefix did |
| `Staging.WritesSucceedIff` | miramedia/imports/archive_staging_io.py:120-139 | interrupted and short writes do no harm, a failed one and one that takes nothing do |
| `Staging.StagingDirectory.CopyStreamBounded` | miramedia/imports/archive_extraction.py:492-503 | for any chunking of the source and any writes, the bytes written are a prefix of the source, never exceed what was debited nor the limit, and are all of it on success, which happens if and only if the rest fits the budget when writes succeed |
| `Staging.StagingDirectory.MkdirEntry` | miramedia/imports/archive_staging_io.py:69-82 | a directory entry adds exactly the directories missing on its path |
| `Staging.StagingDirectory.WriteEntryStream` | miramedia/imports/archive_staging_io.py:142-155 | the entry's file holds what was copied, its ancestors exist, no other file changes, and it succeeds exactly when the name is valid, the place is free and the content fits |
| `Staging.CreatedIsWellFormed` | miramedia/imports/archive_staging_io.py:142-155 | the tree stays closed under parents, and the bytes in it grow by the content |
| `LeastTree.LeastTreeUnique` | miramedia/imports/archive_parsers.py:257-267 | the least tree with given entries depends only on the set of entries, not their order |
| `LeastTree.BlockedIff` | miramedia/imports/archive_staging_io.py:227-262 | a path is blocked exactly when a listed file is its ancestor or itself |
| `LeastTree.TakenIff` | miramedia/imports/archive_staging_io.py:85-117 | a name is taken exactly when an entry is at it or below it |
| `LeastTree.PlaceItem` | miramedia/imports/archive_parsers.py:257-267 | placing an entry that fits takes the least tree of a list to that of the longer list |
| `LeastTree.FitsIff` | miramedia/imports/archive_parsers.py:257-267 | an entry fits exactly when it conflicts with no earlier one: no file is a proper ancestor of another entry, either way round |
| `LeastTree.ConflictFreeStep` | miramedia/imports/archive_parsers.py:257-267 | conflict freedom of the whole list is that of every entry with those before it |
| `ZipExtraction.ValidateZipEntries` | miramedia/imports/archive_parsers.py:281-297 | validation passes if and only if the entry count, all names, all declared sizes and the absence of symlinks are in order |
| `ZipExtraction.EntryKindIff` | miramedia/imports/archive_parsers.py:257-267 | an entry is a directory if and only if its name ends in a slash, and its path is that of the name without it |
| `ZipExtraction.ExtractEntry` | miramedia/imports/archive_parsers.py:257-267 | one entry is placed and paid for, or extraction fails, exactly when it does not fit the tree or the budget |
| `ZipExtraction.ExtractZipArchive` | miramedia/imports/archive_parsers.py:243-278 | in every run the bytes in staging stay within the limit; a successful one leaves exactly the least tree of the entries and a budget equal to its bytes; when writes succeed it succeeds if and only if the entry list is acceptable, in whatever order, and no member's stream raises |
| `TarStream.RoundsUp` | miramedia/imports/archive_parsers.py:409-421 | payload and padding together are the least multiple of 512 not below the size |
| `TarStream.PaddedToBlock` | miramedia/imports/archive_parsers.py:370-375 | a well-formed file record is as long as its size says and padded by fewer than 512 bytes to a multiple of 512 |
| `TarStream.PaddedIsTaken` | miramedia/imports/archive_parsers.py:394-421 | the bytes debited for a list of records are the sizes of its files, each rounded up to 512 |
| `TarStream.TakenOffIff` | miramedia/imports/archive_parsers.py:343-375 | a member is taken off if and only if the flag at offset 156 is '0', NUL or '5', the header decodes to a file or an empty directory, and the stream has its size rounded up to 512 |
| `TarStream.ArchiveDecodes` | miramedia/imports/archive_parsers.py:335-375 | walking the blocks written for a list of records gives back the list |
| `TarStream.DecodedIsArchive` | miramedia/imports/archive_parsers.py:335-375 | what is walked without error was written for such a list |
| `TarStream.DecodeIff` | miramedia/imports/archive_parsers.py:335-375 | the two together: the walk is the exact inverse of writing |
| `TarStream.AcceptableIff` | miramedia/imports/archive_parsers.py:335-375 | acceptance record by record is acceptance of the list: names distinct, parents before children, no file above another entry, padded sizes within the limit, at most 10,000 entries |
| `TarStream.TarInput.ReadExact` | miramedia/imports/archive_parsers.py:386-391 | either exactly the bytes asked for are read, or the stream was too short |
| `TarStream.CopyTarPayload` | miramedia/imports/archive_parsers.py:394-406 | the budget is debited chunk by chunk before each write; what the file gets is, chunk by chunk, what each single write took, and the copy succeeds exactly when the payload is there and no write fails |
| `TarStream.DeliveredWholeIff` | miramedia/imports/archive_parsers.py:394-406 | if no write fails, the file holds the payload, and is as long as it, if and only if every write took its whole chunk |
| `TarStream.ReceivedWholeIff` | miramedia/imports/archive_parsers.py:335-406 | the same over all records of a stream, which share one sequence of writes |
| `TarStream.ExtractSample` | miramedia/imports/archive_parsers.py:335-406 | a concrete stream of one file, under any writes: it is extracted unless a write fails, and the file is what arrived |
| `TarStream.TruncatedStream` | miramedia/imports/archive_parsers.py:394-406 | with one short write it is extracted with success, and the file has one byte of three |
| `TarStream.ExtractFile` | miramedia/imports/archive_parsers.py:370-375 | a file entry advances the stream and the budget by its size rounded up to 512 and leaves in its file what arrived; it succeeds exactly when its parent exists, the name is free, that sum fits, the stream is long enough and no write fails |
| `TarStream.AdmitMember` | miramedia/imports/archive_parsers.py:346-369 | a header is admitted only with an approved type, a decodable body, a new valid name and room in the entry count, and every header of an extractable stream is |
| `TarStream.ExtractMember` | miramedia/imports/archive_parsers.py:361-375 | one member is extracted exactly when its kind, the tree, the budget, the stream and the writes allow it, and the tree gains just it |
| `TarStream.RecordStep` | miramedia/imports/archive_parsers.py:342-375 | what the tree allows next is what may follow in an acceptable list, whatever arrived in the files, and leads to the least tree of the longer list |
| `TarStream.ParseTarStream` | miramedia/imports/archive_parsers.py:335-375 | the walk ends and keeps the bytes in staging within limit and budget in every run; it succeeds if and only if the stream is the writing of an acceptable list and no write fails, and leaves exactly the tree of that list, each file with what arrived of it, and a budget equal to the sum of the sizes rounded up to 512 |
| `Paths.SplitJoin` | miramedia/imports/archive_publication.py:835-859 | splitting a joined path gives back its components |
| `Paths.JoinInjective` | miramedia/imports/archive_publication.py:835-859 | joining slash-free components is injective |
| `Ordering.SortMembers` | miramedia/imports/archive_publication.py:844-859 | sorting keeps every entry as often as it came |
| `Ordering.SortSorted` | miramedia/imports/archive_publication.py:844-859 | and puts them in order |
| `Ordering.StrictlySortedUnique` | miramedia/imports/archive_publication.py:844-859 | a sorted list without repetition is determined by its members, so the order of enumeration is lost |
| `Ordering.LessIff` | miramedia/imports/archive_publication.py:844-859 | the order is that of the dictionary: at the first difference the smaller character, or the end, comes first |
| `CanonicalTree.TakeEncoded` | miramedia/imports/archive_publication.py:92-113 | a decoder takes exactly one frame off the front of a stream |
| `CanonicalTree.FramesLookLike` | miramedia/imports/archive_publication.py:92-113 | the bytes of a directory's and of a file's frame, one by one |
| `CanonicalTree.DecodeEncode` | miramedia/imports/archive_publication.py:92-113 | decoding a framed entry list gives it back |
| `CanonicalTree.StreamUnique` | miramedia/imports/archive_publication.py:92-113 | trees with the same paths, kinds and contents give the same stream, however they were enumerated |
| `CanonicalTree.StreamInjective` | miramedia/imports/archive_publication.py:92-113 | trees that give the same stream have the same paths, kinds and contents |
| `CanonicalDigest.CollectDirs` | miramedia/imports/archive_publication.py:835-859 | the directories of a listing become entries unless one is no directory |
| `CanonicalDigest.CollectFiles` | miramedia/imports/archive_publication.py:835-859 | the files become entries unless one is not a regular file with a single link |
| `CanonicalDigest.CollectCanonicalEntries` | miramedia/imports/archive_publication.py:835-859 | for every top-down walk, in any order, the entries collected are exactly those of the tree, sorted by path; it fails exactly when some entry is not allowed |
| `CanonicalDigest.HashRegularFile` | miramedia/imports/archive_publication.py:1005-1036 | under any short reads the digest is fed exactly the content, and a file of another size than announced is refused |
| `CanonicalDigest.FeedContent` | miramedia/imports/archive_publication.py:101-112 | a file feeds its announced length and then its content, or is refused |
| `CanonicalDigest.FeedEntry` | miramedia/imports/archive_publication.py:95-112 | one entry feeds exactly its frame, unless its path does not encode or a length does not fit its field |
| `CanonicalDigest.CanonicalTreeDigest` | miramedia/imports/archive_publication.py:92-113 | the digest is fed the canonical stream of the tree, and only trees that have one are digested |
| `Publication.ContainerNameInjective` | miramedia/imports/archive_publication.py:116-117 | different digests have different container names |
| `Publication.StepFrames` | miramedia/imports/archive_publication.py:217-334 | every step of a publisher, a crash included, touches only its own directory and leaves it as its phase requires |
| `Publication.NextKeeps` | miramedia/imports/archive_publication.py:217-334 | every step of any publisher keeps the invariant and every container already visible |
| `Publication.VisibleComplete` | miramedia/imports/archive_publication.py:217-334 | at every moment of every run, each container in the destination that was not there before the run has, for some digest d, the name of d, a payload, a marker named d that reads d, and d as the canonical digest of its payload |
| `Publication.NeverReplaced` | miramedia/imports/archive_publication.py:286-293 | once visible, a container is never replaced, removed or changed |
| `Publication.ReturnedIsVisible` | miramedia/imports/archive_publication.py:276-320 | a path returned is that of the publisher's own digest, and a container with a payload and a marker of that digest is visible there |
| `Publication.EqualTreesSamePath` | miramedia/imports/archive_publication.py:217-334 | publishers whose trees have the same paths, kinds and contents return the same path |
| `Publication.SameTreeSameDigest` | miramedia/imports/archive_publication.py:92-113 | trees with the same paths, kinds and contents have the same digest, whatever the hash |
| `Publication.OneInstaller` | miramedia/imports/archive_publication.py:286-293 | no two of them have installed a container |
| `Publication.ExactlyOneInstaller` | miramedia/imports/archive_publication.py:217-334 | whenever one of them has returned, exactly one publisher has, unless the name was taken before the run |
| `Publication.ReturnedHoldsOwnTree` | miramedia/imports/archive_publication.py:276-320 | with a collision-free digest the container returned holds the publisher's tree, whoever installed it, unless the name was taken before the run |
| `Publication.ReturnedHoldsOwnTreeIff` | miramedia/imports/archive_publication.py:276-304 | with a collision-free digest, and whether or not the name was taken, the container returned holds the publisher's tree if and only if the name was free before the run or what was there already held that tree |
| `Publication.ForeignKept` | miramedia/imports/archive_publication.py:276-304 | containers found in the destination are left as they were |
| `Publication.CollisionFreeIsFaithful` | miramedia/imports/archive_publication.py:92-113 | a collision-free hash of the canonical stream tells any two different trees apart |
| `PublishOnce.ImportDirectory.Fill` | miramedia/imports/archive_publication.py:250-274 | the private container gets payload and marker of its digest exactly when every call of this part works |
| `PublishOnce.ImportDirectory.WriteMarkerFile` | miramedia/imports/archive_publication.py:433-448 | the marker holds the digest, or the write was short and that is an error |
| `PublishOnce.ImportDirectory.Install` | miramedia/imports/archive_publication.py:276-320 | an existing container decides the result; else the renamed one appears in the destination, also if reopening it then fails and an error is reported; nothing else changes there |
| `PublishOnce.ImportDirectory.CleanUp` | miramedia/imports/archive_publication.py:321-334 | only the publisher's own directory is moved away and emptied |
| `PublishOnce.ImportDirectory.PublishStagingTree` | miramedia/imports/archive_publication.py:217-334 | the result is determined by what was there and which calls work; the destination gains nothing, or one container with the staged tree and its marker; a call fails that adds one if and only if all works but the reopening; no other container changes |
| `PublishOnce.FoundDecides` | miramedia/imports/archive_publication.py:276-284 | if the name was taken, its container is handed back if and only if it has a payload and a marker that reads the digest; else the call fails |
| `PublishOnce.TraceIsRun` | miramedia/imports/archive_publication.py:217-334 | each execution of that code is a run of the protocol |
| `PublishOnce.HandedExisting` | miramedia/imports/archive_publication.py:276-304 | whatever container of valid layout has the name, the publisher can be handed it, and it stays as it was |
| `PublishOnce.ForeignTreeReturned` | miramedia/imports/archive_publication.py:276-304 | whatever the digest and the two trees, a run in which a publisher of the one is handed a container that holds the other |
| `PublishOnce.FaithfulDigestDoesNotHelp` | miramedia/imports/archive_publication.py:276-304 | with a collision-free digest too, the tree handed back can be another one |
| `PublishOnce.ReopenFails` | miramedia/imports/archive_publication.py:286-334 | a call that fails after its container of the staged tree came to stay in the destination |
| `ImportListing.NamedLikeContainerIff` | miramedia/imports/archive_publication.py:124-134 | a name is a container's if and only if it is ".mm-archive-" and 64 characters that read as hexadecimal |
| `ImportListing.DebrisIff` | miramedia/imports/archive_publication.py:137-144 | debris is what starts like a private build, a quarantine or an extraction directory |
| `ImportListing.MarkerStatusIff` | miramedia/imports/archive_publication.py:147-157 | a marker is valid if and only if it is ASCII and the digest, itself without blanks at its ends, with only blanks around it, and unreadable if and only if it is not ASCII |
| `ImportListing.CompleteIff` | miramedia/imports/archive_publication.py:147-157 | a container is complete if and only if it has a regular file of its own digest's marker name with such a text |
| `ImportListing.SortedPathsUnique` | miramedia/imports/archive_publication.py:184-190 | a listing in path order is determined by which files it has |
| `ImportListing.SortedPathsDistinct` | miramedia/imports/archive_publication.py:184-190 | and has no file twice |
| `ImportListing.CompleteContainers` | miramedia/imports/archive_publication.py:147-171 | the complete containers at the root are found and put in name order, whatever the order of enumeration |
| `ImportListing.CollectImportableFiles` | miramedia/imports/archive_publication.py:184-214 | the files to be listed below a directory are appended, all of them, in path order, unless a marker cannot be read |
| `ImportListing.CollectContainer` | miramedia/imports/archive_publication.py:195-206 | a container contributes what its payload does if it is complete, and nothing otherwise |
| `ImportListing.ListImportableFiles` | miramedia/imports/archive_publication.py:160-181 | the listing has exactly the files the policy lists, each once, in order; it fails exactly when an unreadable marker is met; a file below a root container is listed only if that has its marker with a valid text, and any root container that has one hides the files outside containers |
| `ImportListing.ListedNeedsMarker` | miramedia/imports/archive_publication.py:160-181 | what is listed below a root container is below one that has its marker |
| `ImportListing.UnreadableMarkerFails` | miramedia/imports/archive_publication.py:119-144 | a directory with a video whose listing fails on a marker that is not ASCII, and lists the video without it |
| `ImportListing.ListedIffEntered` | miramedia/imports/archive_publication.py:184-214 | a file is listed if and only if no ancestor is debris and every ancestor named like a container is complete and entered through its payload |
| `ImportListing.ListedAtRootIff` | miramedia/imports/archive_publication.py:160-181 | at the root the same, and if the root holds complete containers only what lies in containers counts |
| `ImportListing.RaisesIffUnreadable` | miramedia/imports/archive_publication.py:147-214 | listing a directory fails if and only if some container below has a marker that is not ASCII and all directories on the way to it may be entered |
| `ImportListing.RaisesAtRootIff` | miramedia/imports/archive_publication.py:160-181 | at the root the same, and if the root holds complete containers only those in containers count |
| `ImportPipeline.FileInNode` | miramedia/imports/archive_publication.py:184-190 | walking down the directories finds a file exactly where the published tree has one |
| `ImportPipeline.PublishedIsOffered` | miramedia/imports/archive_publication.py:147-214 | of a container alone in its directory exactly the files of its tree are listed that the policy lets one reach |
| `ImportPipeline.PublishedFailsIff` | miramedia/imports/archive_publication.py:147-214 | and the listing fails exactly if listing its payload does |
| `ImportPipeline.PlainIsOffered` | miramedia/imports/archive_publication.py:147-214 | all files of the tree are listed if none of its directories has a name reserved for containers or debris |
| `ImportPipeline.ImportArchive` | miramedia/imports/archive_extraction.py:150-201 | a ZIP archive extracted and published into an empty destination, which is then listed: exactly the acceptable archives are published if writes and calls work and the tree can be hashed; the listing fails exactly if the archive has a container-named directory, not hidden by others, with a marker that is not ASCII; else it offers exactly the files of the archive that are not below a debris-named directory or outside the payload of a complete container, each once |
| `ImportPipeline.ImportTarStream` | miramedia/imports/archive_extraction.py:150-201 | the same for tar streams, under any writes, short ones included |
| `ImportPipeline.PlainArchive` | miramedia/imports/archive_publication.py:184-214 | if no directory of an archive has a reserved name, all its files are offered and the listing does not fail |
| `ReservedNames.HiddenFile` | miramedia/imports/archive_publication.py:137-144 | an archive with one video is imported, and the listing succeeds and offers nothing |
| `ReservedNames.BrokenListing` | miramedia/imports/archive_publication.py:147-157 | an archive is imported after which the listing fails |
| `RateLimit.SlidingWindowLimiter.BucketAtLimit` | miramedia/rate_limit.py:85-88 | a bucket is at its limit by its requests within the window, expired ones not removed yet |
| `RateLimit.SlidingWindowLimiter.PickVictim` | miramedia/rate_limit.py:90-102 | the victim is the first bucket below its limit, else the first of all |
| `RateLimit.SlidingWindowLimiter.EvictIfNeeded` | miramedia/rate_limit.py:90-102 | eviction goes on until there is room, and ends |
| `RateLimit.SlidingWindowLimiter.CheckKey` | miramedia/rate_limit.py:58-83 | one check changes the buckets and answers as the model of the limiter does, with every outcome of the source |
| `RateLimit.EvictConsistent` | miramedia/rate_limit.py:90-102 | eviction leaves fewer than 10,000 buckets and the contents of those that stay |
| `RateLimitRuns.StateAfter` | miramedia/rate_limit.py:58-83 | in every reachable state there are at most 10,000 buckets, and order and buckets name the same keys, each once |
| `RateLimitRuns.RunTracks` | miramedia/rate_limit.py:58-83 | after any run in which the key's own times never went back, its bucket is a suffix of the log of its accepted times, and if it was never evicted the bucket holds all that still count |
| `RateLimitRuns.AgreesWithNaive` | miramedia/rate_limit.py:58-83 | for a key never evicted whose own times never went back, every decision is that of a limiter that keeps all accepted times |
| `RateLimitRuns.RefusalJustified` | miramedia/rate_limit.py:73-81 | if the key's times never went back, a refusal is justified by its log of accepted requests, evictions or not |
| `RateLimitRuns.NaiveLogSpaced` | miramedia/rate_limit.py:58-83 | in the naive log, entries one limit apart are more than a window apart |
| `RateLimitRuns.WindowBound` | miramedia/rate_limit.py:58-83 | for such a key, any closed interval as long as the window has at most the limit of accepted requests |
| `RateLimitRuns.OutOfOrderRefuses` | miramedia/rate_limit.py:60-81 | three requests out of order, the last of which the limiter refuses and the log allows |
| `RateLimitRuns.OutOfOrderOverAdmits` | miramedia/rate_limit.py:60-83 | four requests out of order, of which three are accepted within one window at a limit of two |
| `RateLimitAgreement.RunIsTimes` | miramedia/rate_limit.py:58-83 | as long as no more than 10,000 keys were seen, the bucket, the log and the decisions for a key depend on the times of that key only |
| `RateLimitAgreement.Disagreement` | miramedia/rate_limit.py:60-83 | whenever the key's times went back once, evictions or not, there are a limit, a window and further requests in order on which limiter and log decide differently |
| `RateLimitAgreement.AgreesIffRemembered` | miramedia/rate_limit.py:58-102 | for any number of keys: the key's times never went back and under every limit and window its bucket holds what counts or is full, if and only if for all of them and every continuation in order each further decision is that of the log |
| `RateLimitAgreement.AgreesIffMonotone` | miramedia/rate_limit.py:58-83 | with at most 10,000 keys: the key's times never went back if and only if, for every limit, window and continuation in order, each decision for the key is that of the naive log |
| `RateLimitEviction.OrderIsLastCheck` | miramedia/rate_limit.py:63-69 | the buckets are in order of last check, in every reachable state |
| `RateLimitEviction.BucketsSorted` | miramedia/rate_limit.py:71-83 | in every state reached with the key's times never going back, its bucket is sorted |
| `RateLimitEviction.BucketsWithinLimit` | miramedia/rate_limit.py:73-83 | in every reachable state no bucket is longer than the limit |
| `RateLimitEviction.EvictionPolicy` | miramedia/rate_limit.py:90-102 | the bucket evicted is the least recently checked one below its limit; one at its limit goes only if all are |
| `RateLimitEviction.FewKeysNeverEvicted` | miramedia/rate_limit.py:90-102 | in a run with at most 10,000 different keys no key is ever evicted |
| `RateLimitEviction.ForgottenIsAccepted` | miramedia/rate_limit.py:62-83 | a key without a bucket is accepted, whatever was accepted for it before |
| `RateLimitMemory.RememberedAgrees` | miramedia/rate_limit.py:71-83 | a bucket that holds what counts or is full decides like the log, and stays so, over any requests for the key in order |
| `RateLimitMemory.ForgottenShows` | miramedia/rate_limit.py:71-102 | for any other bucket there are requests in order on which limiter and log decide differently |
| `RateLimitMemory.AgreesFromIff` | miramedia/rate_limit.py:58-102 | after any run with the key's times in order, evictions or not: its bucket holds what counts or is full if and only if every further decision in order is that of the log |
| `RateLimitEviction.EvictionOverAdmits` | miramedia/rate_limit.py:90-102 | a run of 10,002 requests for 10,001 keys, all at one time, in which two for the same key are accepted at a limit of one, its bucket having forgotten the first |
| `RateLimitEviction.BrokenIff` | miramedia/rate_limit.py:73-76 | a check fails on an empty bucket if and only if the limit is zero or less |
| `RateLimitEviction.ZeroLimitBreaks` | miramedia/rate_limit.py:73-76 | the first request under a limit of zero does |
| `RateLimitEviction.RefusedDelay` | miramedia/rate_limit.py:75-76 | the delay told is the whole seconds until the oldest counted request expires, at least one |
| `RateLimitEviction.RetryAcceptedIff` | miramedia/rate_limit.py:75-81 | after any run in which the key's times never went back, a refused request retried after exactly the told delay is accepted if and only if less than one second was left |
| `RateLimitEviction.RetryRefused` | miramedia/rate_limit.py:75-81 | a run in which the retry, after exactly the told delay, is refused again |
| `FeedPoll.WatermarkIsLeastBound` | miramedia/feeds/service.py:361-375 | the new watermark is the least one not before the old one and all dates, whatever the page count |
| `FeedPoll.WatermarkCoversPage` | miramedia/feeds/service.py:297-301 | no entry of the page is later than it, and it is the old one or some entry's date |
| `FeedPoll.FilterByMaxAge` | miramedia/feeds/service.py:333-358 | the entries kept are those without a date or within retention, in order, whatever the watermark |
| `FeedPoll.RetainedMembers` | miramedia/feeds/service.py:333-358 | each such entry is kept as often as it came, and no other |
| `FeedPoll.ProcessPage` | miramedia/feeds/service.py:224-282 | the loop with its set of seen identities finds the entries whose identity is neither stored nor earlier on the page, all dates, and the last GUID |
| `FeedPoll.PendingIsExact` | miramedia/feeds/service.py:224-282 | the entries to store have each identity of the page that is not stored yet exactly once |
| `FeedPoll.SameIdentityIff` | miramedia/feeds/repository.py:49-57 | two entries are the same by GUID if both have one, by info hash if neither has a GUID and both have a hash, by URL if neither has either, and not otherwise |
| `FeedPoll.LastGuidIff` | miramedia/feeds/service.py:224-282 | the GUID kept is that of the last entry that has one |
| `FeedPoll.ObservePage` | miramedia/feeds/service.py:168-307 | a whole page, filter included: the identities of the retained entries that are not stored yet are stored once each, and the watermark becomes the latest of the old one and their dates |
| `FeedPoll.DatesMembers` | miramedia/feeds/service.py:230-234 | every date on the page counts, duplicates included |
| `FeedLease.FeedRepository.ClaimSource` | miramedia/feeds/repository.py:144-180 | a source is claimed if and only if one is enabled, unlocked and without a current lease; it is one that has gone longest without success, and the snapshot is of its row |
| `FeedLease.FeedRepository.RenewLease` | miramedia/feeds/repository.py:182-195 | the lease is extended for its owner only |
| `FeedLease.FeedRepository.ReleaseLease` | miramedia/feeds/repository.py:197-209 | the lease is given up by its owner only |
| `FeedLease.FeedRepository.RecordPollSuccess` | miramedia/feeds/repository.py:211-239 | watermark, GUID and success are written for the owner only, and the lease ends |
| `FeedLease.FeedRepository.RecordPollHold` | miramedia/feeds/repository.py:241-268 | the reason, cut to 500 characters, is written for the owner only, and the lease ends |
| `FeedLease.NextKeepsInv` | miramedia/feeds/service.py:103-315 | every step of every poller keeps: who polls owns its row exactly while no one claimed it since, and then its snapshot and lease time are the stored ones |
| `FeedLease.SuccessCountsIff` | miramedia/feeds/service.py:297-307 | a success takes effect exactly for the latest claimer, and then the watermark is advanced from the stored one, not a stale one |
| `FeedLease.WatermarkNeverBack` | miramedia/feeds/service.py:103-315 | over all interleavings, expiries and takeovers the stored watermark of a source never moves back |
| `FeedLease.LatestIsLastClaim` | miramedia/feeds/repository.py:144-180 | the latest claimer is the one of the last claim step of the run |
| `FeedLease.WrittenByLatestClaimer` | miramedia/feeds/repository.py:211-239 | whoever changes a watermark or its GUID made the last claim of that source |
| `FeedLease.OvertakenForGood` | miramedia/feeds/service.py:155-166 | once another claim of its source was made, a poller changes no row any more |
| `FeedLease.TakeoverWaits` | miramedia/feeds/repository.py:144-156 | a source under lease is not claimed before the lease has run out on the database clock |
| `FeedService.PollOnce` | miramedia/feeds/service.py:103-315 | a poll without interference changes one row and frees it; a failed fetch keeps the watermark and is counted, a page moves it to the latest date retained or leaves it, and what is stored is exactly what is new |
| `FeedBind.PoolIff` | miramedia/feeds/bind.py:57-66 | the rows considered are those not skipped whose own setting, or else the global one, is on |
| `FeedBind.SameImdbIff` | miramedia/feeds/bind.py:69-72 | two IMDb ids count as equal if and only if they are, or one is the other with "tt" in front |
| `FeedBind.ImdbMatchIff` | miramedia/feeds/bind.py:134-138 | a row answers to an IMDb id by its own or by an external id equal to the normalised one |
| `FeedBind.ProviderMatchIff` | miramedia/feeds/bind.py:139-158 | a row answers to another provider's id by its external id, if that is its provider |
| `FeedBind.AppendEntry` | miramedia/feeds/bind.py:75-79 | a row is added to the buckets of its keys and to no others |
| `FeedBind.BuildFeedCatalog` | miramedia/feeds/bind.py:111-173 | each bucket of each index has exactly the enabled rows with that key |
| `FeedBind.Unique` | miramedia/feeds/bind.py:89-108 | with distinct ids, dropping repeated ids leaves each row once |
| `FeedBind.TitleCandidates` | miramedia/feeds/bind.py:200-217 | the candidates are exactly the rows with a variant made of the first words of the title, each once |
| `FeedBind.BindById` | miramedia/feeds/bind.py:227-251 | movies come before shows; a single hit binds, several hits bind nothing and end the search |
| `FeedBind.BindByTitle` | miramedia/feeds/bind.py:258-288 | a title with seasons binds the only show candidate, one that looks like no episode the only movie candidate |
| `FeedBind.BindIndexed` | miramedia/feeds/bind.py:220-288 | the first of imdb, tmdb, tvdb and title that settles the matter decides |
| `FeedBind.BindFeedEnvelope` | miramedia/feeds/bind.py:291-303 | binding through the catalog is a scan over the enabled rows |
| `FeedBind.BoundIsEnabled` | miramedia/feeds/bind.py:291-303 | what is bound is a row considered, of the kind it is bound as |
| `FeedBind.OrderIrrelevant` | miramedia/feeds/bind.py:291-303 | the result is the same for any permutation of the movies and shows |
| `FeedBind.YearExcludesIff` | miramedia/indexers/utils.py:548-562 | a row is ruled out by year if and only if the title states years and its own is given and not among them |
| `FeedTitles.GoesOnIff` | miramedia/indexers/utils.py:464-467 | a title starts with a name and a space if and only if the words of the name are its first words and more follow, and what is split off next is the next word |
| `FeedTitles.StartsTitleIff` | miramedia/indexers/utils.py:463-469 | a name is accepted as the start of a title if and only if its words are all of the title's, or the first ones before a release marker |
| `FeedTitles.IndexMissesIff` | miramedia/feeds/bind.py:258-288 | some row relevant for a title is not under any of its first words if and only if the title's only year, put in parentheses, stands in the way as YearTrap says; the same for rows whose year must fit too |
| `FeedTitles.PrefixTestIsRedundant` | miramedia/feeds/bind.py:258-288 | for every other title the candidates of the index are exactly the relevant rows, shows and movies |
| `FeedTitles.UsualYearIsHarmless` | miramedia/indexers/utils.py:445-462 | a title with one year in parentheses after the name, not repeated later, is such a title |
| `FeedTitles.PrefixTestCanMiss` | miramedia/feeds/bind.py:258-288 | a concrete title and show of the other kind: the show is relevant and not found |
| `ImportFile.IsTempOfIff` | miramedia/imports/files.py:267-270 | a leftover of a target is its name, a dot, anything without a slash, and ".mmpart" |
| `ImportFile.NextKeepsInv` | miramedia/imports/files.py:192-335 | every step of every importer keeps: names show only what they may, a copy being written has no other name and no other writer, first files are untouched |
| `ImportFile.ShowsOnlyWhatItMay` | miramedia/imports/files.py:192-335 | for any assignment of contents closed under the imports, even chained ones, each name shows one assigned to it |
| `ImportFile.TargetNeverPartial` | miramedia/imports/files.py:192-335 | at every moment a target is absent, shows its earlier content, or the whole content of a source imported to it |
| `ImportFile.SourcesNeverWritten` | miramedia/imports/files.py:213-335 | no file that existed is ever written |
| `ImportFile.TargetStays` | miramedia/imports/files.py:192-210 | a target is replaced in one step; once there it is never absent |
| `ImportFile.NoOverwriteKeepsTarget` | miramedia/imports/files.py:192-210 | without overwrite an existing target is never bound to another file |
| `ImportFile.PublishedShowsSource` | miramedia/imports/files.py:192-210 | right after publishing the target shows the content of the source |
| `ImportOneFile.FileSystem.CopyToTemp` | miramedia/imports/files.py:313-321 | the copy is complete, or an error stopped it, and then only the temporary file shows it |
| `ImportOneFile.FileSystem.BuildTemp` | miramedia/imports/files.py:281-335 | the source is under the temporary name, linked or copied, or the import failed, the other names are as before, and the temporary one is left exactly if the copy had begun and unlinking it fails |
| `ImportOneFile.FileSystem.PublishTemp` | miramedia/imports/files.py:192-210 | the target is bound to the temporary file, whose name goes; if the call raises the target keeps its binding, and the temporary name goes unless unlinking it fails or it was a hard link meant to replace the target |
| `ImportOneFile.FileSystem.Sweep` | miramedia/imports/files.py:267-279 | exactly the leftovers of that target that are old enough go |
| `ImportOneFile.FileSystem.Import` | miramedia/imports/files.py:213-335 | skipped exactly if the target is the source or of its size, conflict exactly if another target is there and must not be replaced, else published or failed exactly as the file system answers, the publishing call included; published means the target shows the source; no other name changes but swept leftovers, no old file is written; when the temporary name is left behind is said exactly |
| `ImportOneFile.HardLinkStays` | miramedia/imports/files.py:192-210 | an import that fails to replace its target after a hard link, and leaves the temporary name |
| `ImportOneFile.SameSizeSkipped` | miramedia/imports/files.py:231-256 | an import that leaves a target of other content and the same size as it is |
| `ImportOneFile.TraceIsRun` | miramedia/imports/files.py:213-335 | each execution of that code is a run of the protocol |
| `SubtitlePlacement.FindFree` | miramedia/imports/files.py:379-386 | the search ends whenever some number is free, at the first one |
| `SubtitlePlacement.SomeNumberFree` | miramedia/imports/files.py:379-386 | if targets differ for different numbers, one of the first \|used\| + 1 numbers is free |
| `SubtitlePlacement.LinkSubtitles` | miramedia/imports/files.py:363-391 | whenever every subtitle finds some number free at its turn, each matching one is placed, in order, at the least such number |
| `SubtitlePlacement.CanPlaceNextIff` | miramedia/imports/files.py:379-386 | after a batch was placed, one more subtitle can be if and only if some number is free for it |
| `SubtitlePlacement.InjectiveCanPlace` | miramedia/imports/files.py:363-391 | any batch can be placed if targets differ for different numbers |
| `SubtitlePlacement.ConstantTargetStuck` | miramedia/imports/files.py:379-386 | with a constant target one subtitle can be placed and two cannot |
| `SubtitlePlacement.ImportersCanPlace` | miramedia/movies/service.py:1158-1166 | with the targets of movies and of episodes every batch can be placed |
| `SubtitlePlacement.MovieTargetWords` | miramedia/movies/service.py:1158-1166 | a film's target is its name and, with dots between, language, flag if any, number from the second on, and container |
| `SubtitlePlacement.EpisodeTargetWords` | miramedia/shows/service.py:1743-1751 | an episode's is the same without the language if there is none |
| `SubtitlePlacement.MovieTargetsApart` | miramedia/movies/service.py:1158-1166 | two subtitles of a film share a target only if language, flag shown, number and container agree |
| `SubtitlePlacement.DecimalReads` | miramedia/movies/service.py:1160 | the number in a target reads as the number it was made of |
| `SubtitlePlacement.PlacedApart` | miramedia/imports/files.py:363-391 | no two subtitles of a batch share a target |
| `SubtitlePlacement.NumberBound` | miramedia/imports/files.py:379-386 | a number is at most one more than the subtitles placed before |
| `SubtitlePlacement.PlacesUnique` | miramedia/imports/files.py:374-377 | the targets are determined by the batch, so importing it again finds the same ones |
| `EventBridge.ArrivesWholeIff` | miramedia/events/bus.py:196-226 | an event arrives whole if and only if it fits into 7000 bytes or has no data; its name always arrives |
| `EventBridge.EventBus.Deliver` | miramedia/events/bus.py:137-158 | each subscriber of the snapshot gets the event unless its queue is full, a limit of zero being none; the others are untouched |
| `EventBridge.EventBus.PublishCrossProcess` | miramedia/events/bus.py:117-135 | on the loop's thread the event goes out if and only if the bridge runs and fewer than 1024 events wait |
| `EventBridge.EventBus.Publish` | miramedia/events/bus.py:86-115 | on the loop's thread an event reaches the local subscribers and is put in the outbound queue once, at once; on another thread both are handed to the loop in this order and nothing else changes; with the loop closed nothing happens, and it raises if and only if a bridge was running |
| `EventBridge.EventBus.RunScheduled` | miramedia/events/bus.py:117-135 | what was handed over is carried out first come first served, to the subscribers and the queue there were when the event was published |
| `EventBridge.EventBus.OnNotify` | miramedia/events/bus.py:241-257 | a notification from elsewhere reaches the local subscribers, one from here does not, and neither is sent on |
| `EventBridge.EventBus.RunBridge` | miramedia/events/bus.py:227-279 | for every sequence of failures the retry loop keeps the relay invariant and ends as the next row says |
| `EventBridge.SessionSettles` | miramedia/events/bus.py:227-279 | each acknowledgement settles exactly one event, no failure loses one, and what was sent stays sent |
| `EventBridge.SettleRelays` | miramedia/events/bus.py:260-265 | acknowledged, sent unheard or not sent: the sent sequence stays the accepted one in order, each once or more |
| `EventBridge.StutterMembers` | miramedia/events/bus.py:227-279 | repeating loses nothing and makes nothing up |
| `EventBridge.SettledWasSent` | miramedia/events/bus.py:260-265 | with nothing pending, every event that left the queue was sent |
| `EventBridge.NextKeepsInv` | miramedia/events/bus.py:227-279 | every step of every process keeps the relay invariant and what each listener has heard |
| `EventBridge.SentInOrder` | miramedia/events/bus.py:227-279 | in every run the notifications of a process are its accepted events in order, each once or more, save at most the one pending |
| `EventBridge.OnlyOriginNotifies` | miramedia/events/bus.py:241-257 | every notification is of an event that the process it names accepted itself |
| `EventBridge.DeliveredFromOthers` | miramedia/events/bus.py:241-257 | what is delivered comes from another process that accepted it, and never returns to its origin |
| `EventBridge.HearsAllOthers` | miramedia/events/bus.py:241-258 | over one connection a process hears exactly what the others sent meanwhile, in order |
| `Inventory.Table.UpsertInventoryPath` | miramedia/media_inventory.py:92-167 | both keys stay unique, the pair is bound, rows colliding on either key are absorbed into one of the right identity, and all others are unchanged |
| `Inventory.Table.FindInventoryPath` | miramedia/media_inventory.py:61-89 | the path bound to the key is returned if its file exists; otherwise just that row goes |
| `Inventory.BindKeepsMatching` | miramedia/media_inventory.py:92-167 | binding keeps the relation between keys and paths one to one |
| `Inventory.LastUpsertWins` | miramedia/media_inventory.py:92-167 | after any upserts on any one-to-one table a pair is bound exactly when it was bound first or by one of them and no later one concerns its key or its path differently |
| `Inventory.Table.UpsertAll` | miramedia/media_inventory.py:92-167 | the table holds exactly those pairs after any number of upserts |

## Left out

- SHA-256, zlib and bz2, the `zipfile` reader, decoding of tar headers, Unicode normalisation and codecs: they are parameters. Container naming assumes the hash collision-free where a statement says so.
- File permissions, change times, descriptors, link counts after publication, and other programs writing to the same directories.
- The gzip and bzip2 single-file extractors, format detection and the checks after extraction (`collect_validated_regular_files`): the first are the bounded copy modelled here over another stream, the second chooses the extractor, the last look again at the tree it left.
- `ImportPipeline.ImportArchive`: the destination is empty at first and only this import uses it; other containers in the destination and concurrent publishers are in `Publication` and `ImportListing`.
- Agreement of the `zipfile` entry list with the central directory beyond its length: the entry list is a parameter of extraction.
- `ZipDirectory.PreflightZipArchive`: tells the refusals apart only where it says so, since for a file with several faults the source reports the first it meets.
- `Publication.NextKeeps`: a publisher's checks that directories are still the ones it opened are part of the step they guard, since no one else touches private directories in the model; the emptied quarantine directory may stay behind, as in the source, and what is deleted when is left open.
- `ImportFile.TargetNeverPartial`: assumes that no source is also a target and that no target or source is named like a temporary file; `ImportFile.ShowsOnlyWhatItMay` does without the first. Unique temporary names, and a hard link that fails leaving nothing behind, are assumed.
- `SubtitlePlacement.LinkSubtitles`: asks that each subtitle finds a number free at its turn, which is exactly when the source's search ends. Matching file names against a media file is a parameter.
- `FeedLease.NextKeepsInv`: each repository statement is one atomic step and owner ids are never reused; sessions, sync of sources with the configuration beyond its effect on the rows, HTTP polling and storing of observations are left out.
- `FeedBind.BindFeedEnvelope`: asks for distinct row ids, which the database guarantees. Sanitising, finding years and release markers in a text are parameters.
- `FeedTitles.IndexMissesIff`: asks that sanitised texts are words with single spaces between them, and that a row's variants are, as the sanitiser leaves them.
- `RateLimitAgreement.AgreesIffMonotone`: asks for at most 10,000 different keys, since with more an eviction alone can make limiter and log disagree; `RateLimitAgreement.AgreesIffRemembered` does without.
- `EventBridge.EventBus.RunBridge`: takes the outcomes of its attempts as a parameter; events that cannot be serialised are left out. Stopping the bridge drops its queue, as in the source.
- `Inventory.Table.UpsertInventoryPath`: one transaction at a time; the new row id is assumed fresh.
- The single-flight cache, shutdown latch, circuit breaker, authentication, routers, migrations, metrics and the web front end: the components modelled here share no state with them and call none but metrics, which are only counted up, so nothing stated above turns on what they do.
