# Silk: a verified model

Silk is a replay recorder. This Dafny project models the deterministic parts of it that carry
hard guarantees and proves those guarantees for all inputs, runs and interleavings. `dafny verify
dfyconfig.toml` checks everything.

| files | what they model |
|---|---|
| `Mp4Box`, `Mp4Layout` | the MP4 duration reader: in-memory parser, seeking scanner, and the box layout of sections 4.2 and 8.2.2 of ISO/IEC 14496-12 |
| `ClipIndex`, `LibraryScan`, `LibraryActions`, `LibraryQuota`, `LibraryFrames`, `LibraryCleanup`, `LibraryInstances`, `LibraryWalk`, `ClipLibrary`, `LibraryRuns` | the clip index over a disk whose operations may fail: scan, delete, rename, quota, cleanup at opening |
| `Names`, `Patterns`, `ClipNaming`, `ClipTemplate`, `SavedClips` | file-name sanitizer and validator, the search for a free clip name, and how the library sees what was saved |
| `EncoderRanking`, `FallbackSpec`, `FallbackEncoder` | encoder ranking and the encoder that falls back at run time |
| `SaveSpec` | the save worker: two bounded channels, one thread, a draining shutdown |
| `ExportQueueSpec`, `ExportQueue`, `ExportQueueViews` | the export queue with cooperative cancellation |
| `Planner` | the byte-exact export planner |
| `StagedExport`, `ExportRuns` | one staged export on a failing file store, and many interleaved ones |
| `MediaClock`, `Resampler`, `AudioSync`, `CaptureShaping` | timelines, resampling over exact rationals, audio synchronization, frame thinning |
| `CaptureRing` | the staging ring of capture textures |
| `Chords` | hotkey chord normalization |
| `Common`, `Text`, `Sorting` | options, integer widths, strings, orders and the stable sort |

Objects that the program updates in place are classes, and their methods are proved equal to a
specification function of their old state. What the program promises is then proved about those
functions as lemmas and as invariants of all runs. What the outside world decides (file
operations that fail, directory listings, backends, muxer results, other programs) is a parameter
named `Env`, `Answers` or `Step`, and the lemmas hold for all of its values.

## Where the code does less than it says

- `delete` is documented as removing missing rows without touching files; when the catalog write
  fails, such a row is gone from memory but still in the catalog. `DeleteIsAtomicWhen` gives the
  exact condition, `MissingRowIsDroppedAnyway` the instance.
- A failed look at a path counts as "nothing there" when a new or staged name is chosen, so that
  an unreadable file at that name is overwritten: `UnreadableStagedFileIsLost`,
  `UnreadableTargetIsLost`. No other file can be lost, unreadable or not: `DeleteRemovesOne`,
  `DeleteLeavesOthers`, `RenameLeavesOthers`, `EnforcedLeavesOthers`.
- A clip whose name contains `.silk-delete` passes the name check and is removed at the next
  opening, protected or not: `ClipIsSweptExactlyWhen`, `OpeningKeepsProtectedExactlyWhen`, with
  the instance `MarkedClipIsSwept`.
- A delete that reports an error still loses the file at the next opening when it was interrupted
  while the file was set aside: `FailedDeleteLosesFileExactlyWhen`,
  `OpeningFinishesInterruptedDelete`, with the instance `FailedDeleteLosesFile`.
- A protection request whose catalog write fails reports an error and protects the clip in memory,
  until a later write saves that or an opening forgets it: `ProtectionIsAtomicWhen`, `UnsavedProtectionIsInMemoryOnly`.
- The name of a clip's source may hold braces, and one that makes up the index field is filled in
  again: `RenderingFillsTemplate`, `SourceNamedIndexIsExpanded`.
- Hotkeys are compared by normal form, which keeps the leading zeros of a function key; one hotkey
  under two such names is not found to be a duplicate: `OneHotkeyOneFormExactlyWhen`,
  `LeadingZeroHidesDuplicate`.
- `next_event` restarts the timeline after a forward jump so that capture "continues seamlessly";
  a thinned stream stalls until the restarted clock catches up, as long as the session was
  (`ForwardJumpStalls`, `StallLastsAsLongAsTheSession`, `HourLongStall`), and every frame of one
  that is not thinned has one and the same time until then (`ForwardJumpFreezes`, `FrozenMinute`).
- A single input frame is returned as it is at every rate, so its duration is not kept:
  `DurationKeptExactlyWhen`, `SingleFrameLosesDuration`.
- Publishing by hard link can leave the destination behind and report failure, when removing the
  stage and rolling back both fail: `PublishWithoutReplacement`, `ExportWithProgress`, with the
  instance `HalfPublishedExport`.
- The scanner refuses a movie box over 1 MiB that the parser would read: `ScannerAgreesWithParser`,
  `ScannerReadsMoviesExactlyWhen`, with the instance `LargeMovieBoxIsRefused`.

## Model

| member | source | states |
|---|---|---|
| `Mp4Box.ParseMp4Duration` | crates/clip-library/src/lib.rs:1025-1045 | The two nested cursor loops compute the recursive reading of the file as boxes; every slice they take is in bounds for every byte content |
| `Mp4Box.ReadBoxTranslates` | crates/clip-library/src/lib.rs:1054-1104 | Reading a box at an offset is reading it at the start of the slice that ends at the same limit, with all offsets shifted: reading is position-independent |
| `Mp4Box.DurationFromFile` | crates/clip-library/src/lib.rs:961-1023 | The seeking scanner, over a file with a read position, returns the in-memory parse of the whole content unless the first top-level movie box is larger than 1 MiB, when it returns nothing; it terminates on every content |
| `Mp4Box.ReadHeader` | crates/clip-library/src/lib.rs:970-1005 | The scanner's own header arithmetic accepts a header exactly when the in-memory reader does, with the same type and the same next offset |
| `Mp4Box.MoovAlone` | crates/clip-library/src/lib.rs:1007-1016 | A movie box cut out of its file and parsed alone gives what parsing the whole file gives |
| `Mp4Box.ScannerAgreesWithParser` | crates/clip-library/src/lib.rs:961-1045 | The definition that DurationFromFile is proved equal to, read as a difference: scanner and parser differ on a file if and only if its first movie box is over 1 MiB and holds a duration; a file without a movie box has none |
| `Mp4Layout.EncodedBoxReads` | crates/clip-library/src/lib.rs:1054-1104 | A box written with a 32-bit, 64-bit or to-the-end size is read back with its kind, payload and end, whatever follows it |
| `Mp4Layout.HeaderReads` | crates/clip-library/src/lib.rs:1106-1135 | A version 0 or 1 movie header reads back as whole milliseconds capped at the largest 64-bit value, and as nothing when its timescale is zero |
| `Mp4Layout.RenderedMovieReads` | crates/clip-library/src/lib.rs:1025-1135 | Round trip: for any skippable boxes before the movie box, any children before the movie header and any choice of size encodings, the parser returns the duration written |
| `Mp4Layout.FileIsRendered` | crates/clip-library/src/lib.rs:1025-1135 | Every file with a duration is the rendering of some such movie: the parser accepts nothing else |
| `Mp4Layout.ReaderAcceptsExactlyMovies` | crates/clip-library/src/lib.rs:1025-1135 | The parser returns a duration for exactly the files that render a movie of that duration |
| `Mp4Layout.ScannerReadsMoviesExactlyWhen` | crates/clip-library/src/lib.rs:961-1023 | The scanner reads the duration of a rendered movie if and only if its movie box, with its header, is at most 1 MiB |
| `Mp4Layout.LargeMovieBoxIsRefused` | crates/clip-library/src/lib.rs:961-1023 | A concrete one-second movie, with 1 MiB of free space in its movie box, that the parser reads and the scanner refuses |
| `Mp4Layout.ShortestMovieReads` | crates/clip-library/src/lib.rs:1025-1135 | A concrete file, given byte by byte with its box names as text: a type box and a movie of two and a half seconds |
| `ClipLibrary.ClipLibrary.ReconcileRows` | crates/clip-library/src/lib.rs:182-217 | Every indexed row is refreshed from a regular file below a safe parent, or marked missing; it fails only when a look at a file fails |
| `ClipLibrary.ClipLibrary.AddDiscoveredFile` | crates/clip-library/src/lib.rs:278-299 | A listed file is indexed once: an unseen path updates its row or appends a new one, a seen path changes nothing |
| `ClipLibrary.ClipLibrary.WalkOutputDirectory` | crates/clip-library/src/lib.rs:219-264 | The walk over the output directory and its game directories sees every clip on disk and adds rows only for unindexed clips |
| `ClipLibrary.ClipLibrary.Scan` | crates/clip-library/src/lib.rs:182-276 | A scan that reaches the catalog write saves an index satisfying ScanPost and then enforces the quota on it; one that fails before leaves files and catalog alone and an index with distinct paths in which every old row is as it was or reconciled and every other row was read from a clip; without failures it never stops early |
| `LibraryScan.ScanAgreesWithDisk` | crates/clip-library/src/lib.rs:182-299 | After a scan a row is non-missing exactly when its regular file lies below a safe parent, and then shows that file's size, name and game, its duration where it can be read, and its creation time where none was recorded; there is one row for each old path and each discoverable clip; present rows come first, newest first, then by name and path; protection flags, recorded creation times and unreadable durations survive, and a missing row changes in nothing else |
| `LibraryScan.ScanIsDeterministic` | crates/clip-library/src/lib.rs:182-276 | Old index and files determine the new index: the order in which directories are listed does not show |
| `LibraryScan.RescanIsIdentity` | crates/clip-library/src/lib.rs:182-276 | Scanning an unchanged disk again changes nothing |
| `LibraryScan.HalfScannedKeeps` | crates/clip-library/src/lib.rs:182-276 | A scan that failed half way has lost no path, and every row that was there keeps its protection flag and its recorded creation time |
| `ClipIndex.RowLeIsOrder` | crates/clip-library/src/lib.rs:1137-1149 | The comparison that sorts the index is a total preorder |
| `ClipIndex.NoTiedRows` | crates/clip-library/src/lib.rs:1137-1149 | Rows with distinct paths are never tied in that order |
| `Sorting.FirstDifferenceDecides` | crates/clip-library/src/lib.rs:1137-1149 | Names are compared at their first difference, the shorter of two first |
| `Sorting.StableSortSorts` | crates/clip-library/src/lib.rs:1137-1149 | The stable sort returns the same elements in order, with tied elements in their old order |
| `Sorting.SortedUnique` | crates/clip-library/src/lib.rs:1137-1149 | Under an order without ties a bag has one sorted arrangement |
| `ClipLibrary.ClipLibrary.Delete` | crates/clip-library/src/lib.rs:430-464 | The method, with its staged move, catalog write, rollback and removal, has exactly the outcome of the specification Deleted, in every failure case |
| `LibraryActions.DeleteRemovesOne` | crates/clip-library/src/lib.rs:430-464 | A successful delete removes the row of that path, keeps all others in order, writes exactly the remaining index, and removes the row's file; no other file is lost if and only if the staged name was free, no other file than the one there can be, and one can be there only if it could not be looked at |
| `LibraryActions.DeleteIsAtomicWhen` | crates/clip-library/src/lib.rs:430-459 | When the catalog write fails and the file is moved back, the state is unchanged if and only if the row had a file to set aside and the staged name was free |
| `LibraryActions.MissingRowIsDroppedAnyway` | crates/clip-library/src/lib.rs:432-435 | A concrete missing row whose delete fails at the catalog write and is gone from memory all the same |
| `LibraryActions.DeleteFailures` | crates/clip-library/src/lib.rs:430-464 | Every other failed delete leaves the state unchanged, except a failed rollback (row kept, file staged) and a failed final removal (row gone, file staged) |
| `LibraryCleanup.ActionsAreSafe` | crates/clip-library/src/lib.rs:503-565 | An action gets at the file of a row if and only if the row is not missing, its regular file lies below a safe parent, and every look succeeds; it takes the file for missing exactly when the row is, or when looks succeed and find nothing |
| `LibraryCleanup.LinksAreNoClips` | crates/clip-library/src/lib.rs:503-565 | A link, or whatever lies below one, is never found by a scan nor reached by an action, and its row is missing |
| `LibraryCleanup.UnknownPathsAreRefused` | crates/clip-library/src/lib.rs:486-501 | Paths that no clip may have, and those without a row, are refused as such by delete, rename and protection, without change |
| `LibraryCleanup.DeletesExactlyWhen` | crates/clip-library/src/lib.rs:430-464 | A delete succeeds if and only if the path has a row, the catalog can be written, and the file is missing, or can be reached, set aside and removed |
| `ClipLibrary.ClipLibrary.DeleteStagedPath` | crates/clip-library/src/lib.rs:937-950 | The search for a staged name terminates at the first free choice, given fewer files than 32-bit numbers |
| `LibraryActions.OccupiedChoicesBounded` | crates/clip-library/src/lib.rs:937-950 | As many occupied choices need as many files: the choices are pairwise different |
| `ClipLibrary.ClipLibrary.Rename` | crates/clip-library/src/lib.rs:393-426 | The method has exactly the outcome of the specification Renamed, in every failure case |
| `ClipLibrary.ClipLibrary.SetProtected` | crates/clip-library/src/lib.rs:466-478 | The method has exactly the outcome of the specification ProtectionSet, in every failure case, and moves no file |
| `LibraryActions.RenameMovesOne` | crates/clip-library/src/lib.rs:393-426 | A successful rename changes path and name of one row, saves exactly that index, moves its file, and takes no indexed path; it overwrites a file only when a look at the new path failed |
| `LibraryCleanup.RenamesExactlyWhen` | crates/clip-library/src/lib.rs:393-426 | A rename succeeds if and only if the path has a row with a reachable file, the name is accepted, and it is the old one, or is free, and the file can be moved and the catalog written |
| `LibraryCleanup.TakenNamesAreRefused` | crates/clip-library/src/lib.rs:393-409 | A rename of a clip with a file is refused as existing if and only if the new name is another one that a row or a file that can be looked at has, and for a name that is not accepted as such |
| `LibraryActions.RenameIsAtomicWhen` | crates/clip-library/src/lib.rs:411-424 | A failed rename never changes the index; after a failed catalog write the files are unchanged if and only if the new path was free; only a failed rollback leaves the file moved |
| `LibraryActions.ProtectionIsAtomicWhen` | crates/clip-library/src/lib.rs:466-478 | A failed protection request leaves everything as it was, unless the catalog write failed and the flag was different: then the flag is changed in memory and not in the catalog |
| `LibraryCleanup.ProtectsExactlyWhen` | crates/clip-library/src/lib.rs:466-478 | A protection request succeeds if and only if the path has a row that is missing or has a reachable file, and the catalog can be written; then exactly that flag is set, in memory and in the catalog |
| `LibraryInstances.UnsavedProtectionIsInMemoryOnly` | crates/clip-library/src/lib.rs:466-478 | A concrete clip whose protection request fails: it is protected in memory and not in the catalog |
| `LibraryCleanup.RenamedClipIsAClip` | crates/clip-library/src/lib.rs:1229-1268 | A renamed clip keeps directory and extension, is called as requested or as requested plus its extension, and has a valid name; the next opening of the library removes it exactly when the requested name holds the mark of a deleted clip |
| `LibraryCleanup.ExtensionExactlyWhen` | crates/clip-library/src/lib.rs:1151-1154 | The extension of a name is what follows its last dot, unless that dot comes first or the name is two dots |
| `LibraryCleanup.NameIsAcceptedExactlyWhen` | crates/clip-library/src/lib.rs:1229-1268 | A name is accepted for a clip if and only if it is valid and has no extension or that of an MP4 file in any case; the new path is that name, completed with the old extension, in the same directory |
| `ClipLibrary.ClipLibrary.CleanupTemporaryFiles` | crates/clip-library/src/lib.rs:876-901 | Opening removes exactly the temporary files at depth one and in regular game directories, or stops having removed nothing else |
| `LibraryCleanup.StagedNameIsTemporary` | crates/clip-library/src/lib.rs:928-950 | A clip set aside for deletion is recognised by the cleanup and never taken for a clip by a scan |
| `LibraryCleanup.ClipIsSweptExactlyWhen` | crates/clip-library/src/lib.rs:876-935 | The cleanup removes a clip if and only if its name contains the mark of a deleted clip |
| `LibraryCleanup.OpeningFinishesInterruptedDelete` | crates/clip-library/src/lib.rs:450-464 | After a delete that was interrupted while the file was set aside, the next opening leaves the disk as it would without that file, if and only if setting it aside replaced no link; this is so even where the row was kept |
| `LibraryCleanup.FailedDeleteLosesFileExactlyWhen` | crates/clip-library/src/lib.rs:430-464 | A delete of a present clip that reports an error loses its file at the next opening if and only if the file could be set aside and then neither moved back after a failed catalog write nor removed after a successful one, or the clip had the name of a temporary file |
| `LibraryInstances.FailedDeleteLosesFile` | crates/clip-library/src/lib.rs:430-464 | A concrete delete that reports a failed rollback and keeps the row, and whose file the next opening removes |
| `LibraryInstances.MarkedClipIsSwept` | crates/clip-library/src/lib.rs:1229-1268 | A concrete clip renamed to a name with the mark of a deleted clip: the rename succeeds and the next opening removes the clip |
| `LibraryInstances.UnreadableStagedFileIsLost` | crates/clip-library/src/lib.rs:937-950 | A concrete delete that succeeds and loses another file, which was at the staged name and could not be looked at |
| `LibraryInstances.UnreadableTargetIsLost` | crates/clip-library/src/lib.rs:393-426 | A concrete rename that succeeds and overwrites another file, which was at the new name and could not be looked at |
| `ClipLibrary.ClipLibrary.EnforceStoragePolicy` | crates/clip-library/src/lib.rs:336-389 | The loop deletes candidates while the running total exceeds the quota and has exactly the outcome of the specification Enforced, stopping at the first failed delete |
| `LibraryQuota.CandidatesAreOldestFirst` | crates/clip-library/src/lib.rs:354-373 | The candidates are the present unprotected rows, each once, those of unknown age first, then the oldest, and by name and path where ages are equal |
| `LibraryQuota.QuotaIsEnforced` | crates/clip-library/src/lib.rs:336-389 | The deleted rows are a prefix of that order, each deleted while the sum of the sizes of the present rows that were left was above the quota; at the end that sum fits or only protected rows are present; the sum is over the set of present paths, so that missing rows do not count, and the deleted bytes are what it lost; every other row stays |
| `LibraryQuota.NothingIsDeletedWhen` | crates/clip-library/src/lib.rs:336-389 | Without a quota, with automatic deletion off, or when the present rows fit, nothing is changed |
| `LibraryQuota.PresentBytesAreSum` | crates/clip-library/src/lib.rs:344-349 | The running total is the sum of the sizes of the present rows over their paths |
| `LibraryQuota.SizesOnDisk` | crates/clip-library/src/lib.rs:336-389 | Where the index agrees with the disk, as after a scan, those sizes are the lengths of the files of indexed clips that are on disk |
| `LibraryQuota.EvictedFilesAreGone` | crates/clip-library/src/lib.rs:374-388 | The file of every row deleted for the quota is gone |
| `LibraryFrames.OtherFilesSurviveQuota` | crates/clip-library/src/lib.rs:336-389 | No file of a protected, missing or unindexed clip is touched, however the enforcement ends: not even one that cannot be looked at, if its name is not that of a temporary file |
| `LibraryFrames.EnforcedLeavesOthers` | crates/clip-library/src/lib.rs:336-389 | Enforcing the quota, even when it stops half way, changes rows and saved rows of present unprotected clips only, and costs no file but theirs and those that lie at a name to set one of them aside and cannot be looked at |
| `LibraryFrames.DeleteLeavesOthers` | crates/clip-library/src/lib.rs:430-464 | A delete, however it ends, changes no other row or saved row and costs no file but its own and one that lies at a name to set it aside and cannot be looked at |
| `LibraryFrames.RenameLeavesOthers` | crates/clip-library/src/lib.rs:393-426 | A rename, however it ends, changes no other row or saved row and costs no file but one at the new path that no row has and that cannot be looked at |
| `LibraryRuns.ProtectedClipSurvives` | crates/clip-library/src/lib.rs:141-478 | Over every run of openings, of scans under any quotas, complete or failed half way, of protection requests, and of deletes and renames of other clips, whatever fails in them, a protected clip keeps its row, its flag and its file, in memory and in the catalog, also when it cannot be looked at, provided its name is not that of a temporary file and the catalog can be read |
| `LibraryRuns.ProtectedOnceSurvives` | crates/clip-library/src/lib.rs:141-478 | From an empty index, over every run: once a protection request for a clip has succeeded, its row, flag and file survive every run that does not ask to delete, rename or unprotect it |
| `LibraryRuns.ScannedClipCanBeProtected` | crates/clip-library/src/lib.rs:466-478 | Every clip that a first scan finds can be protected, when nothing fails |
| `LibraryRuns.OpeningKeepsProtectedExactlyWhen` | crates/clip-library/src/lib.rs:876-935 | An opening keeps a protected clip if and only if its name lacks the mark of a deleted clip |
| `LibraryRuns.LoadedExactly` | crates/clip-library/src/lib.rs:141-168 | An opening loads the rows of paths that a clip may have, in order, and sets only their game |
| `LibraryRuns.PathsStayDistinct` | crates/clip-library/src/lib.rs:141-478 | Paths stay distinct in the index and in the catalog over every run, with openings and failed scans in it |
| `Names.SanitizeWindowsComponent` | crates/app-controller/src/controller.rs:970-1002 | The loop that trims and guards a name computes the sanitized name |
| `Names.SanitizerMeetsValidator` | crates/app-controller/src/controller.rs:970-1002 | The sanitizer changes nothing exactly when the library's validator accepts the name; its output is always accepted; sanitizing twice is sanitizing once |
| `Names.SanitizedIsCleaned` | crates/app-controller/src/controller.rs:970-1002 | Sanitizing replaces each bad character by an underscore, drops dots and spaces at the end, puts an underscore before a device name, falls back only when nothing is left, and changes nothing else |
| `Names.ReservedExactlyWhen` | crates/app-controller/src/controller.rs:986-1000 | A name is reserved if and only if what comes before its first dot is a device name in any case |
| `Names.ValidExactlyWhen` | crates/clip-library/src/lib.rs:1270-1310 | A name is valid if and only if it is not empty, does not end in a dot or space, and has no bad character and no device name |
| `Names.GameFolderIsValidAndShort` | crates/app-controller/src/controller.rs:956-968 | A game folder is a valid name of at most 64 characters, even when truncation exposes a reserved name |
| `Names.GameFolderKeepsName` | crates/app-controller/src/controller.rs:956-968 | A game whose trimmed name is valid and short is its own folder; without a name the folder is Uncategorized; a longer name is cut at 64 characters after sanitizing |
| `ClipNaming.RenderedNamesDiffer` | crates/app-controller/src/controller.rs:729-746 | Different collision indices give different file names, with the index in the pattern or appended, through sanitization, for every pattern and every filled-in text |
| `ClipTemplate.RenderingFillsTemplate` | crates/app-controller/src/controller.rs:729-746 | For a pattern read as plain text and fields, the four replacements in turn fill in every field with its own value at once, if and only if the result holds no index field; it holds none when the source text has no opening brace, and one when the source text has an index field and is filled in |
| `ClipTemplate.RenderedNameIsFilledIn` | crates/app-controller/src/controller.rs:729-746 | The name is the filled-in text sanitized, and gets a collision suffix only when the pattern has no index field |
| `ClipTemplate.SourceNamedIndexIsExpanded` | crates/app-controller/src/controller.rs:736-740 | A source named like the index field is replaced by the index, in a pattern that asks for the source alone |
| `ClipTemplate.ReplaceInTemplate` | crates/app-controller/src/controller.rs:736-740 | Replacing one token replaces that field of the template and nothing else, and the token occurs in the pattern only as that field |
| `ClipNaming.RenderedNameIsValid` | crates/app-controller/src/controller.rs:729-746 | A rendered name with its extension is one the library accepts |
| `ClipNaming.TakenCandidatesBounded` | crates/app-controller/src/controller.rs:662-680 | If the first n candidates are all taken then at least n paths are on disk or reserved |
| `ClipNaming.Controller.NextClipPath` | crates/app-controller/src/controller.rs:662-680 | The search terminates at the smallest free index and reserves that path: not on disk, not staged, not locked, not reserved |
| `SavedClips.CandidateIsAClip` | crates/app-controller/src/controller.rs:767-788 | Every path the search may choose lies in the output directory or in the game folder below it, and is one that the library takes for a clip of that game |
| `SavedClips.LeftoversAreTemporary` | crates/app-controller/src/controller.rs:1004-1014 | The staged file and the lock of a save have names that the library removes at its next opening and never takes for clips |
| `EncoderRanking.RankingIsSound` | crates/encoder-api/src/lib.rs:291-328 | Ranking keeps every eligible candidate as often as it was discovered and no other, sorted and stable, with every hardware candidate before every software one |
| `EncoderRanking.RankedExactlyWhen` | crates/encoder-api/src/lib.rs:291-303 | A candidate is ranked if and only if it was discovered, is of the codec asked for under any of its names, is large enough in both dimensions, has the rate and the pixel format, and is of the kind preferred |
| `EncoderRanking.RankedByVendor` | crates/encoder-api/src/lib.rs:225-328 | Whoever stands later in the ranking is no hardware before software and names no vendor preferred to the one before: NVIDIA, AMD, Intel, the rest, software by name; within a vendor by backend name, then by identifier |
| `EncoderRanking.ConfigIsValidExactlyWhen` | crates/encoder-api/src/lib.rs:368-409 | A configuration is valid if and only if both dimensions are positive and even, the rate is 30, 60 or 120, the codec is known, and keyframe interval, preset and bitrate are in range |
| `FallbackSpec.EncodeIsBounded` | crates/encoder-api/src/lib.rs:749-852 | With n candidates and active index i one encode makes at most n - i + 1 attempts: i, at most once more i, then strictly larger indices, each the least later one that configures; never software before hardware |
| `FallbackSpec.NeverBackToHardware` | crates/encoder-api/src/lib.rs:749-852 | In a session that is not configured again the active index never decreases and software never gives way to hardware |
| `FallbackSpec.RunKeepsInvariant` | crates/encoder-api/src/lib.rs:707-852 | Over every run: epoch = successful configurations + fallbacks = events ever emitted, numbered in order; encode failures = fallbacks + dropped frames; submitted - encoded - dropped counts the calls made after the last backend was exhausted |
| `FallbackEncoder.FallbackVideoEncoder.Encode` | crates/encoder-api/src/lib.rs:749-852 | The retry loop terminates and has exactly the outcome, counters, events and attempts of the specification |
| `FallbackEncoder.FallbackVideoEncoder.Configure` | crates/encoder-api/src/lib.rs:707-739 | Configuring has exactly the outcome of the specification, whose meaning is BestCandidateIsActive |
| `FallbackSpec.BestCandidateIsActive` | crates/encoder-api/src/lib.rs:707-739 | Configuring succeeds if and only if the configuration is valid, discovery answered and some ranked candidate configures; then the first of those is active under the name it configured with, a hardware one if any hardware one configures, and it is reported once under a new epoch; a failure leaves events, metrics and epoch alone |
| `FallbackEncoder.FallbackVideoEncoder.UpdateLatency` | crates/encoder-api/src/lib.rs:630-646 | The history keeps the latest samples, and the published percentiles are those of it: at least half and 95 of a hundred samples are at most the median and the 95th, fewer are less, all three are samples, and none exceeds the maximum |
| `Latency.PercentileIsNearestRank` | crates/encoder-api/src/lib.rs:630-646 | The published percentile is the nearest-rank percentile: enough of the history is at most it, and not enough is below it |
| `Latency.PercentilesOrdered` | crates/encoder-api/src/lib.rs:630-646 | Median, 95th percentile and maximum are in order, and the maximum bounds the history |
| `Latency.HistoryIsLast` | crates/encoder-api/src/lib.rs:630-635 | The history is the last 256 of all samples taken |
| `SaveSpec.EveryRunKeepsInvariant` | crates/app-controller/src/jobs.rs:86-228 | In every interleaving of owner and worker, with submits before and after shutdown: drained, undrained, in flight and queued jobs are exactly the accepted ones in order; both channels hold at most 8; every counter is the saturated count of what it stands for; and every recorded result is what the probe and the muxer answered for its job: completed exactly when there was space for minimum, payload and overheads and the muxer did not fail, out of space exactly when the probe answered less, unavailable exactly when it failed, and otherwise the muxer's own error |
| `SaveSpec.CountersAddUp` | crates/app-controller/src/jobs.rs:142-197 | Short of saturation, completed + failed = finished jobs + rejected submits, of which those after shutdown and those to a full channel are the two kinds |
| `SaveSpec.ShutdownStepDecreases` | crates/app-controller/src/jobs.rs:214-228 | Once the sender is closed, every step of either thread uses up a measure |
| `SaveSpec.ShutdownCanMove` | crates/app-controller/src/jobs.rs:214-228 | Until shutdown returns one of the threads can move: draining while joining cannot deadlock |
| `SaveSpec.ShutdownTerminates` | crates/app-controller/src/jobs.rs:214-228 | Every interleaving of a shutdown is bounded by the measure, and one in which only submits could go on has returned, and conversely |
| `SaveSpec.ClosedOnlyRejects` | crates/app-controller/src/jobs.rs:172-178 | After shutdown the only step is a submit, and it changes nothing but the count of rejections and of failed saves |
| `SaveSpec.ShutdownHandsBackEverything` | crates/app-controller/src/jobs.rs:206-228 | Over every run that ends with a returned shutdown, every accepted job was handed a result once and in order, each result is what the probe and the muxer answered for that job in the run, and short of saturation the counters add up to accepted and rejected jobs |
| `SaveSpec.RequiredFreeSpace` | crates/app-controller/src/jobs.rs:266-279 | The free space asked for is the whole sum of minimum, payload and overheads, capped, whichever addition saturates first |
| `SaveWorker.SaveWorker.Submit` | crates/app-controller/src/jobs.rs:172-197 | A submit is accepted exactly when the worker is not shut down and the work channel has room; a rejected one is counted and says which of the two it was |
| `SaveWorker.SaveWorker.Drain` | crates/app-controller/src/jobs.rs:206-211 | A drain hands out everything waiting in the result channel, in order, whatever the worker does meanwhile, and nothing after shutdown |
| `SaveWorker.SaveWorker.Shutdown` | crates/app-controller/src/jobs.rs:214-228 | The drain-and-join loop terminates and returns a result for every accepted job not handed out before; a second shutdown returns nothing |
| `ExportQueueSpec.RunKeepsInvariant` | crates/clip-export/src/queue.rs:294-606 | In every reachable state: no pending job without an active one, at most 2 pending, ids in order below the next id; every accepted job is in exactly one of active, pending, finished; jobs become active in id order; a job ends cancelled exactly when its cancellation was requested; the history is the last entries of the log |
| `ExportQueueSpec.RequestedEndsCancelled` | crates/clip-export/src/queue.rs:470-558 | Once cancellation of a job was requested, through the queue or its token, every later record of it says cancelled |
| `ExportQueueSpec.SubmitAcceptsExactlyWhen` | crates/clip-export/src/queue.rs:294-320 | A job is accepted if and only if fewer than three are live and ids are left; it joins the line of live jobs at its end, fresh, under the next id, and a refusal changes nothing |
| `ExportQueueSpec.FinishesExactlyWhen` | crates/clip-export/src/queue.rs:502-606 | The head of the line ends as completed or failed if and only if nobody asked it to stop, and as cancelled if and only if somebody did; it leaves the line, and its record joins the history, which keeps the last ones; everything else is refused without change |
| `ExportQueueSpec.CancelsExactlyWhen` | crates/clip-export/src/queue.rs:470-499 | Cancelling asks the head of the line to stop, takes any other live job out of the line into the history, and refuses for other ids without change, telling ended from unknown ones |
| `ExportQueueSpec.ProgressAndTokens` | crates/clip-export/src/queue.rs:403-415 | Progress is taken from the head of the line only, capped at 100; a token asks exactly its own job to stop |
| `ExportQueue.ExportQueue.Submit` | crates/clip-export/src/queue.rs:294-320 | Submitting has the outcome of the specification, gives the job a token of its own, and refuses without change when the lock is not free |
| `ExportQueue.ExportQueue.Cancel` | crates/clip-export/src/queue.rs:470-499 | Cancelling removes a queued job into the history or signals the active one, exactly as specified |
| `ExportQueue.ExportQueue.Complete` | crates/clip-export/src/queue.rs:502-518 | Completing retires the active job and promotes the next, or puts it back when cancellation was requested |
| `ExportQueue.ExportQueue.Fail` | crates/clip-export/src/queue.rs:521-539 | Failing retires the active job and promotes the next, or puts it back when cancellation was requested |
| `ExportQueue.ExportQueue.FinishCancelled` | crates/clip-export/src/queue.rs:542-558 | Only a job whose cancellation was requested can finish as cancelled |
| `ExportQueueViews.StatesListEachJobOnce` | crates/clip-export/src/queue.rs:422-445 | The list of states shows no job twice, shows every accepted job whose record is still in the bounded history, and agrees with the single-job lookup |
| `ExportQueueViews.StatesShowTheLine` | crates/clip-export/src/queue.rs:422-445 | The list shows the head of the line as active with its request to stop, every other live job as queued, and then every record as it ended |
| `ExportQueueViews.FinishedIsShown` | crates/clip-export/src/queue.rs:502-606 | Right after a job finishes, asking for it shows the record it finished with, if the history keeps any |
| `ExportQueueViews.RecordsKeepTheirJobs` | crates/clip-export/src/queue.rs:294-606 | Over every run, every live job and every record carries the job that was submitted under its id |
| `Planner.PlanIsExact` | crates/clip-export/src/planner.rs:360-495 | The checked chain succeeds exactly when exact arithmetic allows it, and computes the exact plan |
| `Planner.OnlyTwoOverflows` | crates/clip-export/src/planner.rs:360-495 | The only arithmetic-overflow errors are the track-count product and the bitrate conversion, each under its exact condition |
| `Planner.BothOverflowsReachable` | crates/clip-export/src/planner.rs:398-471 | Both overflow errors do occur, for requests within their field widths |
| `Planner.PlanSpendsTarget` | crates/clip-export/src/planner.rs:360-495 | Reserve, audio and video budget spend the target exactly; both roundings up are the tightest possible; the bitrate is the largest whose whole duration fits the budget; the rung is at most as wide, high and fast as the source, not empty, and every rung before it exceeds the source or is empty |
| `Planner.SenselessRequestsAreRefused` | crates/clip-export/src/planner.rs:360-380 | A zero duration, a zero target and a senseless reserve ratio are refused, each if and only if it is the first of them that holds |
| `Planner.BudgetRefusalsExactlyWhen` | crates/clip-export/src/planner.rs:381-470 | A request that makes sense is refused for its reserve, its audio or its bitrate, each under its exact condition and with the exact amounts |
| `Planner.ReserveAndAudioAreLeast` | crates/clip-export/src/planner.rs:381-425 | Reserve and audio are the least whole bytes that hold the ratio of the target and the audio bits asked for |
| `Planner.BitrateMonotone` | crates/clip-export/src/planner.rs:360-495 | When both plans succeed, a larger target never plans a lower bitrate |
| `Planner.LargerTargetStillPlans` | crates/clip-export/src/planner.rs:360-495 | Raising the target of an accepted request can only fail by a bitrate beyond 64 bits |
| `Planner.SelectedRungIsFirst` | crates/clip-export/src/planner.rs:353-358 | The selected rung is at most as wide, high and fast as the source, and not empty; every earlier rung, and every rung when none is selected, exceeds the source in some dimension or is empty |
| `ExportProbe.ValidatePacketReport` | crates/encoder-ffmpeg/src/executor.rs:723-747 | The one-pass check over a map of last timestamps accepts exactly when there is a packet and every earlier timestamp of a stream is at most every later one, and names an offending stream otherwise |
| `ExportProbe.SecondsRoundTrip` | crates/encoder-ffmpeg/src/executor.rs:759-776 | Microseconds printed as decimal seconds parse back, and digits after the sixth decimal are ignored |
| `ExportProbe.SecondsParseExactlyWhen` | crates/encoder-ffmpeg/src/executor.rs:759-776 | Seconds parse if and only if there are digits before the point, only digits among the first six places behind it, and 64 bits hold the microseconds; missing places count as zeros |
| `ExportProbe.MatchesExactlyWhen` | crates/encoder-ffmpeg/src/executor.rs:575-684 | An output matches its plan if and only if it is an MP4 with one video stream, H.264 of the planned shape and rate, as many audio streams as planned, all AAC with a rate and channels, and a duration within half a second of the plan |
| `ExportPaths.PathsApart` | crates/encoder-ffmpeg/src/executor.rs:420-424 | A destination is never a staged file or a lock, and different destinations have different staged files and locks |
| `ExportPaths.Mp4ExtensionExactlyWhen` | crates/encoder-ffmpeg/src/lib.rs:170-174 | A destination has the extension if and only if a name, a dot and "mp4" in any case end it |
| `StagedExport.Exporter.PrepareStage` | crates/encoder-ffmpeg/src/executor.rs:391-418 | It succeeds exactly when the lock did not exist and could be made and no old stage resists removal; then the lock is there and the old stage is gone, and a failure gives the lock back |
| `StagedExport.Exporter.PublishWithoutReplacement` | crates/encoder-ffmpeg/src/executor.rs:353-389 | Publishing moves the stage to a destination that did not exist, or leaves all files as they were, except when unlinking and rolling back both fail |
| `StagedExport.ChecksPassExactlyWhen` | crates/encoder-ffmpeg/src/executor.rs:160-246 | The checks pass if and only if all four processes ran to a good end, none was stopped, the two probes were not cut short, the size is positive and within the target, and report and packets are right |
| `StagedExport.JobIsValidExactlyWhen` | crates/encoder-ffmpeg/src/lib.rs:87-123 | A job is taken on if and only if its source is named, apart from destination and stage, its destination is an MP4 file, and its plan asks for a bitrate, a picture and, with audio tracks, an audio bitrate |
| `StagedExport.Exporter.ExportWithProgress` | crates/encoder-ffmpeg/src/executor.rs:135-284 | It succeeds if and only if the job is valid, the source usable and not the stage in disguise, every look at destination and directories succeeds, destination and lock are free, every check passed, nobody cancelled, and publishing went well; then a file that passed every check, within the target size, is at a destination that did not exist; on failure the destination is as it was unless publishing half failed, in which case it is there; no other file is touched; a lock this call took is released and one it did not take stays; the reason given for a failure is true; progress is complete exactly on success |
| `StagedExport.HalfPublishedExport` | crates/encoder-ffmpeg/src/executor.rs:353-389 | A concrete export that reports failure and leaves its destination behind |
| `ExportRuns.InterleavedExportsAreSafe` | crates/encoder-ffmpeg/src/executor.rs:135-418 | In every interleaving of the single file operations of exporters and other programs, no two exports hold one stage's lock, and a destination is published by one export at most and holds what that export published |
| `ExportRuns.PublishedFileWasChecked` | crates/encoder-ffmpeg/src/executor.rs:135-253 | What a finished export published, by link or by move, is at its destination and is the very file that its probe, packet and decode checks read, in every interleaving |
| `ExportRuns.ExistingClipsAreKept` | crates/encoder-ffmpeg/src/executor.rs:353-418 | No interleaving of exports changes or removes a clip that existed before and is not being linked |
| `ExportRuns.PublishingNeedsEverything` | crates/encoder-ffmpeg/src/executor.rs:135-418 | In every interleaving, an export that published had every one of its operations succeed and every check pass |
| `ExportRuns.UndisturbedExportPublishes` | crates/encoder-ffmpeg/src/executor.rs:135-418 | Alone, with destination and lock free, an export publishes by link or by move what was encoded, and leaves neither stage nor lock |
| `ExportRuns.GivenUpExportLeavesNothing` | crates/encoder-ffmpeg/src/executor.rs:256-284 | Alone, an export that is given up after encoding leaves no file behind |
| `ExportRuns.UnlinkFailureIsRolledBack` | crates/encoder-ffmpeg/src/executor.rs:374-389 | Alone, an export whose stage cannot be unlinked leaves no file behind when its link is rolled back, and its destination when it is not |
| `Resampler.ConvertChannels` | crates/audio-sync/src/lib.rs:299-322 | Every frame is converted to the target channels: the mean for mono, else the matching or last source channel; no other sample is read |
| `Resampler.ConversionKeepsChannels` | crates/audio-sync/src/lib.rs:299-322 | A converted sample is that of the same channel where there is one, of the last channel beyond, and for mono a mean in which every channel weighs the same, half the sum for two |
| `Resampler.MonoIsBetween` | crates/audio-sync/src/lib.rs:299-322 | A mono sample lies between any bounds of its frame |
| `Resampler.ResampleLinear` | crates/audio-sync/src/lib.rs:324-352 | The nested loops return output_frames * channels samples, each the interpolation of its two source samples; equal rates and single frames are returned as they are |
| `Resampler.SourceIndexInBounds` | crates/audio-sync/src/lib.rs:335-347 | Every source index is within the input |
| `Resampler.InterpolationIsBetween` | crates/audio-sync/src/lib.rs:335-350 | Every output sample lies between the two source samples around it |
| `Resampler.LinesAreReproduced` | crates/audio-sync/src/lib.rs:335-350 | A signal that is linear in time is reproduced exactly, held at its end |
| `Resampler.DurationKeptExactlyWhen` | crates/audio-sync/src/lib.rs:324-334 | The output keeps the duration to within half a source frame if and only if the rates agree, the input is empty, it is a single frame and the rates are close enough, or it is longer and the frame count was not raised to one |
| `Resampler.SingleFrameLosesDuration` | crates/audio-sync/src/lib.rs:329-331 | A concrete single-frame input whose resampled duration is off by more than that |
| `Resampler.NoWideOverflow` | crates/audio-sync/src/lib.rs:332-334 | The frame-count arithmetic fits 64 bits |
| `MediaClock.MillisecondsTruncate` | crates/media-types/src/time_base.rs:43-47 | Ticks become milliseconds truncated toward zero, before the origin as after it |
| `AudioSync.AudioSynchronizer.Process` | crates/audio-sync/src/lib.rs:154-241 | Processing a frame has the state, timestamp, drift and counters of the specification; every sample returned is the channel conversion, then the resampling, then the gain of the samples given |
| `AudioSync.RunKeepsInvariant` | crates/audio-sync/src/lib.rs:135-241 | Over every run of frames and resets, by emitted stamps, ticks and returned samples alone: the first frame of a source is where the source before it ended, its stamp and the milliseconds of its samples, at least one, or at zero on a new timeline; every later frame is as far past that as its ticks are from those of the first frame of its source, but never before the frame that came last; all counters are the totals, and the drifts are those, of the accepted frames |
| `AudioSync.AcceptedExactlyWhen` | crates/audio-sync/src/lib.rs:154-200 | Over every run, a frame is accepted if and only if it is complete, has the time base of its source, and from the third of a source on is within the configured jump of the one before; a refusal leaves the timeline alone |
| `AudioSync.TimestampsNeverGoBack` | crates/audio-sync/src/lib.rs:154-241 | Stamps never go back on one timeline, across source restarts too, in every run |
| `AudioSync.RestartIsContiguous` | crates/audio-sync/src/lib.rs:145-241 | After a source restart the next valid frame is accepted whatever its ticks, exactly where the last one ended by its stamp and returned samples, with no drift |
| `AudioSync.RestartAfterTwoFrames` | crates/audio-sync/src/lib.rs:464-500 | Two frames of twenty milliseconds, a restart and one more at tick zero: stamped 0, 20 and 40 |
| `CaptureRing.CaptureSession.CopyFrame` | crates/capture-windows/src/session.rs:741-763 | A frame fills the texture at the cursor, registers a new handle and evicts the oldest, as specified |
| `CaptureRing.CaptureSession.InsertStaged` | crates/capture-windows/src/session.rs:141-157 | The eviction loop keeps the newest eight handles |
| `CaptureRing.FrameKeepsInvariant` | crates/capture-windows/src/session.rs:141-164 | After every frame handle order is increasing, equals the keys of the map, holds at most eight, and names consecutive textures of the ring |
| `CaptureRing.ResolvableHandles` | crates/capture-windows/src/session.rs:141-164 | Over every run of frames, resizes and releases, the resolvable handles are the last eight published since the registry was cleared, and no two name one texture |
| `CaptureRing.HandlesResolveInTurn` | crates/capture-windows/src/session.rs:120-164 | Over every run, each of them resolves to the texture whose turn it was, of the pool that the last successful resize brought |
| `CaptureShaping.FrameSource.NextEvent` | crates/capture-windows/src/session.rs:381-457 | The receive loop skips exactly the frames that are too early and returns the first event that is passed on, or the end of the stream when it was told to stop or the sender is gone with nothing queued |
| `CaptureShaping.EventsAreTold` | crates/capture-windows/src/session.rs:381-457 | A frame in time is told by its stamp, one too early not at all, a backward jump as an error that changes nothing, and every other event as what it is |
| `CaptureShaping.EventsMoveByFrames` | crates/capture-windows/src/session.rs:381-457 | After any events the shaper is where their frames alone have moved it |
| `CaptureShaping.DeliveriesAreSpaced` | crates/capture-windows/src/session.rs:399-441 | Delivered timestamps never go back and are at least the target interval apart |
| `CaptureShaping.DeliveredExactlyWhen` | crates/capture-windows/src/session.rs:427-441 | A waiting stream delivers a frame exactly when its stamp has passed the last delivery by the interval |
| `CaptureShaping.ReachedStates` | crates/capture-windows/src/session.rs:399-441 | In every run a thinned stream that has accepted a stamp is waiting: it has seen nothing since its last delivery that is an interval later |
| `CaptureShaping.ForwardJumpStalls` | crates/capture-windows/src/session.rs:401-441 | Over every run of a thinned stream, a forward jump and the frames after it deliver nothing until the restarted clock has passed the last delivery by the interval, and the first frame stamped that late is delivered |
| `CaptureShaping.ForwardJumpFreezes` | crates/capture-windows/src/session.rs:401-441 | Over every run of a stream that is not thinned, a forward jump and the frames after it are all delivered with the old maximum as their time, until the restarted clock has passed it |
| `CaptureShaping.StallLastsAsLongAsTheSession` | crates/capture-windows/src/session.rs:401-441 | After n minutes of frames and a pause just over a minute, the frame after the jump is dropped if and only if it comes less than n minutes and 15 ms after it |
| `CaptureShaping.HourLongStall` | crates/capture-windows/src/session.rs:401-441 | The instance of an hour, from the start: a frame fifty-nine minutes and more after the pause is dropped |
| `CaptureShaping.FrozenMinute` | crates/capture-windows/src/session.rs:401-441 | A concrete stream at 120 frames a second, from the start: two frames after a pause are delivered with the time of the last one before it |
| `Chords.NormalizeChord` | crates/configuration/src/chords.rs:56-95 | The token loop computes the normal form of the input or its error |
| `Chords.NormalizedIffDenotes` | crates/configuration/src/chords.rs:30-95 | Parsing succeeds on exactly the inputs whose tokens are some modifiers, once each and in any order, and one valid key; the result renders that chord |
| `Chords.RefusedExactlyWhen` | crates/configuration/src/chords.rs:56-95 | An input is refused as empty exactly when it is blank, else for its first token that is empty, a modifier once more or a second key, else for having no key or one that does not exist |
| `Chords.NormalizeIdempotent` | crates/configuration/src/chords.rs:56-95 | Normalizing twice is normalizing once |
| `Chords.FullChord` | crates/configuration/src/chords.rs:85-95 | Modifiers are written in the order CTRL, ALT, SHIFT, WIN, the key last |
| `Chords.ValidKeyExactlyWhen` | crates/configuration/src/chords.rs:36-54 | The keys are one letter or digit, F with a number from 1 to 24, and eight names |
| `Chords.NormalizeCanonical` | crates/configuration/src/chords.rs:56-95 | Two valid inputs have one normal form exactly when they denote the same modifiers and the same key token, whatever their order, case and spacing |
| `Chords.NativeOfDenoted` | crates/hotkeys/src/lib.rs:345-405 | Every chord that parses can be registered, with its own modifiers and the code of its key |
| `Chords.KeyCodes` | crates/hotkeys/src/lib.rs:372-405 | Letters and digits have their own codes, F1 to F24 those from 0x70 on, and each named key its code |
| `Chords.OneHotkeyOneFormExactlyWhen` | crates/configuration/src/validate.rs:240-268 | Two inputs have one normal form, by which duplicates are found, if and only if they register one hotkey and write its function key with as many leading zeros |
| `Chords.LeadingZeroHidesDuplicate` | crates/configuration/src/validate.rs:240-268 | F1 and F01 register one hotkey and have two normal forms |

## Left out

- Paths are compared as written: the case-insensitive comparison of paths on Windows is not modelled.
- A clip path is its components below the output directory; paths elsewhere, with `..`, or deeper than one game directory are all represented by paths of other lengths, and canonicalization appears only as a look that may fail.
- The output directory cannot change during a session; `set_output_directory`, `set_storage_policy` and the command bridge of the library worker add single-branch members.
- The catalog is the saved rows: JSON, versions, migration and its temporary file are not modelled, only whether a write succeeds.
- Within one library call the outcome of looking at a path does not change, and no other program changes the disk; a listing may name files that are gone.
- Sums of file sizes are unbounded; the code sums into 64 bits.
- An open or read that fails half way through a movie file is not modelled; the code treats it like a file without a duration.
- LibraryScan.ScanAgreesWithDisk: takes an index with distinct paths, because a loaded catalog with duplicates keeps them.
- ClipLibrary.ClipLibrary.Delete: requires fewer files than 32-bit numbers, because the counter of the staged name saturates and the search would not end otherwise; so do the scan and the quota, which delete.
- ClipNaming.Controller.NextClipPath: requires fewer taken paths than 32-bit numbers, because the counter saturates and the loop would not end otherwise; cleaning of source names, the game-name tables and date formatting are parameters.
- The controller's state machine and its engine are not part of this model, so reserved paths are not related to saves in flight.
- FallbackSpec.RunKeepsInvariant: the frame and failure counters are unbounded, where the code adds without saturating; the epoch saturates as in the code.
- Draining the fallback encoder reaches only the active backend and changes nothing that is modelled.
- The bitrate suggestion, GPU frame contexts, codec extradata, packets and error messages of encoders are not modelled; backends are arbitrary answers.
- Save durations are wall-clock readings and are left out of the save metrics; a poisoned metrics lock and the discarding drop of the worker are left out too.
- LibraryRuns.ProtectedClipSurvives: takes a catalog that can be read at every opening, because the code starts with an empty index otherwise; an opening whose cleanup fails opens nothing, and is a step only through the later opening that succeeds.
- SaveWorker.SaveWorker.Shutdown: assumes that muxer calls return, without a panic that ends the worker thread, and that the thread is scheduled.
- The worker claim of the export queue and its read-only accessors other than the state list are not modelled.
- The probe report is a parsed value; JSON, frame-rate fractions, packet lines and process arguments are not modelled, and a run of the encoder is an arbitrary result with an arbitrary staged file.
- ExportRuns: a step is one file operation or one process; other programs may create files but not remove or replace what an export holds, and create no staged files or locks.
- Audio samples are real numbers: rounding to 32-bit floats and decoding of sample bytes are not modelled.
- Timeline subtraction and rescaling are unbounded, where the code uses 64-bit integers.
- Concurrent frame handlers, the wrap of the handle counter and all Windows capture calls are left out; frames of one session arrive one after another.
- Configuration loading and migration, log rotation and redaction, the desktop shell and the user interface are left out.
