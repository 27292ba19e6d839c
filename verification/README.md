# Homesink, modelled and proved

Homesink keeps a household's photos and videos on one drive. A client uploads a file, the backend checks it, places it
under `Album/YYYY/MM/filename`, and records it in SQLite. This project models the backend's stateful core, the path
logic it rests on, and one loop of the Android client.

| modules | what they are |
|---|---|
| `Text`, `Sanitize`, `SanitizeLaws`, `NameLaws`, `SuffixLaws`, `Paths`, `PathLaws` | names: the sanitising pipelines and their loops, the rules they come to, the hash suffix, path printing, cleaning and containment |
| `Disk`, `Placer`, `PlacementRuns`, `Crashes` | a file system of names, inodes and contents; the placer's methods on it; whole runs with failures and crashes |
| `Schema`, `Folds`, `Listings`, `Relational`, `AlbumStats` | the rows, order-free sums and maxima, sorted lists, the SQLite store as transactions on tables, and its counter cache |
| `MemStore`, `Conformance` | the in-memory store as a class of maps, and its refinement of the tables |
| `JobQueue` | the claim order, and a pool of workers that may crash |
| `RateLimiter`, `ConcurrentLimiter`, `PairingProtocol`, `Pairer`, `CodeDraws` | the failure counter, alone and under overlapping calls, interleaved pairing, the two calls on the store, and the drawing of codes |
| `Migrations`, `Retention`, `Backups`, `Publish` | forward-only migrations, keeping the newest snapshots, daily backups, and the client's compare-and-set loop |

Classes stand for what the source updates in place, with its loops as loops; a loop over a Go map visits the keys in an
arbitrary order. Each method is proved against functions on values, and the theorems are about those functions, about
whole runs of them, or about step machines that interleave them.

Outside the model, and given to it as parameters: Unicode normalisation and grapheme segmentation (assumed only: each
cluster is a non-empty prefix of the rest, and, where a result says ASCII, both leave ASCII alone); the calendar (a
placement comes with its year and month, a backup with its day); SHA-256; random draws; the clock; and whether a call
of the operating system fails. Sizes and times are unbounded integers. One transaction, one rename and one link are
one step each.

Where the code and what is written about it part, the model follows the code:

- `SanitizeAlbum` is called idempotent (sanitize.go:57-59). It is not: `SanitizeAlbumIsNotIdempotent` has an input,
  `SanitizeAlbumIdempotence` the exact condition on ASCII, and `SanitizeAlbumSettlesExactly` that on any script where NFC
  leaves the first result alone.
- `SuffixedFilename` (paths.go:66-69) does not always end in the suffix: on names of 236 to 245 bytes it is cut, and
  two blobs can then be given one name. `SuffixSurvives`, `SuffixSeparates` and `SuffixDiffers` say exactly when;
  `SharedSuffixedNameExists` has an input.
- `SanitizeFilename` can return a bare ".", exactly in the case `SanitizeFilenameIsComponent` states, and the suffixed
  name can come out empty, exactly when `SuffixedNameIsEmptyExactlyWhen` says; `BareDotExists` and
  `EmptySuffixedNameExists` have inputs. Neither happens on ASCII. Every row still names its bytes then
  (`RowsNameTheirBytes`), but a bare "." lands one level up, where the month's directory would be.
- `RequeueRunningJobs` is said to let a job that kills the process reach its maximum (jobs.go:222-223). Crashes alone
  never do that (`CrashesNeverExhaust` has the run): a job is given up exactly when `GivenUpExactlyWhen` says, on a
  failure reported with the attempts used up.
- The failure sweep is said to drop only records that can affect no one (pairing.go:395). It can forget a partial count,
  exactly when `SweepForgetsOldCounts` says, as in `SweepForgivesExists`, though never a lockout: `SweepKeepsLockouts`.
- An address is said to be refused once it has burned its attempts (pairing.go:231-232). Overlapping redemptions have up
  to n - 1 more (`OverlappingBoundIsReached`). And because the clock is read before the lock is taken (pairing.go:341-342,
  361-363), a late reading cuts a lockout short, exactly when `ShortensExactlyWhen` says; `LateReadingExists` has a run
  that passes the bound by it. `OverlappingWindowBound` says what holds for readings in order, and what a lag costs.
- MemStore is said to reproduce the SQLite store's observable behaviour (memstore.go:23-25). It checks neither the month
  nor the device, starts the latest capture at 0, and takes a burn at instant 0 for none. The two differ exactly
  where `InsertItemAgreesExactly`, `AlbumStatAgreesExactly`, `StatListsAgreeExactly` and `MarkStaysSimExactly` say;
  every other operation of the model agrees always, and `AnswersPart` has a run on which the answers differ.
- A placement can fail after its bytes are in place, when no item id can be drawn (place.go:116-119).

## Model

| member | source | states |
|---|---|---|
| PlacementRuns.RowsNameTheirBytes | backend/internal/library/place.go:95-131 | In every state of every run of staging, placing, failing, persisting, giving up and crashing, every item path and every blob canonical path resolves inside the root to a file holding exactly that row's hash |
| PlacementRuns.PlacedForGood | backend/internal/library/place.go:137-166 | A persisted placement is answered with the very same item by every later call for the same hash and request, base name or suffixed, and that call changes neither disk nor store |
| PlacementRuns.PlacedUsesUpload | backend/internal/library/place.go:192-202 | A new placement leaves no staged upload of its hash behind, rename being a no-op or not |
| PlacementRuns.ItemsStay | backend/internal/store/items.go:22-41 | No step of a run without deletion loses or changes a recorded item |
| PlacementRuns.FreshTargetIsNew | backend/internal/library/place.go:137-166 | A path the collision rule finds free is not the file of any item that is recorded or about to be |
| PlacementRuns.SuffixedOnlyIfTaken | backend/internal/library/place.go:137-166 | In any run a new item stands under its sanitised name, unless an item with other bytes already does and its file is there; only then it is under the suffixed name |
| PlacementRuns.PersistedExactly | backend/internal/library/place.go:95-131 | Persisting records the item at its path and, if its bytes were new, the blob, unless the item id is taken, and then nothing; all else is as it was |
| PlacementRuns.StepsChangeLittle | backend/internal/library/place.go:95-131 | In any run only persisting changes the catalogue, only staging and placing change the disk, and after a crash nothing is pending |
| PlacementRuns.PublishedKeeps | backend/internal/library/place.go:192-209 | Publishing puts the bytes at the path and leaves every other placed file and every other staged upload as it was |
| PlacementRuns.UntouchedKeeps | backend/internal/library/place.go:231-246 | A failed placement, a leftover temporary link included, disturbs no placed file and no staged upload |
| PlacementRuns.NoItemKeepsInv | backend/internal/library/place.go:116-119 | A call that fails for want of an item id, after the bytes are in place, still leaves every row naming its bytes |
| PlacementRuns.RunInv | backend/internal/library/place.go:95-131 | The invariant behind these results holds in every state of every run |
| Placer.Placer.Place | backend/internal/library/place.go:95-131 | Answers with what is recorded at the base path for these bytes, or a new item there if it is free; only if other bytes stand there, the same for the suffixed path; a collision exactly if others stand at both. A new item has the placement's album, month, capture and offset, and its bytes are published at its path; on an error no file is touched, except that a missing item id fails it after publishing. A reliable system lets it succeed exactly when the stated conditions hold. A success leaves no temporary link, unless looking at a path fails that has the canonical inode already |
| Placer.Placer.ResolveCollision | backend/internal/library/place.go:137-166 | Free base path, else the recorded item of the same bytes, else free suffixed path, else its recorded item of the same bytes, else nowhere, for every catalogue |
| Placer.ChoiceExactly | backend/internal/library/place.go:137-166 | Path, item or collision, in terms of the sanitised and the suffixed path and what stands there: the sanitised name exactly if its path is free |
| Placer.Placer.ItemAt | backend/internal/library/place.go:169-178 | Tells a free path from a store that failed |
| Placer.Placer.Install | backend/internal/library/place.go:192-209 | Takes the staged upload if there is one, else links the canonical file; the path then has the source's inode and nothing else has changed |
| Placer.Placer.LinkCanonical | backend/internal/library/place.go:211-246 | Publishes a second name for the canonical file, does nothing when the path is that file or directory already, and removes the temporary link when the rename fails |
| Placer.ChosenIsBuilt | backend/internal/library/place.go:108-111 | Every path the collision rule picks passes the containment check and lies below the root and outside the staging directory |
| Placer.StagingNames | backend/internal/library/place.go:32-43 | What staged uploads and temporary links are called |
| Placer.AsciiLandsFourDeep | backend/internal/library/place.go:137-166 | On ASCII every chosen path lands exactly four segments below the root, suffixed or not |
| PlacementRuns.ItemsDoNotNest | backend/internal/library/place.go:95-131 | In every state of every run two items lie at different places and none inside another |
| Crashes.CrashLeavesAnOutcome | backend/internal/library/place.go:192-246 | Whatever call on the file system a crash follows, the disk is one after a failed placement or one after a published one |
| Crashes.CrashIsACall | backend/internal/library/place.go:192-246 | So a crash in the middle of Place is some call of Place, and then the crash |
| Disk.LinkThenRename | backend/internal/library/place.go:227-245 | Link and rename over a destination leaves the temporary name behind exactly when the destination already was a link to that file, which is why the code looks first |
| Sanitize.ValidHashLoop | backend/internal/library/place.go:299-310 | The loop accepts exactly 64 lower-case hex digits |
| SanitizeLaws.SanitizeAlbumIsClean | backend/internal/library/sanitize.go:67-82 | From any input: not empty, no forbidden character or C0 control, white space only as single inner spaces, no dot or space at an edge; on ASCII at most 64 characters |
| SanitizeLaws.SanitizeAlbumIdempotence | backend/internal/library/sanitize.go:57-82 | On ASCII a second application changes nothing unless, and only unless, the trimmed name has more than 64 characters of which the first 64 are a reserved name followed by dots and spaces; the second application is always a fixed point |
| SanitizeLaws.SanitizeAlbumSettlesExactly | backend/internal/library/sanitize.go:57-82 | For any script: if NFC leaves the first result alone, a second application changes nothing if and only if that result is no reserved name and has at most 64 clusters |
| SanitizeLaws.SanitizeAlbumIsNotIdempotent | backend/internal/library/sanitize.go:57-82 | A concrete input for which the documented idempotence fails |
| SanitizeLaws.SanitizeTidyAlbum | backend/internal/library/sanitize.go:67-82 | For any script: a tidy, NFC-stable name within the cap only goes through the reserved-name step |
| NameLaws.CharacterRules | backend/internal/library/sanitize.go:120-153 | Control and forbidden characters do not count wherever they are, other white space counts as a space and a run of spaces as one, dots and spaces at either end do not count, and a tidy name is left alone |
| NameLaws.AlbumExactly | backend/internal/library/sanitize.go:67-82 | For any script: what the rules leave of the NFC form, with an underscore after a device name, Unsortiert for nothing, and of more than 64 clusters the first 64 |
| NameLaws.FilenameExactly | backend/internal/library/sanitize.go:93-110 | For any script: what the rules leave of the last segment, with an underscore between a device name and the extension, datei for nothing, and over 245 bytes a stem cut for its extension |
| NameLaws.LastSegmentExactly | backend/internal/library/sanitize.go:112-117 | The last segment is what follows the last slash or backslash |
| NameLaws.ReservedExactly | backend/internal/library/sanitize.go:156-161 | Reserved are the 22 device names in any mixture of capitals and small letters |
| NameLaws.SplitExtExactly | backend/internal/library/sanitize.go:167-173 | A name is parted before its last dot, unless that is its first character or there is none |
| NameLaws.CollapseGap | backend/internal/library/sanitize.go:132-148 | White space in the middle parts what is on either side of it by one space |
| NameLaws.WhiteSpace | backend/internal/library/sanitize.go:137-137 | White space is 25 characters |
| NameLaws.ClustersAreRead | backend/internal/library/sanitize.go:192-212 | Clusters are read one after the other, each in the state the one before left, from -1 on |
| SanitizeLaws.SanitizeFilenameIsComponent | backend/internal/library/sanitize.go:93-110 | From any input: not empty, no separator, at most 245 bytes, never ".."; a bare "." exactly in one described case, so a path component if and only if that case does not hold |
| SanitizeLaws.FitFilenameWithinCap | backend/internal/library/sanitize.go:178-188 | Never passes 245 bytes, whatever stem and extension |
| SanitizeLaws.TruncateGraphemesKeepsClusters | backend/internal/library/sanitize.go:192-212 | Keeps a prefix of whole clusters: all of them, or exactly the maximum |
| SanitizeLaws.TruncateGraphemeBytesIsLongest | backend/internal/library/sanitize.go:215-237 | Keeps the longest cluster-aligned prefix within the byte cap |
| SanitizeLaws.FitIsLongest | backend/internal/library/sanitize.go:215-237 | Any longer run of clusters is over the budget |
| Sanitize.CollapseWhitespaceLoop | backend/internal/library/sanitize.go:132-148 | The one-pass loop writes exactly the white-space separated fields joined by single spaces |
| Sanitize.TruncateGraphemesLoop | backend/internal/library/sanitize.go:192-212 | The loop computes the cluster-wise truncation |
| Sanitize.TruncateGraphemeBytesLoop | backend/internal/library/sanitize.go:215-237 | The loop computes the byte-capped, cluster-wise truncation |
| SanitizeLaws.SuffixSurvives | backend/internal/library/paths.go:70-76 | The whole suffix survives if and only if the name has at most 235 bytes; then the result differs from the name and separates hashes exactly by their first eight digits |
| NameLaws.SuffixExactly | backend/internal/library/paths.go:70-76 | Two underscores and the first eight digits of the hash in front of the extension if that fits into 245 bytes, else cut before the extension; a shorter hash leaves the name alone |
| SanitizeLaws.SuffixSeparates | backend/internal/library/paths.go:70-76 | For 236 to 245 printable ASCII characters: two hashes give different names if and only if they differ in the digits the cut leaves, which from 243 characters on are none |
| SanitizeLaws.SuffixDiffers | backend/internal/library/paths.go:70-76 | The suffixed name is the name itself if and only if the name fills the cap and its stem has nothing to trim |
| SuffixLaws.SuffixedNameIsEmptyExactlyWhen | backend/internal/library/paths.go:70-76 | For any name within the cap and any script: the suffixed name is empty if and only if there is no extension, the suffix does not fit whole, and only dots and spaces fit under the cap; for a name not starting with one of those, if and only if the first cluster of the suffixed name is over the cap |
| SuffixLaws.SuffixedAsciiIsComponent | backend/internal/library/paths.go:70-76 | On ASCII the suffixed name of a sanitised name denotes one entry of its directory, so it is never empty |
| SuffixLaws.BareDotExists | backend/internal/library/sanitize.go:93-110 | A name whose sanitised form is a bare dot |
| SuffixLaws.EmptySuffixedNameExists | backend/internal/library/paths.go:70-76 | A name that sanitising leaves alone and whose suffixed form is empty, for every hash |
| SuffixLaws.SharedSuffixedNameExists | backend/internal/library/paths.go:70-76 | A name for which two hashes with different prefixes give one suffixed name, which is the name itself |
| SanitizeLaws.SuffixedFilenameIsSafe | backend/internal/library/paths.go:70-76 | Suffixing a sanitised name never makes a separator, "." or ".." |
| Paths.SafeAbsIsContainment | backend/internal/library/paths.go:82-100 | Accepts a path if and only if it is not empty, starts with no slash or backslash, and its cleaned join is strictly below the root; and then returns that join |
| PathLaws.CleaningRules | backend/internal/library/paths.go:90-90 | Anywhere in a path an empty segment and a single dot do nothing and a name followed by two dots cancels; at the start two dots take off the last segment of the base, and at the file-system root do nothing |
| PathLaws.SafeAbsByWalk | backend/internal/library/paths.go:82-100 | By a walk along the segments: one that never climbs above the root is accepted exactly if it ends below it, one that climbs exactly if it comes back down by the names it left and goes on |
| PathLaws.ClimbingOut | backend/internal/library/paths.go:82-100 | Two dots and then names lead back in only by the last name of the root, whether at once or after a step down; a step down and up again leads nowhere else |
| PathLaws.StepsUpAlone | backend/internal/library/paths.go:82-100 | Nothing but steps back is never accepted |
| PathLaws.CleanOntoWalks | backend/internal/library/paths.go:90-90 | Cleaning is what the walk leaves of the base and the names it then stands on |
| Paths.RelBetweenClimbs | backend/internal/library/paths.go:92-98 | The relative path starts with ".." exactly when the target is not below the root |
| Paths.JoinRelRoundTrip | backend/internal/library/paths.go:62-64 | Printing and splitting undo each other for slash-free components, so paths are equal exactly when album, year, month and file name are |
| Paths.BuildRelPathIsContained | backend/internal/library/paths.go:43-55 | Always accepted, below the root, and exactly four segments deep unless the file name is the one bare-dot case; always four deep on ASCII |
| Paths.BuiltPathLands | backend/internal/library/paths.go:82-100 | A path built from clean components lands on exactly those components |
| Paths.TargetsDiffer | backend/internal/library/paths.go:62-64 | Two built paths name one file only if they are one path |
| Paths.PathsSortByMonth | backend/internal/library/paths.go:62-64 | For four-digit years, lexical order within an album agrees with year and month order |
| Text.SplitJoin | backend/internal/library/paths.go:62-64 | Splitting what was joined at a separator gives the pieces back |
| Text.JoinSplit | backend/internal/library/paths.go:62-64 | Joining what was split at a separator gives the string back |
| Text.LtByFirstDifference | backend/internal/testutil/memstore.go:369-380 | The order of strings is decided by the first difference, and a proper prefix comes first |
| Paths.PathsReadBack | backend/internal/library/paths.go:62-64 | The printed year and month have four and two digits, and are read back |
| AlbumStats.CountersAlwaysExact | backend/internal/store/stats.go:76-120 | After any sequence of operations, rejected ones included, the stored counters equal the derived aggregate, a row exists exactly for a non-empty group, and the counts add up to the number of items |
| AlbumStats.ExecKeepsSound | backend/internal/store/items.go:22-113 | Every transaction keeps references, unique paths and exact counters |
| AlbumStats.InsertItemKeepsSound | backend/internal/store/items.go:22-41 | The upsert moves the counters as the new item moves the aggregate |
| AlbumStats.DeleteItemKeepsSound | backend/internal/store/items.go:92-113 | The update and prune move the counters as the deletion moves the aggregate, with the latest capture recomputed |
| AlbumStats.GroupsPartition | backend/internal/store/stats.go:42-53 | Every item is counted in exactly one group |
| AlbumStats.BlobsKeepHashAndSize | backend/internal/store/blobs.go:57-119 | No operation changes hash, size or canonical path of a stored blob |
| Conformance.RunFromEmpty | backend/internal/store/conformance_test.go:68-110 | Both stores, started empty, give the same answers, lists in their order included, to any sequence of calls with schema-valid items, non-negative captures, known or empty devices, and a clock that is not 0 when a code is burned |
| Conformance.Run | backend/internal/store/conformance_test.go:68-110 | From any related states, any sequence of calls that fit gets the same answers, one by one, and ends in related states |
| Conformance.Apply | backend/internal/store/conformance_test.go:68-110 | One call that fits gets the same answer from both stores and keeps them related |
| Conformance.InsertItemAgreesExactly | backend/internal/testutil/memstore.go:216-243 | The two answers to an insert agree if and only if the item is schema-valid and its device known or empty, or it is rejected for its keys anyway |
| Conformance.AlbumStatAgreesExactly | backend/internal/testutil/memstore.go:238-240 | The two answers to a counter read agree if and only if the latest capture is not negative |
| Conformance.PlainCallsFit | backend/internal/store/conformance_test.go:68-110 | What a caller can see to is enough for every call of a sequence to fit |
| Conformance.DerivedIsStored | backend/internal/testutil/memstore.go:343-367 | The stored counters are the derived ones, on both sides |
| Conformance.StatListsAgreeExactly | backend/internal/testutil/memstore.go:326-367 | The two lists of counters, stored or derived, are the same row by row if and only if no latest capture is negative |
| Conformance.ItemListIsSame | backend/internal/store/items.go:67-87 | The sorted items of a blob are the ordered query's |
| Conformance.JobListIsSame | backend/internal/store/jobs.go:190-216 | The sorted jobs in a state are the ordered query's |
| Conformance.MarkStaysSimExactly | backend/internal/testutil/memstore.go:644-657 | Burning an unspent code keeps the stores related if and only if the clock does not show 0 |
| Conformance.AnswersPart | backend/internal/testutil/memstore.go:238-240 | Three calls from two empty stores, of which the last is answered differently |
| Conformance.ClaimIsSame | backend/internal/testutil/memstore.go:410-436 | The scan claims the very row the ordered SELECT returns |
| MemStore.MemStore.constructor | backend/internal/testutil/memstore.go:63-76 | Starts empty |
| MemStore.MemStore.InsertBlob | backend/internal/testutil/memstore.go:126-139 | Adds a blob as stored, or says it exists and changes nothing |
| MemStore.MemStore.SetBlobState | backend/internal/testutil/memstore.go:142-150 | Changes the state of a known blob and nothing else |
| MemStore.MemStore.SetBlobStoredHash | backend/internal/testutil/memstore.go:154-166 | Changes stored hash and replacement time of a known blob and nothing else |
| MemStore.MemStore.SetBlobMedia | backend/internal/testutil/memstore.go:169-179 | Changes the media fields of a known blob and nothing else |
| MemStore.MemStore.InsertItem | backend/internal/testutil/memstore.go:216-243 | Adds item, index entry and counter together, or changes nothing; blob, id and path are checked in that order; the counter of its album and month gains one item, the size of its blob, and the later capture |
| MemStore.MemStore.ItemByPath | backend/internal/testutil/memstore.go:246-255 | Finds the item with that path, by the index, exactly when there is one |
| MemStore.MemStore.DeleteItem | backend/internal/testutil/memstore.go:283-313 | Removes item and index entry; the counter of its album and month loses one item and the size of its blob, and goes with the last one; its latest capture is that of the items left, or 0 |
| MemStore.MemStore.ScanLatest | backend/internal/testutil/memstore.go:304-311 | In whatever order the items are visited, finds the greatest capture of the group, or 0 |
| MemStore.MemStore.AlbumStats | backend/internal/testutil/memstore.go:327-339 | Lists every counter row once, by album, then later year, then later month first, in whatever order the map is visited |
| MemStore.MemStore.ItemsByHash | backend/internal/testutil/memstore.go:269-280 | Lists exactly the items of one blob, ids ascending |
| MemStore.MemStore.JobsByState | backend/internal/testutil/memstore.go:498-512 | Lists exactly the jobs in one state, numbers ascending, cut to the limit if there is one |
| Listings.SortedRows | backend/internal/testutil/memstore.go:327-339 | A loop over a map in any order and a sort give the wanted rows, each once, in order |
| Listings.OneOrder | backend/internal/testutil/memstore.go:369-380 | There is only one list of the same rows in order, so a sort and an ORDER BY agree |
| Listings.SortedInOrder | backend/internal/testutil/memstore.go:369-380 | Sorting by a strict total order puts exactly the given elements in order |
| MemStore.MemStore.DeriveAlbumStats | backend/internal/testutil/memstore.go:343-367 | Lists count, summed size and latest capture of every album and month that has items, in the same order |
| MemStore.MemStore.Derive | backend/internal/testutil/memstore.go:346-357 | One pass in any order computes count, size and latest capture of every group |
| MemStore.CountedIsClamped | backend/internal/testutil/memstore.go:356-362 | Counting one more item is the clamped image of the relational aggregate |
| MemStore.MemStore.EnqueueJob | backend/internal/testutil/memstore.go:383-407 | Appends a queued job under the next number; priority 0 means 10 for a thumbnail and 100 for any other |
| MemStore.MemStore.ClaimJob | backend/internal/testutil/memstore.go:410-436 | Claims the queued job that is due with the least priority, then next attempt, then number, and only it; or reports that none is due |
| MemStore.MemStore.ScanForNext | backend/internal/testutil/memstore.go:415-427 | In whatever order the jobs are visited, finds the queued job that is due with the least priority, then next attempt, then number |
| MemStore.MemStore.CompleteJob | backend/internal/testutil/memstore.go:450-462 | Finishes a known job and clears its error |
| MemStore.MemStore.FailJob | backend/internal/testutil/memstore.go:465-484 | Fails or requeues by the attempts used |
| MemStore.MemStore.RequeueRunningJobs | backend/internal/testutil/memstore.go:515-530 | Queues exactly the running jobs again and returns how many |
| MemStore.MemStore.InsertDevice | backend/internal/testutil/memstore.go:533-542 | Adds a device, or says it exists |
| MemStore.MemStore.InsertPairingCode | backend/internal/testutil/memstore.go:621-629 | Adds a code, or says it exists |
| MemStore.MemStore.MarkPairingCodeUsed | backend/internal/testutil/memstore.go:644-657 | Burns an unspent code once |
| MemStore.MemStore.IncrementPairingCodeAttempts | backend/internal/testutil/memstore.go:660-670 | Counts one attempt and returns the new total |
| MemStore.MemStore.DeletePairingCodesBefore | backend/internal/testutil/memstore.go:673-684 | Keeps exactly the codes that expire at the instant or later, and returns how many are gone |
| JobQueue.DrainsInOrder | backend/internal/store/jobs.go:103-132 | Repeated claims at one instant return exactly the queued jobs that are due, each once: lower priority first, then earlier next attempt, then lower number; then not-found, and no other job has changed |
| JobQueue.ClaimTakesNext | backend/internal/store/jobs.go:103-132 | Not-found exactly when no queued job is due; else the one with the least priority, then next attempt, then number becomes running with one more attempt, and only it |
| Relational.NextIsLeast | backend/internal/store/jobs.go:103-132 | The row the ordered SELECT returns is the queued one that is due with the least priority, then next attempt, then number |
| JobQueue.AttemptsAreBudgeted | backend/internal/store/jobs.go:103-176 | In every run of workers, failures and crashes: a job runs exactly when one worker holds it, its attempts are its claims and at most the maximum plus its crash requeues, and all claims together at most the maximum for every job plus all rows requeued |
| JobQueue.GivenUpExactlyWhen | backend/internal/store/jobs.go:148-176 | In every run, a job is failed in a state if and only if some earlier step was a failure reported by the worker holding it with its attempts used up |
| JobQueue.CrashesNeverExhaust | backend/internal/store/jobs.go:218-245 | For every maximum and every n there is a run from the empty queue in which a job crashes the daemon n times and is queued again |
| JobQueue.RunInv | backend/internal/store/jobs.go:68-245 | The books of claims and requeues, and who holds what, stay right in every state of every run |
| RateLimiter.WindowBound | backend/internal/auth/pairing.go:340-405 | In every sequential run with a clock that never runs backwards, any half-open window as long as a lockout, without a success of the address, holds at most maxAttempts of its counted failures, across all three resets |
| RateLimiter.BoundIsReached | backend/internal/auth/pairing.go:360-386 | That bound is reached |
| RateLimiter.LockoutStands | backend/internal/auth/pairing.go:340-356 | Until a lockout ends every redemption of the address is refused, none of it is counted, and nobody else's redemptions or sweeps shorten it |
| RateLimiter.LockoutEnds | backend/internal/auth/pairing.go:351-355 | From its end on the next failure counts as the first |
| RateLimiter.SweepKeepsLockouts | backend/internal/auth/pairing.go:398-405 | A sweep changes no lockout answer at any later instant |
| RateLimiter.SweepForgetsOldCounts | backend/internal/auth/pairing.go:398-405 | It forgets a partial count exactly when the last failure is more than two lockouts old |
| RateLimiter.SweepForgivesExists | backend/internal/auth/pairing.go:395-405 | A timely run in which a sweep turns the failure that would have locked an address out into a first one |
| ConcurrentLimiter.OverlappingWindowBound | backend/internal/auth/pairing.go:340-405 | However redemptions overlap, each reading the clock before it takes the lock: an address with never more than n past their check at once has at most maxAttempts + n - 1 failures in a success-free window as long as a lockout, provided readings never fall in the order in which the lock is taken; if they are used at most a lag late, in windows shorter by two lags |
| ConcurrentLimiter.OverlappingBoundIsReached | backend/internal/auth/pairing.go:340-386 | For every limit and every n, a run with readings in order has that many failures in one window |
| ConcurrentLimiter.ShortensExactlyWhen | backend/internal/auth/pairing.go:360-378 | In every run, counting a failure shortens a lockout if and only if it is the address's own and the reading is earlier than the last one counted for it |
| ConcurrentLimiter.ReadingsDecide | backend/internal/auth/pairing.go:340-386 | The check decides by the reading taken on entering and the count is made for the one taken on failing, however late either is used |
| ConcurrentLimiter.LateReadingExists | backend/internal/auth/pairing.go:360-363 | A run with one reading used late by one instant that puts one failure too many into a window as long as a lockout |
| ConcurrentLimiter.NextKeepsInv | backend/internal/auth/pairing.go:340-405 | Every step, readings used late by the lag included, keeps counts and windows within the bound |
| RateLimiter.RateLimiter.constructor | backend/internal/auth/pairing.go:137-163 | Values that are not positive mean the defaults |
| RateLimiter.RateLimiter.CheckLocked | backend/internal/auth/pairing.go:340-356 | Refuses exactly while the lockout is on, with the milliseconds left, and drops one that has run out |
| RateLimiter.RateLimiter.Failed | backend/internal/auth/pairing.go:360-386 | Forgets every record that is two lockouts old and not locked, counts one more failure or the first, and locks out for one lockout from now exactly if the attempts are used up |
| RateLimiter.RateLimiter.SweepFailures | backend/internal/auth/pairing.go:398-405 | In any order, drops exactly the records whose last failure is more than two lockouts old and whose lockout has ended |
| PairingProtocol.DevicesArePaidFor | backend/internal/auth/pairing.go:173-306 | In every interleaving of issuing and redeeming, lost calls, sweeps and re-issue included, each enrolled device is charged to an inserted code row of its own, so devices never exceed codes |
| PairingProtocol.EveryDeviceWasEarned | backend/internal/auth/pairing.go:233-306 | In any run: a device was enrolled by a call that before had burned the row it is charged to, unspent till then, and before that had found that code unspent and unexpired |
| PairingProtocol.CheckedInTime | backend/internal/auth/pairing.go:263-272 | A call about to burn a code found it unspent and unexpired at the moment of its check |
| PairingProtocol.UnexpiredCodesStay | backend/internal/store/devices.go:243-262 | In every run a code is still stored, as the same row, at any instant up to its expiry |
| PairingProtocol.IssueExactly | backend/internal/auth/pairing.go:176-207 | A sweep takes exactly the codes that expired before the call read the clock; a new code is stored unspent with its expiry; a stored one is left alone and drawn again, three times in all |
| PairingProtocol.RedeemExactly | backend/internal/auth/pairing.go:233-279 | A lookup leaves a code row alone, a late check adds one attempt, and a burn sets its instant once |
| PairingProtocol.ReissueExists | backend/internal/auth/pairing.go:176-279 | Such a run from the empty store: a code is issued, found good, expires, is swept and issued again, and is burned by the call that had checked the old row |
| PairingProtocol.BurnTakesTheReissuedRow | backend/internal/store/devices.go:187-215 | A call whose code was swept and issued again before it burns takes the new row |
| PairingProtocol.NextKeepsInv | backend/internal/auth/pairing.go:173-306 | Every step keeps each burned row in the hands of one call or one device |
| Pairer.Pairer.IssueCode | backend/internal/auth/pairing.go:176-207 | Sweeps expired codes if the store can, then stores the first drawn code that is not stored yet, which is the one it answers with, or stores nothing and says why, a failing store included |
| Pairer.Pairer.Pair | backend/internal/auth/pairing.go:233-306 | Refuses with the time left, counts, burns and enrols as stated, with the answer and the whole new state of store and counters in every case, whichever call on the store fails. An enrolled device has the hash of the token that was handed out, the trimmed platform and the first 64 characters of the trimmed name; nothing else is written but the instant on its code |
| Pairer.Pairer.Enrol | backend/internal/auth/pairing.go:274-305 | The code is burned first, or if that fails nothing changes; a token or id that cannot be drawn, an id that is taken, or an insert that fails leaves it burned and the failure count as it was. The device has the hash of the token that is handed out |
| Pairer.RedeemedByColumns | backend/internal/auth/pairing.go:233-306 | Every answer of a redemption by what is stored for the code, the clock and the lockout, and what becomes of code, devices and counters |
| Pairer.TrimSpaceTrims | backend/internal/auth/pairing.go:238-247 | Trimming takes off exactly the white space at either end |
| Pairer.EnrolsExactlyWhen | backend/internal/auth/pairing.go:233-306 | A device is enrolled if and only if a stored, unspent, unexpired code comes with a name and a platform from an address that is not locked out, a token and an unused device id can be drawn, and the store answers |
| Pairer.IssuesExactlyWhen | backend/internal/auth/pairing.go:185-206 | The call gives up if and only if every draw is a stored code, and issues a code if and only if some draw, all earlier ones being stored codes, is a new one that can be inserted; an issued code comes from one of its own accepted draws |
| Pairer.IssuedByColumns | backend/internal/auth/pairing.go:176-207 | A stored code goes exactly if it had expired and the sweep works; the new one is unspent, without attempts, and expires one time to live later |
| Pairer.SpentUntilIssued | backend/internal/auth/pairing.go:260-279 | Over any sequence of both calls, a spent code enrols no one until it is issued again |
| Pairer.CodesAreSingleUse | backend/internal/auth/pairing.go:260-279 | Over any sequence of both calls, between two calls that enrol a device with one code there is a call that issued it anew |
| Pairer.RedemptionIsAStep | backend/internal/auth/pairing.go:233-306 | A redemption is one step of the limiter's runs, so the window bound applies to it |
| CodeDraws.Uniform | backend/internal/auth/pairing.go:55-72 | For every number of draws and every space, each residue has exactly draws / space accepted draws, and fewer than space are rejected |
| CodeDraws.EveryCodeEquallyLikely | backend/internal/auth/pairing.go:51-72 | Each of the million codes comes from exactly 4294 accepted draws |
| CodeDraws.DrawsAreReads | backend/internal/auth/pairing.go:61-66 | Four octets and draws below 2^32 are one to one |
| CodeDraws.GeneratePairingCode | backend/internal/auth/pairing.go:55-72 | Answers with the first read that fails or is accepted, and with six digits in the latter case |
| CodeDraws.GeneratedFrom | backend/internal/auth/pairing.go:55-72 | The first read below 4,294,000,000 decides; the code is its remainder by a million, in six digits |
| CodeDraws.ValidCodeFormat | backend/internal/auth/pairing.go:82-92 | Accepts exactly the strings printed for the numbers below a million |
| CodeDraws.CodesArePrinted | backend/internal/auth/pairing.go:70-70 | Every six-digit string is printed for the number it reads as |
| Migrations.ForwardOnly | backend/internal/store/migrate.go:17-71 | Whatever binaries are put in front of a database and whatever fails: committed versions strictly increase, the recorded version is the last of them and never falls |
| Migrations.NothingLeft | backend/internal/store/migrate.go:17-19 | After a call that committed all that was pending, a binary whose versions it covers commits nothing |
| Migrations.PassedOverForGood | backend/internal/store/migrate.go:43-48 | A version at or below the recorded one that was not committed never will be |
| Migrations.All | backend/migrations/embed.go:33-62 | Strictly ascending, one migration for every .sql file, with its name and text; fails if and only if a name has no positive version or two share one |
| Migrations.NamesParse | backend/migrations/embed.go:64-74 | A name made from a version, padded or not, parses back to it |
| Migrations.ParsesExactly | backend/migrations/embed.go:64-74 | A version is a positive 64-bit number before the first underscore |
| Migrations.WantedExactly | backend/migrations/embed.go:42-44 | Exactly the files that end in .sql are wanted |
| Migrations.AtoiExactly | backend/migrations/embed.go:69-72 | Exactly the decimal numerals of 64-bit numbers, with or without a sign, are read, for the number they denote |
| Migrations.CommitsExactly | backend/internal/store/migrate.go:32-71 | A call commits exactly the versions newer than the recorded one, up to the first that fails; none if the listing or the recorded version cannot be read, or a backup that is due fails |
| Migrations.AtoiItoa | backend/internal/store/migrate.go:79-110 | The version that is recorded is the one read back |
| Migrations.ItoaIsPlain | backend/internal/store/migrate.go:79-83 | A version is recorded in digits only, without leading zeros |
| Migrations.Database.Migrate | backend/internal/store/migrate.go:32-71 | Commits the pending versions up to the first failure, and reports exactly those; succeeds if and only if the listing and the recorded version can be read, any backup that is due works, and every pending migration does |
| Migrations.Database.ApplyOne | backend/internal/store/migrate.go:74-84 | Runs a migration and records its version together, or does neither |
| Migrations.Database.Filter | backend/internal/store/migrate.go:43-48 | The loop keeps exactly what is newer |
| Backups.NewestDaysAreKept | backend/internal/store/backup.go:33-105 | After any run of backups, failures included, the last having run to its end: exactly the snapshots of the newest days, min(keep, days) of them |
| Backups.JustWrittenSurvives | backend/internal/store/backup.go:52-62 | While the clock does not run backwards the snapshot just written survives |
| Backups.OthersUntouched | backend/internal/store/backup.go:64-88 | A file whose name does not begin with homesink- or does not end in .db, and that is no backup's temporary file, is never touched |
| Backups.PrunedByColumns | backend/internal/store/backup.go:79-105 | What pruning removes is a file named homesink-....db with at least as many such files after it as are kept; what it keeps if nothing fails has fewer |
| Backups.NamesAreLiteral | backend/internal/store/backup.go:14-20 | What a snapshot and its temporary file are called, and that exactly the names with that prefix and ending are taken for snapshots |
| Backups.NamesSortByDay | backend/internal/store/backup.go:14-20 | Names sort exactly as days do, and each names one day |
| Backups.BackupDir.constructor | backend/internal/store/sqlite.go:160-160 | A number that is not positive means seven |
| Backups.BackupDir.Backup | backend/internal/store/backup.go:33-62 | Replaces the day's snapshot by way of a temporary file, then prunes; before the rename nothing but the temporary file changes. Writes exactly when every step up to the rename works and no directory has the name, and reports success exactly when the listing and every removal due work too |
| Backups.BackupDir.PruneBackups | backend/internal/store/backup.go:66-105 | Removes only files that begin with homesink- and end in .db and are not among the newest, all of them unless the listing or a removal fails, and nothing else; a directory that is not there needs nothing. Succeeds exactly when the listing and as many removals as there are snapshots in excess work, and says how many it removed |
| Backups.BackupDir.SnapshotNames | backend/internal/store/backup.go:79-88 | The loop picks out exactly the files, not directories, that begin with homesink- and end in .db |
| Retention.KeptOfKept | backend/internal/store/backup.go:93-103 | Pruning what an unfinished pruning left keeps the same snapshots |
| Retention.KeptIncrementally | backend/internal/store/backup.go:93-103 | Pruning night by night keeps what pruning once at the end would keep |
| Retention.KeptIsFront | backend/internal/store/backup.go:93-97 | What is kept is the front of the list sorted newest first |
| Publish.NeverDowngraded | client/app/src/main/java/de/homesink/app/data/net/Interceptors.kt:236-251 | In every interleaving the published version code never falls from one state to a later one |
| Publish.EndsAtTheMaximum | client/app/src/main/java/de/homesink/app/data/net/Interceptors.kt:243-250 | Once all calls have returned the published release was offered and none offered is newer |
| Publish.OnlyRaised | client/app/src/main/java/de/homesink/app/data/net/Interceptors.kt:243-250 | A step of a run publishes nothing, or the offer of a call under way, and that is strictly newer |
| Publish.RetriesAreOthersWrites | client/app/src/main/java/de/homesink/app/data/net/Interceptors.kt:245-249 | A call retries only because another one's write succeeded since it read; its retries are at most those writes, and those at most the calls started |
| Publish.UpdateAvailability.Publish | client/app/src/main/java/de/homesink/app/data/net/Interceptors.kt:244-250 | The loop ends under any finite interference; what is published then is no older than the offer, is what was there, the offer, or another one, and has replaced what was there only if it is strictly newer |
| Publish.BestIsNewest | client/app/src/main/java/de/homesink/app/data/net/Interceptors.kt:243-250 | The best of some offers is none older than any, and the one already there wins a tie |
| Publish.UpdateAvailability.CompareAndSet | client/app/src/main/java/de/homesink/app/data/net/Interceptors.kt:248-248 | Writes exactly when the value is the one expected |

## Left out

- HTTP routing, middleware, bearer tokens, TLS, configuration, logging: plumbing with little state of its own.
- Token hashing and identifiers: random values come in as parameters, and `hash` is any function from strings to strings.
- Strings that are not valid UTF-8: a string is a sequence of Unicode scalar values with its length in bytes.
- fsync, directory permissions, WAL, busy timeouts: a crash falls between steps, never inside a transaction or a rename.
- Deletion of items within placement runs: after it a canonical path can lack an item, and a placement may then replace that file.
- Uploads in progress: only a complete, verified upload is ever staged, in an inode of its own.
- A library root inside the staging directory, or the reverse: the placer's two directories are assumed to be apart.
- Placer.Placer.Place: on a file system that fails, it may leave a temporary link, as the source does, if looking at the destination fails while it already is the same file, or if the removal after a failed rename fails.
- SanitizeLaws.SanitizeAlbumIdempotence: stated for ASCII, where normalisation and segmentation are known; for other scripts see SanitizeAlbumSettlesExactly, which asks that NFC leave the first result alone.
- Paths.PathsSortByMonth: stated for years 0 to 9999, since a longer year is printed wider.
- server_meta other than the schema version, device lookup and lists, touching and revoking, blob variants: easy members of the same two stores.
- NULL columns other than used_at, original_replaced_at and latest_captured_at_ms: they are held as the zero value that stands for them in Go.
- Job and row numbers are natural numbers, as AUTOINCREMENT hands them out.
- RateLimiter.WindowBound: for redemptions one after the other; for overlapping ones see ConcurrentLimiter.OverlappingWindowBound, which needs the readings in order or loses two lags.
- ConcurrentLimiter.OverlappingWindowBound: a success reads no clock, and is placed at the latest reading the counters have seen.
- Pairer.Pairer.Pair: no other call comes in between; PairingProtocol and ConcurrentLimiter cover that. A store call that fails has no effect.
- SanitizeLaws.SuffixSeparates: stated for printable ASCII, where every character is a cluster; for other scripts SuffixSurvives says when the whole suffix is there.
- SanitizeLaws.SuffixDiffers: stated for printable ASCII, for the same reason.
- CodeDraws.GeneratePairingCode: reads a finite stretch of the random source and says so when that is used up.
- PairingProtocol: expiry times in whole milliseconds, with the time to live given in them.
- Backups.NamesSortByDay: stated for the years 0 to 9999, since a longer year is printed wider.
- Parsing the release header of the client, its token store and interceptors: branches without a property across calls.
- Ingest, sync, scheduling and transcoding: no code of them is in the repository.
