# Jawaka: a verified model

Jawaka is a launcher stack for handheld consoles: a daemon and a launcher in C over an SQLite library, a content
catalog assembled from release defaults and installed contributions, and a small on-screen display process. This
project models the parts of it that are logic rather than plumbing, and proves what those parts are for.

Loops and updates in place are methods, proved against specification functions or predicates; properties of whole
runs, of any order of inputs and of reading back are lemmas about those specifications. Bytes are characters; C
strings are texts without NUL; lengths and counters are unbounded unless a width decides something, and then it is
written out.

- **Catalog merge** (`MergeModel`, `CatalogMerge`, `MergeProofs`, `MergeExtensions`, `MergeConfluence`, `MergeOrder`,
  `MergeSoundness`, `MergeLaws`, `ReportLaws`, `ArtPass`, `ArtPassLaws`, `CatalogOutputs`). Contributions are folded
  into the release catalog in stages. The specification decides about each entry from sets only; the staged loops are
  proved to produce it; from there follow independence of the enumeration order, through the art pass to the rows that
  are written, disjoint claims, and who exactly survives. `qsort` is known only by its contract: a sorted permutation.
- **Canonical bytes** (`CanonicalJson`, `JsonEmitter`, `JsonReader`, `StampReader`, `TreeFraming`). The JSON emitter,
  the hand-ordered stamp writer and the framing under the directory hash, each with a reader for its format and a
  proof that the reader recovers the value. A number is represented by its printed text.
- **Publication** (`PublicationModel`, `InfoOverlay`, `PublicationStore`). A refresh is a sequence of filesystem
  calls, each of which may fail, and each of which adds one state to a history. Readers look at several moments of
  that history; a crash keeps a beginning of it. Of other producers only a whole generation renamed into place first
  is considered; inputs fixed during one refresh, atomic rename, an unlink of the selector that succeeds, and reads
  that do not fail are assumed. SHA-256 is any function to 64 hexadecimal digits: where a collision would matter, the
  statement exhibits it instead of excluding it.
- **Library relocation** (`RelocationModel`, `RelocationProofs`, `RelocationLaws`, `RelocationLibrary`). The operation
  state machine over the game rows, with reservations, generations and repeated replies. Each call is one atomic step
  on one connection; NULL and the empty text are one value.
- **Content graph** (`HashIndex`, `ContentModel`, `ContentLaws`, `ContentInspect`). The open-addressing index and the
  depth-first walk over nested descriptors. Resolving a reference, reading a file and parsing a descriptor are
  parameters, fixed during one inspection; a parser is what it names, in order, and whether it ends well.
- **On-screen display** (`OsdView`, `OsdClient`, `OsdLaws`). The one-slot view against two layers, with its 64-bit
  clock; and the daemon's side of the PICO-8 exit prompt, over a display process that may answer late, lose a reply,
  or exit.
- **Text and lookup** (`TitleOrder`, `TitleLaws`, `Utf8`, `ScrapedText`, `TextLaws`, `FitText`, `ArtLookup`,
  `ArtLaws`, `TranslationTable`, with `Wrappers`, `CStrings` and `Sorting` below all). Natural title order, entity
  decoding in place, fitting at UTF-8 boundaries, art by hash chain and rank, and the compiled translation table from
  compiler to lookup.

The modules whose names end in `Laws` state what the specifications mean in the fields, paths and texts themselves,
without the functions the specifications are written in.

Where the code and what is said about it differ, the model follows the code:

- Added alternates are listed in the order of the contributors (`internal/catalog/merge.c:625-631`), so the merged
  catalogs of two enumeration orders are equal only up to that order; `MergeOrder.OrderShows` has a release and two
  contributors that show it, and `MergeOrder.OrderIrrelevantIff` says for which contributors every order gives the
  identical catalog.
- A move replaces a hidden row that sits at its destination (`internal/db/relocation.c:344-346`), so a revert restores
  `hidden_roms` exactly when there was none; `RelocationProofs.PrepareCommitRevert` states the condition on the
  request.
- An existing generation is compared through a read limited to 8 MiB (`internal/catalog/effective.c:101-103`), so an
  identical directory with a larger stamp is reported as a digest conflict; `PublicationStore.ReuseOrConflict` states
  exactly when. The same limit holds for readers: a refresh publishes such a generation, and every reader then answers
  that its stamp is missing; `PublicationModel.ReaderFindsPublished` has that case.
- `strtoul` takes one more `0x` (`internal/core/scraped_text.h:82`), so `&#x0x41;` decodes to `A`;
  `ScrapedText.TwoPrefixes` is that text, and `ScrapedText.PlainUnlessPrefixed` says exactly which references are read
  as the digits they show.
- The decoder's comment says that decoded output is written past the read cursor
  (`internal/core/scraped_text.h:48-49`); it is written behind it.
- The table is said to be sorted by hash, then by key (`internal/i18n/i18n.c:24`); ties are sorted by the key's offset
  (`tools/i18n-compile.py:174`). The lookup needs only the hashes in order.

## Model

| member | source | states |
|---|---|---|
| `CatalogMerge.OwnedClaims` | internal/catalog/merge.c:117-144 | the claims of a system or core, folded, without duplicates, in claim order; a core claims its folder and info name only when they are set, the info name by what follows the last slash |
| `MergeLaws.ClashIff` | internal/catalog/merge.c:117-144 | two entries share a claim exactly when, up to case, they are systems with one id, ROM root or image root or a common pattern, or cores with one id, one config folder where both have one, or one info file name after the last slash where both have one |
| `CStrings.FoldIff` | internal/catalog/merge.c:88-101 | folded texts are equal exactly when the texts are equal but for the case of letters |
| `CStrings.FoldIsLowerCase` | internal/catalog/merge.c:88-101 | a claim is kept in lower case |
| `CatalogMerge.ReleaseClaims` | internal/catalog/merge.c:146-178 | exactly the claims of all release rows |
| `CatalogMerge.CollectCandidates` | internal/catalog/merge.c:439-450 | every contributed system and core, with its claims, in enumeration order |
| `CatalogMerge.RefuseBaseCollisions` | internal/catalog/merge.c:452-464 | stage 2 refuses exactly the candidates that share a claim with the release, and reports each with the list of shared claims |
| `CatalogMerge.FirstCollision` | internal/catalog/merge.c:320-333 | the least contested claim of a candidate, or none exactly when no other provider's entry that passed stage 2 shares a claim with it |
| `CatalogMerge.RefuseContested` | internal/catalog/merge.c:466-519 | stage 3 refuses every claimant of a contested claim, judged on the flags as they were before any was set |
| `CatalogMerge.DropDependents` | internal/catalog/merge.c:545-568 | the fixed point drops exactly the systems without their default core, names whether that core was refused or unknown, and ends within two passes |
| `CatalogMerge.BuildRows` | internal/catalog/merge.c:521-588 | release rows first, then an adopted copy of each survivor, systems and cores apart |
| `CatalogMerge.ApplyExtension` | internal/catalog/merge.c:590-633 | an extension reaches the first row with its id up to case, or is reported as dangling; each missing core is reported, each new name appended once |
| `CatalogMerge.Merge` | internal/catalog/merge.c:424-665 | the whole merge delivers rows sorted by id and reports sorted by provider, reason and detail that are permutations of the specified ones, with at most two passes of stage 4 |
| `MergeModel.FirstContested` | internal/catalog/merge.c:466-474 | the claim a contributor collision is reported for is contested and no contested claim comes before it |
| `MergeProofs.ReportsPermuted` | internal/catalog/merge.c:452-622 | permuted contributors produce the same reports up to order |
| `MergeProofs.SurvivorsDisjoint` | internal/catalog/merge.c:466-486 | two candidates of different providers that came through stage 3 share no claim |
| `MergeProofs.RowsDistinct` | internal/catalog/merge.c:521-588 | no two rows of the catalog answer to one id up to case |
| `MergeExtensions.AddNamesShape` | internal/catalog/merge.c:604-632 | after any extensions the old alternates stand first, and behind them each wanted, existing, not yet listed name exactly once |
| `MergeExtensions.ExtendAllRows` | internal/catalog/merge.c:590-634 | applying extensions one after the other to the table gives every row a result that depends on that row and the extensions alone |
| `MergeOrder.EitherOrder` | internal/catalog/merge.c:604-632 | two lists of names may be asked for in either order exactly when what the one alone adds begins what the other alone adds |
| `MergeOrder.LongestWins` | internal/catalog/merge.c:590-634 | if for one system, of any two contributors, what one adds begins what the other adds, then all together add what the one adds that adds most |
| `MergeOrder.OrderIrrelevantIff` | internal/catalog/merge.c:424-665 | the merged catalog is identical for every permutation of the contributors exactly when, for each system, of any two contributors what one adds begins what the other adds |
| `MergeOrder.OrderShows` | internal/catalog/merge.c:590-634 | one release system and two contributors whose two orders have different systems |
| `MergeConfluence.MergeConfluent` | internal/catalog/merge.c:424-665 | any permutation of the contributors gives the same reports, the same cores and the same systems up to the order of added alternates |
| `MergeLaws.OwnersApart` | internal/catalog/merge.c:452-519 | no two output rows of different owners clash in that sense |
| `MergeLaws.CoreKept` | internal/catalog/merge.c:452-519 | a contributed core is in the output, with its own fields, exactly when it clashes neither with a release entry nor with another contributor's entry that clashes with no release entry |
| `MergeLaws.SystemKept` | internal/catalog/merge.c:545-588 | a contributed system is in the output exactly when, besides, a core with the id of its default core is in the output |
| `MergeLaws.RowsHaveOrigin` | internal/catalog/merge.c:521-588 | every output row is a release row or the row of a contributed entry; the platform is the release's |
| `MergeLaws.InOrder` | internal/catalog/merge.c:334-422 | rows stand in byte order of their ids, reports in byte order of provider, reason and detail |
| `ReportLaws.ReportsExactly` | internal/catalog/merge.c:452-622 | the reports are, word for word, one per refused entry with the claims it shares, the first disputed claim and its other claimants, or the missing core, and one per dangling system or core of an extension; there are no others |
| `MergeSoundness.AlternatesAreCores` | internal/catalog/merge.c:590-634 | added alternates were asked for by an extension of that system and name output cores; every such request is listed |
| `MergeSoundness.ReleaseSurvives` | internal/catalog/merge.c:521-522 | every release system survives with its old alternates as a prefix, every release core unchanged |
| `MergeSoundness.ClearedIsClean` | internal/catalog/merge.c:362-382 | no forbidden field remains at any depth, and a tree without any is left as it is |
| `MergeSoundness.ClearedKeeps` | internal/catalog/merge.c:362-382 | the members that remain are exactly those under an allowed key, cleared below |
| `MergeSoundness.ClearedInOrder` | internal/catalog/merge.c:362-382 | they stay in their order |
| `MergeSoundness.ClearedElementwise` | internal/catalog/merge.c:362-382 | every array element stays in its place, cleared below |
| `MergeSoundness.AdoptedIsClean` | internal/catalog/merge.c:573-587 | what a contributor may not set is gone at every depth before a core gets its fixed status and display flag |
| `ArtPass.CheckEligible` | internal/catalog/merge.c:668-690 | art is accepted from the owner of a system, or, on a release system, from a provider one of whose surviving cores that system lists as an alternate at this provider's request |
| `ArtPassLaws.MayIff` | internal/catalog/merge.c:668-690 | the same, with the core found by its id up to case among the output cores |
| `ArtPassLaws.OffersAre` | internal/catalog/merge.c:692-697 | the offers are the art entries of the contributors |
| `ArtPassLaws.SlotHolds` | internal/catalog/merge.c:692-735 | a slot with exactly one claim holds its path and provider, any other slot what it held |
| `ArtPassLaws.ReportsAre` | internal/catalog/merge.c:692-735 | an offer is reported as ineligible exactly when no system of its id may take it, and as conflicting for each slot that another offer claims as well |
| `ArtPass.ApplyArt` | internal/catalog/merge.c:692-735 | a slot is filled exactly when one eligible claim on it exists; every other slot keeps what it had; refusals are reported and sorted |
| `ArtPass.ArtConfluent` | internal/catalog/merge.c:692-735 | the order of the contributors decides neither what is filled nor what is reported, on two tables that may themselves differ in the order of alternates |
| `CatalogOutputs.MergedWellformed` | internal/catalog/merge.c:636-665 | what the merge hands on has what the art pass needs: distinct system ids, equal to the art entries' ids whenever they are equal up to case |
| `CatalogOutputs.CompileCatalog` | internal/catalog/effective.c:1332-1436 | the merge, then the art pass over its rows, its cores and the same contributors |
| `CatalogOutputs.OutputsConfluent` | internal/catalog/effective.c:1332-1436 | merge and art pass together, in any order of the contributors: the same reports, cores and art, the same systems up to the order of added alternates, and identical tiles when the contributors agree on that order |
| `JsonEmitter.Buffer.Append` | internal/catalog/json.c:17-33 | the buffer holds what it held followed by the new text, across reallocation |
| `JsonEmitter.EmitString` | internal/catalog/json.c:39-61 | a string is written as its quoted escape |
| `JsonEmitter.CanonicalBytes` | internal/catalog/json.c:119-129 | the emitter writes the canonical text of the tree and one newline, whatever the sorting routine does with equal keys |
| `CanonicalJson.SameGivesSameText` | internal/catalog/json.c:94-117 | trees equal up to the order of object members have the same canonical text |
| `CanonicalJson.DocumentIdentifiesValue` | internal/catalog/json.c:69-129 | equal canonical bytes hold exactly when the trees are equal up to member order |
| `JsonReader.DocumentReads` | internal/catalog/json.c:39-129 | a reader for the JSON grammar recovers from the canonical text the value it was written from, keys in byte order at every depth, and one newline |
| `JsonEmitter.EmitHashes` | internal/catalog/effective.c:513-521 | the hand-ordered hashes object is the canonical text of the same tree |
| `JsonEmitter.StampCanonical` | internal/catalog/effective.c:523-572 | the hand-ordered stamp writer produces exactly the generic canonical bytes of the same tree |
| `JsonEmitter.StampBytesIdentifyStamp` | internal/catalog/effective.c:523-572 | two stamps have the same bytes exactly when every field of them is equal |
| `StampReader.StampReadsBack` | internal/catalog/effective.c:523-572 | the stamp bytes, read as JSON and looked up under their key names, are the stamp |
| `TreeFraming.StoreBe64` | internal/catalog/effective.c:338-343 | the eight bytes of a length, most significant first |
| `TreeFraming.TreeStream` | internal/catalog/effective.c:345-387 | for every order of the directory walk the same stream is hashed; a tree with too many or too large files is refused |
| `TreeFraming.StreamIdentifiesTree` | internal/catalog/effective.c:345-387 | two directories hash the same stream exactly when they hold the same files with the same contents |
| `TreeFraming.StreamReads` | internal/catalog/effective.c:345-387 | read back as path, NUL, eight length bytes and content, the stream is every file of the directory once, in byte order of the paths |
| `TreeFraming.HashableIff` | internal/catalog/effective.c:345-387 | a directory is hashed unless it has more than 4096 files or one above 8 MiB |
| `PublicationModel.ReadSelector` | internal/catalog/effective.c:603-631 | the loop accepts exactly a generation name of 64 lower-case digits and one newline |
| `PublicationModel.SelectorRoundTrip` | internal/catalog/effective.c:603-676 | what is written as a selector is read back, and nothing else up to the first NUL is accepted |
| `PublicationModel.EffectiveDir` | internal/catalog/effective.c:721-814 | the reader's checks, each against the disk as it is at that moment, with the reason of the first that fails |
| `PublicationModel.ReaderIsSafe` | internal/catalog/effective.c:721-814 | under any interleaving an EFFECTIVE answer names a whole generation stamped for the installed release and platform, now and at every later moment |
| `PublicationModel.GenerationsAreForever` | internal/catalog/effective.c:1438-1796 | a generation directory is whole from the moment it appears and never changes |
| `PublicationModel.CrashIsSound` | internal/catalog/effective.c:1438-1796 | the history up to any filesystem call is as sound as the whole, so a crash breaks nothing that was promised |
| `PublicationModel.ReaderFindsPublished` | internal/catalog/effective.c:721-814 | whoever looks once the selector is there is told EFFECTIVE, or the mismatch of platform or release, or, for a stamp above the read limit, that the stamp is missing |
| `PublicationModel.StampHeaderReads` | internal/catalog/effective.c:786-801 | a JSON parser finds schema, platform and release id under their names in every stamp written here |
| `PublicationModel.ReaderAtRest` | internal/catalog/effective.c:721-800 | on a disk at rest: no selector or one that is too large, a selector of another form, a directory or part that is missing, each with its reason and no other |
| `PublicationModel.GapIsDark` | internal/catalog/effective.c:1617-1625 | from the removal of the old selector on, a reader is told EFFECTIVE only after the new rename, and only with the new name |
| `PublicationStore.Store.WriteSelector` | internal/catalog/effective.c:647-676 | the selector changes in one step, after a temporary file that readers never look at |
| `PublicationStore.Store.InvalidateSelector` | internal/catalog/effective.c:678-688 | the selector goes and nothing else changes |
| `InfoOverlay.OverlayIsLaidOver` | internal/catalog/effective.c:1017-1070 | each name holds the file of the last merged RetroArch core that names it, read from the directory of its provider's first contributor under the whole info name, or else the release file, and no other name is there |
| `InfoOverlay.OverlaySucceedsIff` | internal/catalog/effective.c:1031-1070 | it succeeds exactly when each such file has a name and is there |
| `PublicationStore.Store.MaterializeInfo` | internal/catalog/effective.c:1031-1070 | the release tree with the info files of the merged cores laid over it row by row, each from the directory of the row's contributor, failing at the first one that is missing |
| `PublicationStore.Store.RenameDir` | internal/catalog/effective.c:1764-1779 | the generation appears all at once under a name that was free; when another producer has taken the name, the temporary directory goes and what is there stays; the selector rests meanwhile |
| `PublicationStore.RivalHolds` | internal/catalog/effective.c:1764-1769 | the whole generation that another producer put under this name is the one meant, unless it bears a different stamp with the same digest |
| `PublicationStore.Store.Refresh` | internal/catalog/effective.c:1438-1796 | with any call failing at any point: a return with a generation leaves the selector on it and the directory is what the inputs compile to, unless another producer put one there whose different stamp has the same digest; any other return leaves no selector; a selector naming something else is gone before a generation appears, in failing runs too; a digest conflict is reported only for a directory in place that has to be refused, and such a directory is never returned; and without a failing call, inputs that compile are published |
| `PublicationStore.PublishedHolds` | internal/catalog/effective.c:1716-1747 | a published directory holds the merged documents and the info files laid over the release's, or, without contributors, the release files as they are |
| `PublicationStore.EveryInputShows` | internal/catalog/effective.c:1512-1600 | without a collision of digests, one name means the same release, release files, compiled files and contributors |
| `PublicationStore.ReuseOrConflict` | internal/catalog/effective.c:1627-1669 | an existing directory is found identical exactly when it bears this very stamp and the stamp is not above the read limit; it is refused exactly when the stamp is, or when the directory bears another stamp with the same digest |
| `PublicationStore.NameIdentifiesInputs` | internal/catalog/effective.c:1581-1600 | one set of inputs has one name, and two stamps share a name only when their bytes collide |
| `PublicationStore.Store.CleanupTemps` | internal/catalog/effective.c:1813-1851 | only temporary directories are removed, all of them unless a call fails, and the count is the number removed |
| `RelocationLibrary.Library.Prepare` | internal/db/relocation.c:92-232 | replies and effects of the prepare call, checks in the order in which they are made |
| `RelocationLibrary.Library.Move` | internal/db/relocation.c:314-411 | commit and revert as one transaction over all items, rolled back at the first row that is not as reserved |
| `RelocationLibrary.Library.AbortOperation` | internal/db/relocation.c:413-442 | abort from prepared, and its repetition |
| `RelocationLibrary.Library.FinishOperation` | internal/db/relocation.c:444-460 | finishing takes a ticket above the mapping generation |
| `RelocationLibrary.Library.NoteLibraryScan` | internal/db/relocation.c:462-492 | a scan at or above its ticket finishes an operation |
| `RelocationLibrary.Library.RefreshOperation` | internal/db/relocation.c:275-312 | identities are refreshed item by item, or not at all |
| `RelocationLibrary.Library.IsGameReserved` | internal/db/relocation.c:494-506 | a game is reserved exactly while an unfinished operation holds it |
| `RelocationLibrary.Library.IsKeyReserved` | internal/db/relocation.c:508-526 | a locator is reserved exactly while it is a source or destination of an unfinished operation |
| `RelocationLaws.Transition` | internal/db/relocation.c:92-492 | the only changes of state there are, and the call that makes each |
| `RelocationLaws.OperationKept` | internal/db/relocation.c:92-492 | what a call leaves of every operation; when generation and ticket are written |
| `RelocationLaws.NewOperation` | internal/db/relocation.c:104-232 | an operation comes into being by a successful prepare and in no other way |
| `RelocationLaws.Replies` | internal/db/relocation.c:314-460 | the replies to commit, revert, abort and finish in every state |
| `RelocationLaws.ScanFinishesIff` | internal/db/relocation.c:444-492 | after a finish at generation n, a scan ends the operation exactly when it is later than n and than the generation of the move, whatever happens in between |
| `RelocationLaws.NextIsNotBusy` | internal/db/relocation.c:119-126 | once a scan has ended the only unfinished operation, the next prepare is not busy |
| `RelocationLaws.ScanIsNoted` | internal/db/relocation.c:462-492 | a scan generation is recorded, and nothing but finishing operations changes |
| `RelocationLaws.PrepareReplies` | internal/db/relocation.c:92-174 | the reply to prepare: malformed, repeated, stale, busy, a missing source, and success exactly when every item fits |
| `RelocationLaws.PrepareThenCommit` | internal/db/relocation.c:92-400 | each requested game stands at its destination with all columns of it, all others are as they were, hidden rows follow, the generation rises by one |
| `RelocationLaws.RefreshReplies` | internal/db/relocation.c:275-312 | a refresh is accepted exactly when it names the first items in order; it rewrites paths and snapshots of these and nothing else |
| `RelocationLaws.MoveWritesItems` | internal/db/relocation.c:351-374 | commit and revert write what the items say then, refreshed or not |
| `RelocationLaws.ReservedWhileHeld` | internal/db/relocation.c:494-526 | rows and locators are reserved by operations that are neither finishing, finished nor aborted |
| `RelocationProofs.PrepareChecks` | internal/db/relocation.c:128-174 | what the checks before the transaction guarantee: distinct sources and destinations, rows as recorded, every destination free |
| `RelocationProofs.MoveAlwaysSucceeds` | internal/db/relocation.c:351-374 | no row update of a checked batch fails, the locators are unique after each single one, and the result is the simultaneous relocation |
| `RelocationProofs.MoveThereAndBack` | internal/db/relocation.c:314-411 | commit then revert restores every game row and id |
| `RelocationProofs.HiddenRestoredIff` | internal/db/relocation.c:344-373 | hidden rows come back exactly when none of them sat at a destination |
| `RelocationProofs.StepKeepsInv` | internal/db/relocation.c:92-526 | every call, and every other writer that respects reservations, keeps the locators unique, one unfinished operation at most, and reserved rows as they are |
| `RelocationProofs.RunKeepsInv` | internal/db/relocation.c:92-526 | the same over every run |
| `RelocationProofs.ReachableMovesSucceed` | internal/db/relocation.c:361-367 | in no reachable state does commit from prepared or revert from committed meet a changed row |
| `RelocationProofs.PrepareCommitRevert` | internal/db/relocation.c:92-411 | prepare, commit and revert restore all games and ids, and hidden rows exactly when none sat at a requested destination |
| `RelocationProofs.LateDuplicateIsHarmless` | internal/db/relocation.c:104-110 | a late duplicate of a call that succeeded changes nothing, at any later point of the run; it is answered with success, except a commit or revert that a later step has overtaken, which is a bad state |
| `RelocationProofs.TakesEffectOnce` | internal/db/relocation.c:319-328 | of all repetitions of a call one at most takes effect |
| `RelocationProofs.FailureChangesNothing` | internal/db/relocation.c:393-399 | a call that is refused leaves every table as it was |
| `RelocationProofs.GenerationCountsMoves` | internal/db/relocation.c:375-386 | the generation rises by one for each effective commit and revert and by nothing else of this protocol |
| `RelocationProofs.FinishedWasScanned` | internal/db/relocation.c:444-492 | an operation is finished only by a noted scan at or above a ticket that exceeds its mapping generation |
| `RelocationProofs.FinishedIsFinal` | internal/db/relocation.c:413-492 | a finished operation keeps its state, generations, ticket and fingerprint, and its items but for refreshed absolute paths and snapshots |
| `TitleOrder.TitleCompare` | internal/core/title_order.h:12-58 | the one-pass comparison equals the comparison of token streams with the raw bytes as tie-break |
| `TitleOrder.DigitRunsCompareAsNumbers` | internal/core/title_order.h:21-41 | skipping zeros, then lengths, then bytes compares the numbers, however long the runs are |
| `TitleOrder.CompareAntisymmetric` | internal/core/title_order.h:12-58 | swapping the names negates the result |
| `TitleOrder.CompareTransitive` | internal/core/title_order.h:12-58 | the order is transitive |
| `TitleOrder.CompareZeroIff` | internal/core/title_order.h:12-58 | zero is returned for identical byte strings and no others |
| `TitleOrder.CompareIsTotalOrder` | internal/core/title_order.h:12-58 | sorting by it has one result for any set of names |
| `TitleLaws.NumbersBySize` | internal/core/title_order.h:12-58 | behind a common beginning the smaller number is first, whatever follows |
| `TitleLaws.FirstByteDecides` | internal/core/title_order.h:12-58 | otherwise the first differing byte decides, letters without case, a digit among the other bytes by its code |
| `TitleLaws.ShorterFirst` | internal/core/title_order.h:12-58 | a name stands before a longer one that begins with it |
| `TitleLaws.ZerosAndCaseBreakTies` | internal/core/title_order.h:12-58 | leading zeros decide, by byte, only between names that are otherwise the same |
| `HashIndex.Index.Find` | internal/discovery/content.c:135-143 | the probe ends and agrees with linear search, duplicates included |
| `HashIndex.Index.Put` | internal/discovery/content.c:145-165 | a put, rehash included, keeps the table a power of two, at most half full and complete |
| `HashIndex.ProbeSettles` | internal/discovery/content.c:135-143 | the first slot of a run that is empty or holds the text settles what linear search would find |
| `HashIndex.PlaceKeeps` | internal/discovery/content.c:161-163 | filling the first empty slot of a run keeps every older item findable, older ones first |
| `HashIndex.EmptySlot` | internal/discovery/content.c:135-143 | every probe meets an empty slot |
| `ContentModel.WithFileSound` | internal/discovery/content.c:590-602 | listing a file and putting it on the stack keeps the invariant of the walk |
| `ContentModel.FinishedSound` | internal/discovery/content.c:631 | taking a complete file off the stack keeps it |
| `ContentModel.CycleClosesRing` | internal/discovery/content.c:576-581 | a reference to a file still being read closes a real ring of descriptors |
| `ContentModel.ListedIsReached` | internal/discovery/content.c:590-602 | at any moment every listed file is reached from the launch file along references |
| `ContentModel.OneTooMany` | internal/discovery/content.c:586-589 | the file limit is reported only for a game with more files than that |
| `ContentInspect.BlameFile` | internal/discovery/content.c:604-618 | a size, read or format error names a descriptor of the game that has it |
| `ContentModel.Acyclic` | internal/discovery/content.c:646-688 | the graph of a finished inspection has no walk back to its start |
| `ContentModel.Reachable` | internal/discovery/content.c:646-688 | every file is reached from the launch file |
| `ContentModel.EdgesAreReferences` | internal/discovery/content.c:570-633 | the edges are exactly the references of the present descriptors |
| `ContentLaws.DirectoryOf` | internal/discovery/content.c:620-624 | a descriptor's directory is everything before the last slash of its path, or the root |
| `ContentLaws.KindOf` | internal/discovery/content.c:105-113 | what kind of descriptor a path is depends on what follows the last dot of its name, without case |
| `ContentLaws.BodyOf` | internal/discovery/content.c:617-619 | a byte order mark and nothing else is skipped |
| `ContentLaws.EdgesRefer` | internal/discovery/content.c:570-633 | the edges of a finished graph are exactly what the parser of the extension names in the present descriptor's text, resolved against its directory |
| `ContentInspect.Inspector.AddReference` | internal/discovery/content.c:547-554 | one more edge from the descriptor on top to a finished file |
| `ContentInspect.Inspector.Visit` | internal/discovery/content.c:570-633 | on success the stack is as before, the file is finished and linked; depth, file and byte limits hold; every error has its cause in the game's files |
| `ContentInspect.Inspector.ReadDescriptor` | internal/discovery/content.c:603-630 | on success everything the descriptor names is resolved, listed and linked |
| `ContentInspect.Inspector.Inspect` | internal/discovery/content.c:646-688 | success leaves a sound finished graph with the launch file first, in the selected source; failure leaves nothing, and every error is accounted for by the filesystem |
| `OsdView.View.ShowLevel` | cmd/jawaka-osd/osd_view.c:18-35 | a level toast takes the upper layer and leaves progress below it |
| `OsdView.View.ShowStage` | cmd/jawaka-osd/osd_view.c:37-58 | progress replaces the lower layer without cutting a toast short; a warning or prompt clears it |
| `OsdView.View.HideStage` | cmd/jawaka-osd/osd_view.c:60-68 | all banners go, a toast stays |
| `OsdView.View.Tick` | cmd/jawaka-osd/osd_view.c:70-86 | the upper layer ends when due and what is below shows again |
| `OsdView.View.TimeoutMs` | cmd/jawaka-osd/osd_view.c:88-95 | 0 exactly when a tick will act, -1 exactly when no later one can, otherwise the exact wait below the cap |
| `OsdView.Replay` | cmd/jawaka-osd/osd_view.c:6-86 | any sequence of events runs in the one-slot view as in the two layers |
| `OsdView.EffectsAreHonest` | cmd/jawaka-osd/osd_view.c:18-86 | KEEP leaves the picture, HIDE clears one, DRAW leaves one |
| `OsdView.PromptNeverReturns` | cmd/jawaka-osd/osd_view.c:12-86 | a warning or prompt not on screen comes back only through a new request |
| `OsdView.HiddenStaysHidden` | cmd/jawaka-osd/osd_view.c:60-86 | after a hide no banner appears until one is asked for |
| `OsdView.ProgressComesBack` | cmd/jawaka-osd/osd_view.c:41-86 | covered progress is back, in its latest form, when the toast is over |
| `OsdView.PromptEnds` | cmd/jawaka-osd/osd_view.c:18-68 | hiding a warning or prompt, covering it with a toast or showing another stage takes it off the screen at once |
| `OsdLaws.StageShows` | cmd/jawaka-osd/osd_view.c:37-58 | a stage request shows its stage and count at once, unless it is progress and a level toast is up |
| `OsdLaws.ProgressStays` | cmd/jawaka-osd/osd_view.c:37-86 | progress stays through any ticks, or shows behind the toast |
| `OsdLaws.WarningLasts` | cmd/jawaka-osd/osd_view.c:37-86 | a warning or prompt stays until the first tick four seconds later; then the screen is empty |
| `OsdLaws.ToastLasts` | cmd/jawaka-osd/osd_view.c:18-86 | a level shows between 0 and 100 until the first tick 1.2 seconds later; then the covered progress is back, or nothing |
| `OsdLaws.HideClears` | cmd/jawaka-osd/osd_view.c:60-86 | a hide empties the screen but for a toast, and nothing follows the toast |
| `OsdLaws.OtherKindsIgnored` | cmd/jawaka-osd/osd_view.c:18-23 | only brightness and volume are levels |
| `OsdLaws.StagesAre` | cmd/jawaka-osd/osd_view.h:18-21 | which stages stay up and which end by themselves |
| `OsdLaws.ServeShows` | cmd/jawaka-osd/main.c:97-165 | what the display shows and replies for each request it serves |
| `OsdLaws.LatePromptNeverShows` | cmd/jawaka-osd/main.c:133-147 | an exit prompt not served before it expires never appears, whatever else is served |
| `OsdClient.Daemon.ShowLevel` | cmd/jawakad/osd_client.c:12-26 | disarms first; one exchange if it is acknowledged, otherwise exactly one more, whose outcome is returned; nothing is sent for another type |
| `OsdClient.Daemon.ShowStage` | cmd/jawakad/osd_client.c:28-45 | disarms first; never shows the exit prompt; one exchange, whose outcome is returned |
| `OsdClient.Daemon.HideBanner` | cmd/jawakad/osd_client.c:47-52 | disarms first; an acknowledged hide leaves no banner and nothing pending |
| `OsdClient.Daemon.Pico8Menu` | cmd/jawakad/osd_client.c:54-86 | confirmed exactly inside the window and only for a prompt that was up; armed only for a prompt just acknowledged that stays at least as long; unavailable with a discard hook means neither on screen nor pending; one prompt that expires with the wait is sent, a hide follows exactly when it is not acknowledged, and an OSD that does not acknowledge that either is discarded |
| `OsdClient.Daemon.Meanwhile` | cmd/jawakad/osd_client.c:8-10 | time, ticks, late service and exits of the OSD keep the rule that an armed deadline means the prompt is up |
| `OsdClient.Daemon.Session` | cmd/jawakad/osd_client.c:8-86 | the rule holds over every sequence of calls with anything in between |
| `OsdClient.Daemon.OsdServes` | cmd/jawaka-osd/main.c:133-165 | requests are served in order; an expired prompt is dropped with an error |
| `Utf8.EncodeRoundTrip` | internal/core/scraped_text.h:10-34 | scalar values are encoded as one well-formed character each, every other value as nothing |
| `Utf8.ValueRoundTrip` | internal/core/scraped_text.h:10-34 | every well-formed character is the encoding of its value |
| `ScrapedText.Strtoul` | internal/core/scraped_text.h:75-84 | the digits that count, with the extra hexadecimal prefix, and a value below 2^32 |
| `ScrapedText.ReadEntity` | internal/core/scraped_text.h:62-92 | an entity is recognised within ten bytes, numeric ones only when all digits are read and the value is not zero |
| `ScrapedText.PlainUnlessPrefixed` | internal/core/scraped_text.h:75-84 | a reference is read as its plain digits exactly unless a further 0x stands before a hexadecimal number that is not zero |
| `ScrapedText.TwoPrefixes` | internal/core/scraped_text.h:75-84 | `&#x0x41;` decodes to A although 0x41 is not a hexadecimal numeral |
| `ScrapedText.DecodeInPlace` | internal/core/scraped_text.h:58-98 | the in-place pass equals the functional decoder on the original text |
| `ScrapedText.TidyInPlace` | internal/core/scraped_text.h:100-111 | the in-place pass leaves the words one space apart |
| `ScrapedText.CleanScrapedText` | internal/core/scraped_text.h:55-112 | the buffer ends up with the cleaned original, no longer than before, and is untouched behind it |
| `ScrapedText.DecodeShrinks` | internal/core/scraped_text.h:58-98 | decoding never lengthens |
| `ScrapedText.DecodeKeepsUtf8` | internal/core/scraped_text.h:58-98 | decoding keeps well-formed UTF-8 well formed |
| `ScrapedText.TidyKeepsWords` | internal/core/scraped_text.h:100-111 | no word is lost, split, merged or moved, and cleaning again changes nothing |
| `ScrapedText.CleanKeepsUtf8` | internal/core/scraped_text.h:55-112 | clean text is well formed, without control bytes, double, leading or trailing spaces |
| `TextLaws.NamedEntities` | internal/core/scraped_text.h:62-92 | the six named entities and their characters |
| `TextLaws.OtherNamesStay` | internal/core/scraped_text.h:62-92 | any other name stays as it is |
| `TextLaws.DecimalReference` | internal/core/scraped_text.h:75-84 | a decimal reference becomes the character of that number |
| `TextLaws.HexadecimalReference` | internal/core/scraped_text.h:75-84 | a hexadecimal reference becomes the character of that number, after either x |
| `TextLaws.TooLongStays` | internal/core/scraped_text.h:64-66 | without a semicolon among the next eleven bytes an ampersand stands for itself |
| `TextLaws.PlainStays` | internal/core/scraped_text.h:58-62 | text without an ampersand stays |
| `TextLaws.VisibleKept` | internal/core/scraped_text.h:100-111 | no visible byte is lost or moved |
| `FitText.Utf8Boundary` | cmd/jawaka-osd/osd_utf8.h:12-28 | on well-formed text the last character boundary not after the length |
| `FitText.Utf8Prev` | cmd/jawaka-osd/osd_utf8.h:31-36 | on well-formed text the last boundary before the position |
| `FitText.BoundaryIff` | cmd/jawaka-osd/osd_utf8.h:12-28 | cuts at such positions, and no others, leave well-formed text |
| `FitText.FitText` | cmd/jawaka-osd/osd_layout.c:44-74 | the text itself, or the longest trimmed prefix at a boundary with dots that fits buffer and width, or nothing; it ends for every measure |
| `FitText.FittedIsValid` | cmd/jawaka-osd/osd_layout.c:44-74 | what is shown is well formed and fits the buffer |
| `FitText.FittedIsUnique` | cmd/jawaka-osd/osd_layout.c:44-74 | no two answers meet the specification |
| `FitText.FittedMeans` | cmd/jawaka-osd/osd_layout.c:44-74 | the text if it fits; else the longest beginning that is well formed, ends in no space and fits with three dots; nothing only if none fits |
| `ArtLookup.Folder.constructor` | internal/discovery/art_path.c:116-175 | the entries are the art files of the folder, each on the chain of its bucket |
| `ArtLookup.LinkKeeps` | internal/discovery/art_path.c:167-173 | linking an entry in front of its bucket keeps every chain exact and descending |
| `ArtLookup.EntryBetter` | internal/discovery/art_path.c:177-184 | the rank of two entries is format, spelling class, extension bytes, name |
| `ArtLookup.BetterIsTotal` | internal/discovery/art_path.c:177-184 | of two different files exactly one ranks before the other |
| `ArtLookup.BetterIsTransitive` | internal/discovery/art_path.c:177-184 | the rank is transitive |
| `ArtLookup.Folder.Find` | internal/discovery/art_path.c:186-207 | the chain walk returns the best file of the whole folder, or none exactly when none matches, with or without case |
| `ArtLookup.BestIsUnique` | internal/discovery/art_path.c:116-207 | the order of the directory plays no part |
| `ArtLookup.FindForRom` | internal/discovery/art_path.c:353-402 | the best file of the first place that has one; not reading a repeated folder again changes no answer |
| `ArtLaws.FoundIff` | internal/discovery/art_path.c:116-207 | something is found exactly when a regular file of that stem with a png, jpg or jpeg extension is there, and then such a file |
| `ArtLaws.ChosenFirst` | internal/discovery/art_path.c:52-70 | PNG before JPG before JPEG; small letters before capitals before mixed; then the bytes of the extension, then of the name |
| `ArtLaws.FirstFolderWins` | internal/discovery/art_path.c:353-402 | the system's own folder, then the image folder, then the one beside the games |
| `TranslationTable.Intern` | tools/i18n-compile.py:157-164 | a known string keeps its offset and changes nothing; a new one is appended once, with its terminator |
| `TranslationTable.Collect` | tools/i18n-compile.py:144-153 | the mapping of the pairs, refused exactly when two conflict or specifiers differ |
| `TranslationTable.Build` | tools/i18n-compile.py:143-194 | the table holds exactly the mapping and the blob is its layout; it fails only on inconsistent pairs or a word that does not fit |
| `TranslationTable.Load` | internal/i18n/i18n.c:139-209 | the loader's checks and what it reads |
| `TranslationTable.AcceptedIsBlob` | internal/i18n/i18n.c:164-201 | what is accepted is the layout of a table whose offsets all point into a terminated pool |
| `TranslationTable.BlobIsAccepted` | internal/i18n/i18n.c:139-209 | every loadable table is accepted and read back as it was |
| `TranslationTable.Lookup` | internal/i18n/i18n.c:606-616 | each key is found with its translation and no other text is, collisions included |
| `TranslationTable.Translate` | internal/i18n/i18n.c:595-633 | a miss, or a translation whose specifiers do not fit, falls back to the English text |
| `TranslationTable.RoundTrip` | tools/i18n-compile.py:143-194 | compile, load and look up give back exactly the input mapping |
| `TranslationTable.ConsistentIff` | tools/i18n-compile.py:144-153 | pairs are refused exactly when specifiers differ in one or a key has two translations |
| `TranslationTable.BlobBytes` | tools/i18n-compile.py:184-194 | the blob byte for byte, words least significant byte first |

## Left out

- cJSON, SQLite, SHA-256, `qsort` internals and the filesystem: values, maps, functions, a contract and a history of states stand for them.
- Allocation failure, errno branches, fixed buffers and log output: texts are unbounded, and a failing call is one outcome.
- `internal/catalog/manifest.c`: field checks are taken as done where a lemma needs them (lower-case core ids, upper-case system ids, one provider and one id per document).
- MergeConfluence.MergeConfluent: covers inputs without a provider or an id given twice, because entries of one provider are not compared with each other and `qsort` is not stable.
- The wording around a merge report's ids, claims and providers is kept; log lines are not.
- CatalogMerge.BuildRows: the copy with forbidden fields removed is a function on trees, so the deletion of list nodes while walking is not modelled.
- Content scraping overrides, the contents of contributor file stamps and the choice of the release files: inputs of a refresh.
- PublicationStore.Store.Refresh: begins once the catalog directory exists, and leaves out what another producer does to the selector meanwhile, and power loss that reorders writes.
- The merged cores document that the info files are chosen from: taken as its parsed rows, beside its text.
- Log wording of a stamp mismatch: diagnostics are one text.
- PublicationStore.Store.RemoveTree: removes the parts of a temporary directory in one order, stopping anywhere; entries of its info directory go together.
- Relocation calls: integer overflow of generations, timestamps, and other connections between the checks and the transaction.
- Path resolution (`realpath`, spelling, inodes, ROM roots) and the M3U, CUE, GDI, TOC and CMD parsers: parameters of the inspection, which would add single-branch members.
- HashIndex.Index.Find: FNV-1a itself is not modelled, because nothing depends on which hash it is.
- ContentInspect.Inspector.Visit: tells errors apart by kind, not by message.
- OSD backends, drawing, fonts, the socket and process supervision: a request is served, lost, late or refused.
- OsdClient.Daemon.Request: the OSD and the daemon read one monotonic clock that stays far from the 64-bit limit.
- ScrapedText.CleanScrapedText: a null pointer is not a text.
- FitText.FitText: for text that is not well formed only termination and memory bounds are claimed.
- ArtLookup.FindForRom: the cache of folders read earlier in a pass is not modelled, since a pass reads each folder as it stands; stems and name lengths are given.
- PO and TSV parsing, unquoting, coverage gates and the live TSV override: the pairs are given; format signatures are a parameter.
- TranslationTable.Build: keys and values are their UTF-8 bytes without NUL, as the loader's `strcmp` needs.
- Banner geometry, LED effects, controls, runners, menus and tools: I/O and UI.
