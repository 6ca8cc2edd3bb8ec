# Offcat in Dafny

Offcat catalogues offline media: it walks a directory or a disc image, writes what it finds to an SQLite
file with a full-text index, and searches that file later. This project models the parts where something can
go wrong that no single function shows, and proves what they keep.

1. **Replacing a catalog safely.** A scan writes its tree under a new source id in batches of 1000, then swaps it
   for the old tree in one transaction. The database is modelled with two copies of its tables, the durable one
   and the one the open transaction sees, and with a ghost *trace* of every state the file has ever been in. A
   claim about every element of the trace is a claim about a kill at every moment. Any statement, BEGIN, COMMIT
   or ROLLBACK, and the queries a run depends on, may fail at any time; the ghost counter `faults` says how many did.
   `ScanRun.ScanSource` is the whole run; its contract `IsRun` says for every path and whatever fails what each state
   of the trace is (`RunShape`): recovery with each tree as far down its six deletes as the removal got, the source
   row, the open scan's tree, and then the switch, or the new tree as far down its deletes as its removal got.
   Beside the states it says what a run answers: what is closed as Completed was not cancelled, a run that switched and counted no
   error has every node in the file whatever failed, and without failures tree and totals are exact.
   `Recovery`, `Removals`, `Guarantees` and `Histories` draw the conclusions for every state of every run: who keeps
   which rows until when, what the next start restores, and exactly when a path keeps to one source over any
   sequence of runs.
2. **Expanding images.** The walk over an image runs on a directory graph that may be cyclic, with limits on
   entries, size, depth and nesting, and images inside images (which may contain themselves). It is proved against
   a pure unfolding that is cut at the limits, and shown to be a plan that the scanner of part 1 carries out. Of the
   unfolding itself `UnfoldLaws` says which listing hangs from which entry.
3. **Bytes.** CRC-32 by table against bit-at-a-time division; SHA-256 and MD5 in pieces against the standards'
   padding and block fold, down to published digests; formats are written byte by byte in the standards' terms and
   read back: UTF-8, UTF-16 and the name formats of UDF and Joliet; match expressions; the UDF
   directory stream that grows while it is read; allocation descriptors; extraction; ISO 9660 records with Rock
   Ridge names.

## Files

| file | contents |
|---|---|
| Results | values that may be missing, and results that may be errors |
| Tables, TableLaws | tables as values, keys and references, the six deletes of a tree, the catalog invariant `Wf`, the index that agrees with the entries |
| Database (module `Connection`) | connection, statements, the transaction guard |
| Catalog | row ids, lookup, paths, removal, inserts |
| Shadow, ScanTree, ScanRun | the shadow tree, the directory walk and its batches, a whole run |
| Removals | trees of which any number of the six deletes has run |
| Recovery | recovery, the switch, and when recovery finds one source for every path |
| Guarantees, Histories | what holds of every run and of any sequence of runs, and where the promises stop |
| FtsRebuild | the migration's recursive rebuild of the index |
| Walk, UnfoldLaws, Expansion, ExpansionLaws, ProviderPlan | unfolding and cut, the provider's walk, what holds of all of it |
| Crc32, BlockDigest, FileHash, DigestLaws, KnownAnswers | checksums and hashing a file, the padding read back, published digests |
| Utf, Names, FtsQuery | encodings, stored names, search expressions |
| Sectors, UdfDirectory, UdfRoundTrip, UdfFileEntry, AllocationDescriptors, Extraction, IsoDirectory | what is read out of images |

## What turned out not to hold, and exactly when it does

- A kill (or a failing insert) between the source row and the scan row leaves a source that no recovery removes
  (`Guarantees.SourceWithoutScanStays`); the path then has two sources exactly when a finished one lies there
  (`Histories.LoneSourceCrowdsIff`). A file is restored exactly when the new source is absent or has a scan row in
  progress (`Recovery.RecoveryRestoresIff`). In a run in which nothing fails, and by a path without trailing
  separators, that kill is the only way to two sources (`Histories.UndisturbedRunKeepsSettledIff`).
- Errors of the recovery at a run's start are only logged. With a finished and an unfinished tree at one path, say two
  sources at `/m` of which the second is in progress, the lookup may then find the unfinished one, and the run
  completes beside the finished one: two finished sources at one path (`Histories.FailedRecoveryLeavesTwo`).
- A lookup that fails while it is stepped is taken for one that found nothing (src/catalog/catalog.cpp:131); only one
  that cannot be prepared ends the run. With one finished source at `/m`, a run on `/m` whose lookup fails that way
  completes as a first scan: two finished sources at one path (`Histories.MissedLookupLeavesTwo`). In both cases it
  happens exactly when a finished source lies at the path that the run did not replace
  (`Histories.CompletedSwitchIsAloneIff`, `Histories.ShortRunIsAloneIff`).
- For whole histories, `Histories.KeepsApart` is the exact condition on each run (`Histories.StepKeepsSettledIff`,
  `Histories.HistoryStaysSettledIff`). Runs in which something failed meet it when no removal they left behind stopped
  after five deletes, they did not end between their two rows, and a switch went through under its guard with its
  scan row left open or after an answered lookup, by a clean path, with no unfinished tree there
  (`Histories.HarmlessRunKeepsSettled`, `Histories.ShelteredHistoryStaysSettled`).
- When a query for an index row fails, the row is written with the bare name, or the end of the path, or without its
  source's name (src/scanner/scanner.cpp:577-586). It then agrees with its entry exactly when the walk reached the
  root, or was given up on an entry that is a root, and the source's name was read or is empty
  (`Catalog.RowAgreesIff`). As long as no such query fails every state's index agrees, whatever else fails
  (`Guarantees.EveryIndexRowAgrees`).
- A failing `finish` inside the switch is only logged: the switch still commits the removal of the old tree, and the
  next start then drops the new one. The new tree survives exactly when its scan row was closed
  (`Recovery.SwitchSurvivesIff`).
- A switch whose BEGIN fails runs its deletes one by one and then drops the new tree too
  (`Guarantees.UnguardedSwitchLosesBoth`). At every moment of it a tree outlives the next recovery exactly when its
  source row is there and no scan row marks it as unfinished (`Guarantees.UnguardedSwitchKeepsIff`).
- A tree whose removal stops after five of its six deletes is never finished; after any other number it is
  (`Removals.InterruptedRemovalsAreFinishedIff`, `Guarantees.UnfinishedIsMarkedIff`). Recovery goes on after a removal
  that failed and commits what the removal has done, so this takes no kill.
- The lookup of an earlier source trims the path it is given, not the stored one
  (`Guarantees.LookupFindsSamePlaceIff`, `Guarantees.LookupMissesTrailingSeparator`).
- The rebuild's path differs from the upward walk's below a nameless root (`FtsRebuild.WalksAgreeIff`).
- UDF names written without a character count are misread exactly when their first byte can be taken for one
  (`Names.Uncounted16IsReadIff`, `Names.Uncounted8IsReadIff`).
- A UDF directory that reports too small a size loses entries exactly where a descriptor's header lies in sectors
  that neither were reported nor were needed by the descriptor before it, or where an all-zero sector lies in the way
  (`UdfDirectory.NothingMissedIff`).
- A list of short allocation descriptors is misread exactly when it is non-empty and of even length
  (`AllocationDescriptors.ShortListIsReadIff`). The recorded length is not compared with the space behind it in the
  sector; the records lie in the sector exactly below the bound of `AllocationDescriptors.StaysInSectorIff`.
- The offset and the length of a continuation record are read at bytes 8 and 12, where the System Use Sharing Protocol
  (section 5.1) has the block number's and the offset's other byte order (providers/iso/iso9660/iso9660_parser.cpp:119-121).
  A record of the protocol is therefore followed to the area it means exactly under the condition of
  `IsoDirectory.ContinuationIsReadIff`; one for block 1, offset 0 and length 100 is not.
- A Rock Ridge name record has to be at least five bytes long. For one of four bytes, `NM` 4 1, the source subtracts
  five from the length without a check (providers/iso/iso9660/iso9660_parser.cpp:53-60); from five bytes on the name is
  what follows the fifth. The model gives shorter records no name.
- A Joliet file name whose semicolon is its last unit keeps it (`Names.VersionIsStripped`).
- The comments call the walk bounded by 256 directory levels; in UDF images the reader refuses directories deeper
  than 64, and the model follows the code.

## Model

| member | source | states |
|---|---|---|
| TableLaws.SixDeletesRemoveTheTree | src/catalog/catalog.cpp:135-164 | the six deletes leave exactly the tables without any row of that source; every other row is untouched |
| TableLaws.WithoutRows | src/catalog/catalog.cpp:135-164 | table by table: exactly the rows of the named sources go, by their source or by the entry they belong to, and what stays is unchanged |
| TableLaws.AfterDeletesByTable | src/catalog/catalog.cpp:141-163 | which tables are stripped after the first n deletes, for every n |
| TableLaws.DeletesTouchOneTree | src/catalog/catalog.cpp:135-164 | after any number of the deletes references hold, index rows belong to live entries, and no other source has lost a row |
| TableLaws.DeletesKeepAgreement | src/catalog/catalog.cpp:135-164 | and an index that agreed with its entries goes on agreeing |
| TableLaws.WithoutKeepsWf | src/database/database.cpp:100-145 | removing whole source trees leaves no dangling key, no parent out of order and no index row without its entry |
| TableLaws.WithoutTwice | src/scanner/scanner.cpp:454-462 | removing one set of trees and then another is removing them together |
| TableLaws.WithoutIrrelevant | src/catalog/catalog.cpp:135-164 | removal depends only on which existing sources are named |
| TableLaws.PathOfSubset | src/catalog/catalog.cpp:326-347 | a path depends only on the entry's ancestors, so removals and inserts elsewhere cannot change it |
| TableLaws.PathSaysTheNames | src/catalog/catalog.cpp:326-347 | cut at its slashes, a path gives back the names from the root down to the entry |
| TableLaws.InsertEntryKeeps | src/catalog/catalog.cpp:170-193 | a row under a parent of its source keeps the invariant and other sources; its id is unused in the index, also after row ids are reused |
| TableLaws.NewEntryKeepsAgreement | src/catalog/catalog.cpp:170-193 | a new entry changes the path of none that is indexed |
| TableLaws.InsertFtsKeeps | src/catalog/catalog.cpp:349-363 | an index row with the entry's name keeps the invariant and other sources, whatever its path |
| TableLaws.NewIndexRowAgreesIff | src/catalog/catalog.cpp:349-363 | the index goes on agreeing with the entries exactly when the new row has the entry's path and its source's name |
| TableLaws.InsertContainerKeeps | src/catalog/catalog.cpp:378-392 | a container row at a live entry keeps the invariant and other sources |
| TableLaws.PutChecksumKeeps | src/catalog/catalog.cpp:441-454 | a digest of a live entry keeps the invariant and other sources |
| TableLaws.InsertSourceKeeps | src/catalog/catalog.cpp:11-34 | a new source is fresh, and removing it again restores the tables |
| TableLaws.InsertScanKeeps | src/catalog/catalog.cpp:508-526 | a scan row of a live source keeps the invariant and other sources |
| TableLaws.CloseScanKeeps | src/catalog/catalog.cpp:537-547 | closing a scan keeps the invariant and other sources |
| Connection.Database.Exec | src/database/database.cpp:262-271 | a statement takes effect as a whole or not at all; outside a transaction it is durable at once; one that would dangle a key is refused unless the check is deferred; a failure is counted once |
| Connection.Database.Begin | src/database/database.cpp:250-252 | a transaction opens only if none is open and nothing failed |
| Connection.Database.Commit | src/database/database.cpp:254-256 | success makes all of the work, whose references hold, the file's next state; failure changes nothing and leaves the transaction open |
| Connection.Database.Rollback | src/database/database.cpp:258-260 | the file is unchanged; success drops the work |
| Connection.Database.Read | src/database/database.cpp:326-370 | a query that cannot be prepared or fails while stepping yields no row and is counted |
| Connection.Transaction.constructor | src/database/database.cpp:279-286 | a guard is active exactly when its BEGIN went through |
| Connection.Transaction.Commit | src/database/database.cpp:297-307 | an inactive guard refuses; an active one commits once |
| Connection.Transaction.Close | src/database/database.cpp:288-295 | going out of scope never changes the file; it undoes uncommitted work, or its ROLLBACK failed and the transaction stays open |
| Catalog.NextId | src/catalog/catalog.cpp:191-192 | a new row's id is one more than the largest, 1 in an empty table |
| Catalog.Trim | src/catalog/catalog.cpp:121-125 | drops exactly the slashes and backslashes at the end, and never all of the path |
| Catalog.FindByPath | src/catalog/catalog.cpp:118-133 | finds some source stored under the path or its trimmed form; answers none only if there is none, or when it failed while stepping; an error only when it could not be prepared |
| Catalog.BuildPath | src/catalog/catalog.cpp:326-347 | collecting names upward and joining them backward ends and gives the path read from the root down; a walk that a failing query ends gives the end of it |
| Catalog.RemoveTree | src/catalog/catalog.cpp:135-164 | runs the deletes in order up to the first failure, each durable by itself outside a transaction |
| Catalog.InsertSourceRow | src/catalog/catalog.cpp:11-34 | all of the row under the next id, or an error and nothing |
| Catalog.InsertScanRow | src/catalog/catalog.cpp:508-526 | all of the row under the next id, or an error and nothing |
| Catalog.InsertEntryRow | src/catalog/catalog.cpp:170-193 | all of the row under the next id, or an error and nothing |
| Catalog.InsertContainerRow | src/catalog/catalog.cpp:378-392 | all of the row under the next id, or an error and nothing |
| Catalog.ReadIndexRow | src/scanner/scanner.cpp:577-586 | the row read for an entry: its path as far as the walk came or else its name, and its source's name or nothing; its name, its path and its source's name when every read went through |
| Catalog.RowAgreesIff | src/container/provider.cpp:65-79 | that row is the right one exactly when the walk reached the root (or was given up on a root) and the source's name was read or is empty |
| Catalog.TailIsShorter | src/catalog/catalog.cpp:326-347 | a walk that ended early gives a shorter text than the path |
| Catalog.IndexEntry | src/catalog/catalog.cpp:349-363 | the row is written as a whole or not at all |
| Catalog.StoreChecksum | src/catalog/catalog.cpp:441-454 | one digest per entry and algorithm, the last one stored |
| Catalog.FinishScan | src/catalog/catalog.cpp:537-547 | the scan's status changes and nothing else |
| Shadow.NewEntry | src/scanner/scanner.cpp:567-575 | an entry of the shadow source keeps all other sources as they were before the scan |
| Shadow.NewEntryComesLast | src/scanner/scanner.cpp:567-590 | a new entry comes after every durable one and counts as one physical entry unless virtual |
| Shadow.NewIndexRow | src/scanner/scanner.cpp:577-588 | an index row of a shadow entry keeps all other sources as they were |
| Shadow.WindowOpens | src/scanner/scanner.cpp:241-298 | source row and scan row add a tree that recovery can see, and removing it restores the tables |
| Shadow.WindowIsEmpty | src/scanner/scanner.cpp:241-298 | the new tree starts without entries |
| ScanTree.StatementKeepsWriting | src/scanner/scanner.cpp:476-643 | every statement of the scan keeps: each durable state is a shadow of the old tables in write order, commits fall on whole batches, no entry is parted from its index row |
| ScanTree.AddEntry | src/container/provider.cpp:53-84 | entry row plus index row; a failed index write leaves the entry, a failed insert leaves nothing |
| ScanTree.Checkpoint | src/scanner/scanner.cpp:592-608 | a batch commit changes no row and keeps what every durable state promises |
| ScanTree.ComputeChecksums | src/scanner/scanner.cpp:765-823 | of a file that opens, without failures, exactly the chosen algorithms' digests are stored; of one that does not, none, and that is an error; no entry or index row changes |
| ScanTree.RegisterContainer | src/scanner/scanner.cpp:738-747 | the container row is written within the shadow tree |
| ScanTree.ExpandContainer | src/scanner/scanner.cpp:710-763 | without faults the tables hold exactly the registration and the rows of the provider's steps, and the answer is the provider's; in every case these stay in the shadow tree and add no physical entry |
| ScanTree.CarryOut | src/container/provider.cpp:53-84 | the steps one after the other: without a fault exactly their rows, under the next ids |
| ScanTree.PlanAdds | src/container/provider.cpp:53-84 | whatever a plan adds belongs to the image's source, and its containers lie at what the plan wrote |
| ScanTree.OneStep | src/container/provider.cpp:53-84 | without a fault exactly the row the step describes is written, under the next id |
| ScanTree.Scanner.InsertPhysical | src/scanner/scanner.cpp:567-608 | one physical entry, and a commit after every thousandth; the transaction is lost only by a BEGIN that fails behind a commit, and that ends the listing |
| ScanTree.Scanner.ScanContent | src/scanner/scanner.cpp:624-639 | without faults a file has exactly its chosen digests, the rows of the image it holds or none are behind it, and errors go up by one for each of the two that went wrong |
| ScanTree.Scanner.HashContent | src/scanner/scanner.cpp:628-635 | nothing is hashed that was not asked for; a file that does not open is counted in a directory scan and only there |
| ScanTree.Scanner.ExpandImage | src/scanner/scanner.cpp:637-638 | only a file with a provider gets a container, no digest changes, and an error is counted exactly when a registered image's provider gives up |
| ScanTree.Scanner.Descend | src/scanner/scanner.cpp:610-639 | only a cancellation passes upward; an SQL failure in a subdirectory is counted and swallowed, so without counted errors everything below is there; no digest but the entry's own changes |
| ScanTree.Scanner.ScanNode | src/scanner/scanner.cpp:496-639 | the node and everything below it is in the tables under its parent, with its size; a node of which nothing can be read is passed over and counted; totals go up by what the node comes to |
| ScanTree.Scanner.WriteNode | src/scanner/scanner.cpp:567-639 | the node's entry with its size, what lies below it, and nothing of the other entries' digests or containers changed |
| ScanTree.Scanner.ScanDirectory | src/scanner/scanner.cpp:476-643 | without counted errors every delivered node is an entry, whatever else failed; without failures the listing is there entry for entry with sizes, exactly the chosen digests and image rows, and the totals of entries, files, directories and errors are exact; every whole batch is committed; code 0 means cancelled, code 1 an SQL failure |
| ScanTree.TallyCounts | src/scanner/scanner.cpp:476-643 | the totals are counts of the tree's nodes: what is an entry, a file, a directory, and the three ways to an error |
| ScanTree.ListedStays | src/scanner/scanner.cpp:476-643 | a listing with its digests and images stays complete while its source's rows stay |
| ScanTree.HoldsStays | src/scanner/scanner.cpp:624-639 | a file's digests and image rows stay while its source's rows stay |
| ScanRun.RemoveFrom | src/catalog/catalog.cpp:135-164 | however far a removal gets, every state of the file is the tables before with trees cut down their six deletes, and no tree but those being removed |
| ScanRun.DropShadow | src/scanner/scanner.cpp:419-428 | on success one commit removes exactly the shadow tree; in every case each state is a cut of that tree alone; a transaction stays open only if something failed and the ROLLBACK did too |
| ScanRun.OrphanList | src/scanner/scanner.cpp:436-447 | the list holds only sources with a scan in progress, and all of them unless the cursor failed |
| ScanRun.RecoverOrphanedScans | src/scanner/scanner.cpp:430-474 | without failures one commit removes all unfinished trees; with failures each state has every such tree as far down its six deletes as its removal got, and the others untouched; a transaction stays open only if its ROLLBACK failed |
| ScanRun.RemoveOrphans | src/scanner/scanner.cpp:452-462 | failing removals are passed over; without failures all unfinished trees are gone |
| ScanRun.Switch | src/scanner/scanner.cpp:361-394 | one commit removes the old tree and closes the scan as Cancelled or Completed as the flag stands, or the shadow is dropped, in one commit if that failure was the only one; the one other way out is a failed BEGIN, which leaves both trees cut as far as their removals got |
| ScanRun.SwitchInside | src/scanner/scanner.cpp:365-387 | inside the guard nothing is durable before the commit; unguarded, only the two trees are cut |
| ScanRun.CloseInside | src/scanner/scanner.cpp:373-386 | a scan row is closed as Cancelled exactly when the scan was cancelled and otherwise as Completed, or stays open if finish fails; the commit is tried all the same |
| ScanRun.ScanFileEntry | src/scanner/scanner.cpp:645-696 | on success the file's row is there with its length, or -1, fresh and without an index row; without failures with its digests and image |
| ScanRun.FillTree | src/scanner/scanner.cpp:306-353 | without failures the whole directory is in the tables with digests and images, every entry indexed, or the single file with its digests and image, and the summary's totals are exact; code 0 is kept for cancellation |
| ScanRun.AbandonScan | src/scanner/scanner.cpp:311-338 | a cancelled first scan keeps its committed batches and is closed; any other failure drops the shadow, and in one commit when nothing fails |
| ScanRun.CloseCancelled | src/scanner/scanner.cpp:324-333 | one commit that closes the scan row and changes nothing else, or nothing |
| ScanRun.EndScan | src/scanner/scanner.cpp:311-394 | what follows the scan phase: the answer, the ending and the status of the scan row as the phase, the cancellation and the failures decide them; the only ending of a cancelled or failed scan that keeps the tree is the closing of a first scan as cancelled |
| ScanRun.OpenScanRows | src/scanner/scanner.cpp:241-304 | at most two states are added: the tables with the source row alone, and one that can be recovered |
| ScanRun.CommitAndSwitch | src/scanner/scanner.cpp:355-394 | a failed final commit is survived; success means the switch went through as one commit on exactly the scanned tree |
| ScanRun.RunScan | src/scanner/scanner.cpp:300-417 | from the open scan on the trace has the run's shape; a closed scan row says whether the scan was cancelled; without failures state i of the scan phase holds exactly 1000 entries more than the one before, all indexed, and the run succeeds unless it was cancelled or its path is gone |
| ScanRun.ReplaceSource | src/scanner/scanner.cpp:229-417 | from the lookup on, for every path: the replaced source is one the lookup found, none after a lookup that failed, and never the new one; the rest as for the run |
| ScanRun.ScanSource | src/scanner/scanner.cpp:181-417 | for every path, whatever fails and wherever the run dies, every state of the file is one of the run's shape; a run that switches with no error counted has every node of the listing in the file, whatever failed; a scan closed as Cancelled was cancelled, one closed as Completed was not, and code 0 is answered only to a cancelled run; without failures and cancellation, and with something at the path, the run succeeds as one switch to the finished tree with sizes, digests, images and index, and its totals are exact; without failures an error leaves the tables as recovered |
| ScanRun.CataloguedSurvives | src/scanner/scanner.cpp:365-387 | the complete listing with its digests and images, and its index, survive the removal of the old tree |
| ScanRun.ListedSurvives | src/scanner/scanner.cpp:365-387 | the entries of a listing survive the removal of the old tree |
| Removals.CutDeeper | src/catalog/catalog.cpp:135-164 | deletes of a tree on tables with any trees partly removed cut exactly that tree deeper; starting over from the first delete changes nothing |
| Removals.CutKeeps | src/catalog/catalog.cpp:135-164 | however far each removal got, the catalog is sound, other sources have lost nothing, and an agreeing index goes on agreeing |
| Removals.CloseOfCut | src/scanner/scanner.cpp:364-394 | closing the scan row and removing trees do not interfere |
| Removals.LeftoverOfCut | src/scanner/scanner.cpp:430-474 | of partly removed unfinished trees recovery passes over exactly those that stopped after five deletes |
| Removals.InterruptedRemovalsAreFinishedIff | src/scanner/scanner.cpp:454-468 | any number of partial removals is finished by a later recovery exactly when none of them stopped after five deletes |
| Recovery.RecoveryIsComplete | src/scanner/scanner.cpp:430-474 | after recovery no scan is in progress, the catalog is sound, and recovering again does nothing |
| Recovery.RecoveredRows | src/scanner/scanner.cpp:430-474 | a source stays exactly when none of its scans is in progress; with it stay all of its rows, and nothing else |
| Recovery.RecoveryRestoresIff | src/scanner/scanner.cpp:430-474 | a tree leaves no trace after recovery exactly when its source is absent or has a scan in progress |
| Recovery.KilledScanIsUndone | src/scanner/scanner.cpp:205-214 | any state between scan row and switch is recovered to exactly the tables before the scan |
| Recovery.SwitchKeepsTheRest | src/scanner/scanner.cpp:361-387 | the switch removes exactly the old tree and changes no third source |
| Recovery.SwitchSurvivesIff | src/scanner/scanner.cpp:376-380 | the new tree outlives the next recovery exactly when its scan row was closed |
| Recovery.RecoveredSources | src/scanner/scanner.cpp:430-474 | recovery keeps what it would keep without some sources, and those of them no scan row marks as unfinished |
| Recovery.RecoveryRestoresAllIff | src/scanner/scanner.cpp:430-474 | a set of trees leaves no trace exactly when none of its sources is there unmarked |
| Recovery.OrphansAfterSwitch | src/scanner/scanner.cpp:361-387 | unfinished after a switch are the trees that were, and the new one exactly if it was not closed |
| Recovery.OneMoreIsUniqueIff | src/scanner/scanner.cpp:205-239 | with one more source recovery finds one source for every path exactly when that held and the new one is gone, unfinished or alone at its path |
| Recovery.SwitchIsUniqueIff | src/scanner/scanner.cpp:361-387 | after a switch: exactly when it holds without the replaced source and the scan stayed open or the path is free |
| Recovery.PathIsFreeIff | src/scanner/scanner.cpp:229-239 | a path is free for the new tree exactly when every finished source there is replaced |
| Recovery.LookupClearsThePath | src/catalog/catalog.cpp:118-133 | the lookup by a clean path finds the finished source there if no unfinished one lies there |
| Histories.StepKeepsWf | src/scanner/scanner.cpp:181-417 | every state of every run is sound |
| Histories.StepKeepsAgreement | src/scanner/scanner.cpp:577-588 | every state's index agrees if it did before the run and no query for an index row failed |
| Histories.StepKeepsSettledIff | src/scanner/scanner.cpp:181-474 | whatever state a run leaves, the next recovery finds one source for every path exactly under the stated condition |
| Histories.AnyHistoryIsRecoverable | src/scanner/scanner.cpp:419-474 | after any sequence of runs, ended or killed at any moment and with any failures, an undisturbed recovery leaves a sound catalog and no scan in progress |
| Histories.HistoryStaysSettledIff | src/scanner/scanner.cpp:205-239 | along any sequence of runs every path keeps to one source exactly when every run meets the condition |
| Histories.UnguardedIsUniqueIff | src/scanner/scanner.cpp:364-394 | after a switch without BEGIN: exactly when each of its two trees that is there unmarked has a path of its own |
| Histories.UndisturbedRunKeepsSettledIff | src/scanner/scanner.cpp:181-474 | a run in which nothing fails, ended or killed at any moment: one source for every path exactly unless it was killed between its two rows with a finished source at the path, or switched with one there that it did not replace |
| Histories.UndisturbedRunKeepsSettled | src/scanner/scanner.cpp:205-239 | by a clean path only the kill between the two rows is left |
| Histories.HarmlessRunKeepsSettled | src/scanner/scanner.cpp:181-474 | a run in which anything may have failed keeps one source for every path if no removal it left stopped after five deletes, it did not end between its two rows, and a switch was guarded and left its scan open or followed an answered lookup by a clean path with no unfinished tree there |
| Histories.ShelteredHistoryStaysSettled | src/scanner/scanner.cpp:181-474 | any sequence of such runs, undisturbed or harmless, keeps every path to one source all along |
| Histories.LoneSourceCrowdsIff | src/scanner/scanner.cpp:262-298 | a source row without scan row breaks uniqueness exactly when a finished source lies at its path |
| Histories.CompletedSwitchIsAloneIff | src/scanner/scanner.cpp:205-239 | a completed tree is alone at its path exactly when the lookup found the finished source there |
| Histories.ShortRunIsAloneIff | src/scanner/scanner.cpp:205-239 | a completed run that writes only its two rows leaves one source for every path exactly when it replaced every finished source at its path |
| Histories.FailedRecoveryLeavesTwo | src/scanner/scanner.cpp:210-239 | a run after a failed recovery that leaves two finished sources at one path |
| Histories.MissedLookupLeavesTwo | src/catalog/catalog.cpp:126-132 | a run whose lookup fails while stepping and that leaves two finished sources at one path |
| Guarantees.OtherRowsStayInRecovery | src/scanner/scanner.cpp:430-474 | during recovery, however far the removals got, every finished source holds exactly its rows |
| Guarantees.OldRowsStayUntilTheSwitch | src/scanner/scanner.cpp:223-229 | at every moment before the switch all other sources hold exactly their rows, and a kill inside the window is undone |
| Guarantees.UnfinishedIsMarkedIff | src/scanner/scanner.cpp:419-428 | an interrupted drop leaves the new source gone or marked exactly when it did not stop after five deletes |
| Guarantees.SwitchIsOneCommit | src/scanner/scanner.cpp:361-394 | the switch is the last state of the run, removes exactly the replaced tree, and its result survives exactly when the scan was closed |
| Guarantees.CancelledScanKeepsWholeBatches | src/scanner/scanner.cpp:324-333 | a cancelled first scan ends with whole batches, in write order, with no entry parted from its index row, beside unchanged other sources, and outlives the next recovery |
| Guarantees.EveryStateIsWellFormed | src/scanner/scanner.cpp:181-417 | no kill at any moment of any run leaves a broken reference, a parent out of order or an index row without its entry |
| Guarantees.EveryIndexRowAgrees | src/scanner/scanner.cpp:577-588 | in every state of a run in which no query for an index row failed, every index row carries its entry's path and its source's name |
| Guarantees.SourceWithoutScanStays | src/scanner/scanner.cpp:262-298 | a source row without its scan row is never recovered |
| Guarantees.UnguardedSwitchLosesBoth | src/scanner/scanner.cpp:364-394 | after a failed BEGIN both trees can be gone |
| Guarantees.UnguardedSwitchKeepsIff | src/scanner/scanner.cpp:364-394 | at every moment of such a run: which of the two trees recovery keeps, and that third sources are untouched |
| Guarantees.LookupFindsSamePlaceIff | src/catalog/catalog.cpp:118-133 | two spellings of a place meet exactly when they are equal or the stored one has no trailing separator |
| Guarantees.LookupMissesTrailingSeparator | src/catalog/catalog.cpp:118-133 | a stored trailing separator hides a source from its own path |
| FtsRebuild.WalksAgreeIff | src/database/database.cpp:210-215 | the downward path equals the upward walk's exactly for roots and below named roots |
| FtsRebuild.EntryPaths | src/database/database.cpp:210-215 | the recursive query reaches every entry exactly once, with the path of its walk from the root |
| FtsRebuild.RebuildIndex | src/database/database.cpp:207-228 | the rebuilt index has exactly one row for every entry, equal to the one the upward walk gives |
| FtsRebuild.RebuiltIndexAgrees | src/database/database.cpp:207-228 | an index is the rebuilt one exactly when it is complete and agrees with the entries |
| Walk.ResolvePlaceholder | providers/iso/iso_provider.cpp:64-85 | a moved directory is the relocation directory's one with its digit as a name, or else the one at its position; nothing when there is none |
| Walk.Admit | providers/iso/iso_provider.cpp:207-225 | only names without control characters are written; an ordinary entry keeps everything but, in UDF, its size |
| Walk.Extension | providers/iso/iso_provider.cpp:89-100 | the part behind the last dot |
| Walk.KeptConcat | providers/iso/iso_provider.cpp:187-253 | where everything fits the walk goes on, and where something is cut nothing later is kept |
| Walk.KeptIsTheCut | providers/iso/iso_provider.cpp:187-253 | what is kept is a prefix that ends only at the end, at the entry limit or just after the overflowing entry |
| Walk.NoLimitBefore | providers/iso/iso_provider.cpp:187-253 | before the end of what is kept no limit is reached |
| Expansion.EmitConcat | providers/iso/iso_provider.cpp:182-288 | writing two stretches one after the other is writing them as one |
| Expansion.Provider.WalkDirectory | providers/iso/iso_provider.cpp:174-406 | on any graph, cycles included, the walk ends and writes exactly the cut of the preorder unfolding, nested images behind their entries |
| Expansion.Provider.WriteEntry | providers/iso/iso_provider.cpp:227-287 | one entry and what lies below it, no further than the limits allow |
| Expansion.Provider.ExpandNested | providers/iso/iso_provider.cpp:510-542 | a nested image is registered and, if it opens, expanded with its own limits |
| Expansion.Provider.ScanTree | providers/iso/iso_provider.cpp:546-707 | an image is walked from its root with fresh counters |
| Expansion.Provider.Scan | providers/iso/iso_provider.cpp:478-505 | the file is walked as UDF if it opens as that, otherwise as ISO 9660 if it opens as that; otherwise nothing is written and it fails |
| ExpansionLaws.EveryContainerIsItsCut | providers/iso/iso_provider.cpp:174-406 | every container, nested ones too, gets exactly its own unfolding cut by its own limits, every entry under the one it hangs from; behind a file named .iso that can be read, and no other, comes its image, if limits allow; ids are fresh; nothing is nested deeper than allowed |
| UnfoldLaws.EveryListingIsUnfolded | providers/iso/iso_provider.cpp:182-263 | from the container hang, in order, exactly the admitted entries of the root listing; from every entry exactly those of its own listing, if it is a directory at depth below 256 (in UDF at most 64) whose listing can be read, and nothing otherwise; depth is the length of the chain of parents |
| UnfoldLaws.UnfoldIsPreordered | providers/iso/iso_provider.cpp:256-263 | what lies below an entry comes right behind it |
| ExpansionLaws.LooksLikeImageIff | providers/iso/iso_provider.cpp:89-100 | images are files, not links, whose names end in .iso in any case |
| ExpansionLaws.EmitIsFresh | providers/iso/iso_provider.cpp:256-287 | parents come before children and registered depths stay within the limit |
| ExpansionLaws.UnfoldHangs | providers/iso/iso_provider.cpp:256-263 | in the unfolding every entry hangs from the listing's parent or an earlier directory |
| ProviderPlan.ExpansionIsAPlan | src/container/provider.cpp:53-84 | every write of an expansion is a step the scanner can carry out: its parent is already written and its name is not empty |
| ProviderPlan.ExpansionFillsTheTable | src/scanner/scanner.cpp:751-762 | carried out without a fault, an image's expansion leaves exactly the rows the walk wrote, under their parents, with name, size and the kind of directory, link or file, and changes no other entry |
| Crc32.StepIsLinear | src/core/checksum.cpp:19-25 | the bit step is linear over exclusive or |
| Crc32.FeedBitsIsSteps | src/core/checksum.cpp:36-42 | feeding bits is stepping the sum of register and bits |
| Crc32.TableStep | src/core/checksum.cpp:36-42 | one table lookup is eight steps of the division by the reflected polynomial |
| Crc32.AnyChunking | src/core/checksum.cpp:36-42 | any cutting of a message into updates ends in the same register |
| Crc32.DigestReassembles | src/core/checksum.cpp:44-63 | the one-shot value is the digest's bytes put together |
| Crc32.Crc32Checksum.constructor | src/core/checksum.cpp:17-30 | the generated table holds eight steps of every byte |
| Crc32.Crc32Checksum.Update | src/core/checksum.cpp:36-42 | the register is the bit-at-a-time register of everything fed |
| Crc32.Compute | src/core/checksum.cpp:55-63 | the checksum of section 8 of RFC 1952, bit by bit |
| BlockDigest.FoldConcat | src/core/checksum.cpp:131-155 | compressing blocks in two stretches is compressing them in one |
| BlockDigest.FewestZeros | src/core/checksum.cpp:157-174 | the padding is the shortest that leaves room for the length |
| BlockDigest.BlockChecksum.ProcessBlock | src/core/checksum.cpp:105-129 | the in-place rounds are the block function |
| BlockDigest.BlockChecksum.Update | src/core/checksum.cpp:131-155 | however a message is cut, the engine holds the fold of its whole blocks and the rest of its bytes |
| BlockDigest.BlockChecksum.PadTo56 | src/core/checksum.cpp:160-166 | the padding loop ends, with the buffer at 56 |
| BlockDigest.BlockChecksum.Finalize | src/core/checksum.cpp:157-184 | the digest is the fold over the message padded as in section 5.1.1 of FIPS 180-4 or sections 3.1 and 3.2 of RFC 1321 |
| BlockDigest.ShaBlock | src/core/checksum.cpp:105-129 | the schedule array and the rotating variables compute the recursive rounds |
| BlockDigest.Md5Block | src/core/checksum.cpp:211-269 | the word array and the rotating variables compute the recursive rounds |
| BlockDigest.LengthBytes | src/core/checksum.cpp:168-174 | the length field in the algorithm's byte order, as the bytes that DigestLaws.LengthIsReadBack reads back |
| DigestLaws.LengthIsReadBack | src/core/checksum.cpp:168-174 | the last eight bytes of the padding, read big-endian for SHA-256 and little-endian for MD5 as byte times power of 256, are 8 times the length modulo 2^64 |
| DigestLaws.BytesReadBack | src/core/checksum.cpp:168-174 | enough bytes of a number, read back, are the number |
| FileHash.HashFile | src/scanner/scanner.cpp:785-799 | hashing in 64 KiB reads gives the digest of the whole content |
| KnownAnswers.Sha256OfAbc | src/core/checksum.cpp:65-184 | the SHA-256 digest of "abc" is the published one (FIPS 180-4) |
| KnownAnswers.Md5OfAbc | src/core/checksum.cpp:186-320 | the MD5 digest of "abc" is the published one (section A.5 of RFC 1321) |
| KnownAnswers.Crc32OfDigits | src/core/checksum.cpp:17-63 | the CRC-32 of "123456789" is the check value CBF43926 |
| KnownAnswers.GeneratorIs | src/core/checksum.cpp:19-25 | the generator has exactly the powers 26, 23, 22, 16, 12, 11, 10, 8, 7, 5, 4, 2, 1 and 0 below its 32nd |
| KnownAnswers.DigestSizes | src/scanner/scanner.cpp:765-823 | digests have 32, 16 and 4 bytes, whatever the content |
| Utf.FrontIsEncoded | providers/iso/udf/udf_unicode.cpp:7-36 | what is accepted at the front is the encoding of one scalar value |
| Utf.EncodedIsFront | providers/iso/udf/udf_unicode.cpp:40-56 | every encoded scalar value is accepted, whatever follows |
| Utf.Utf8Is | providers/iso/udf/udf_unicode.cpp:40-56 | the bytes of a code point as quotients and remainders by powers of 64 |
| Utf.Utf8RoundTrip | providers/iso/udf/udf_unicode.cpp:40-56 | encoded scalars are read back (section 4 of RFC 3629) |
| Utf.Utf8Decodes | providers/iso/udf/udf_unicode.cpp:7-36 | well-formed bytes are the encoding of what they yield |
| Utf.IsUtf8Iff | providers/iso/udf/udf_unicode.cpp:7-36 | well-formed is exactly what encoding scalar values can produce |
| Utf.IsValidUtf8 | providers/iso/udf/udf_unicode.cpp:7-36 | the byte-by-byte checks accept exactly well-formed UTF-8 |
| Utf.Utf16RoundTrip | providers/iso/udf/udf_unicode.cpp:58-85 | scalars written as UTF-16 are read back (section 2.2 of RFC 2781) |
| Utf.Utf16Is | providers/iso/udf/udf_unicode.cpp:58-85 | the bytes of a scalar value in UTF-16, surrogate pairs included, as quotients and remainders |
| Utf.Utf16Iff | providers/iso/udf/udf_unicode.cpp:58-85 | decoding succeeds exactly on well-formed UTF-16 and yields the UTF-8 of the same scalars |
| Utf.OddLength | providers/iso/udf/udf_unicode.cpp:60 | an odd number of bytes is never well-formed |
| Utf.DecodeUtf16be | providers/iso/udf/udf_unicode.cpp:58-85 | the loop recodes all of the input or refuses it |
| Utf.DecodingIsInjective | providers/iso/udf/udf_unicode.cpp:58-85 | different inputs never become the same name |
| Names.UdfNameIsUtf8 | providers/iso/udf/udf_unicode.cpp:89-195 | whatever the bytes, the name is valid UTF-8 |
| Names.Name16IsUtf8 | providers/iso/joliet/joliet_parser.cpp:106-127 | strict or salvaged, the name is valid UTF-8 |
| Names.Salvage | providers/iso/udf/udf_unicode.cpp:130-141 | the salvaged name is the encoding of the units with all surrogates dropped |
| Names.PlainUnitsAre | providers/iso/udf/udf_unicode.cpp:130-141 | of any code units exactly the surrogates are dropped; an odd byte at the end goes |
| Names.DecodeUdfName | providers/iso/udf/udf_unicode.cpp:89-195 | the name and its confidence by compression id: counted or uncounted CS0, Latin-1 for ids below 8, valid UTF-8 or Latin-1 above |
| Names.HeuristicDecodeName | providers/iso/udf/udf_unicode.cpp:223-246 | valid UTF-8 is kept, everything else read as Latin-1 |
| Names.Counted16RoundTrip | providers/iso/udf/udf_unicode.cpp:102-124 | a counted 16-bit name is read back, whatever follows it |
| Names.Counted8RoundTrip | providers/iso/udf/udf_unicode.cpp:144-171 | a counted 8-bit name is read back, whatever follows it |
| Names.Uncounted16IsReadIff | providers/iso/udf/udf_unicode.cpp:102-124 | an uncounted 16-bit name is read back exactly when its first byte cannot be a count |
| Names.Uncounted8IsReadIff | providers/iso/udf/udf_unicode.cpp:144-171 | an uncounted 8-bit name is read back exactly when its first byte cannot be a count |
| Names.DecodeJolietName | providers/iso/joliet/joliet_parser.cpp:91-128 | valid UTF-8 for any bytes: the units before the version, decoded strictly or salvaged |
| Names.NameEndIsUnique | providers/iso/joliet/joliet_parser.cpp:94-104 | the end of the name is determined |
| Names.VersionIsStripped | providers/iso/joliet/joliet_parser.cpp:94-104 | a version suffix goes; a semicolon with nothing behind it stays |
| Names.DirectoryKeepsName | providers/iso/joliet/joliet_parser.cpp:94-104 | a directory's name is all of its units |
| FtsQuery.NextOfAppended | src/scanner/search.cpp:14-59 | decoding undoes appending for every value below 0x200000 |
| FtsQuery.OtherwiseReplaced | src/scanner/search.cpp:16-40 | what is neither ASCII nor a complete sequence of two to four bytes is one byte and reads as U+FFFD |
| FtsQuery.NextOfFour | src/scanner/search.cpp:16-40 | a sequence of four bytes, as a number; overlong ones too |
| FtsQuery.DecodeUtf8Cp | src/scanner/search.cpp:16-40 | always advances, by the length of a complete sequence or by one byte |
| FtsQuery.InWordIff | src/scanner/search.cpp:75-80 | of ASCII exactly the digits and letters belong to words |
| FtsQuery.BuildFtsQuery | src/scanner/search.cpp:64-90 | exactly the maximal runs of word characters, each starred, joined by single spaces |
| FtsQuery.StarredSnoc | src/scanner/search.cpp:64-90 | a further word goes behind a space, and a star behind it |
| FtsQuery.Words | src/scanner/search.cpp:75-88 | every run is non-empty and holds word characters only |
| FtsQuery.BuildingIsIdempotent | src/scanner/search.cpp:64-90 | building from a built query changes nothing, for every byte string |
| FtsQuery.StarredReadsBack | src/scanner/search.cpp:64-90 | a built query has the same words as the query |
| FtsQuery.NothingIsLost | src/scanner/search.cpp:75-88 | the words together are all word characters in order |
| UdfDirectory.ReadDirectory | providers/iso/udf/udf_parser.cpp:389-502 | the growing buffer ends, stays in bounds and yields exactly the stream's entries |
| Sectors.BitsAddUp | providers/iso/udf/udf_parser.cpp:472-477 | the eight bits of a byte, weighed, are the byte |
| Sectors.BitsAreRead | providers/iso/udf/udf_parser.cpp:472-477 | flags put together from booleans are read back, whatever the upper ones are |
| Sectors.LittleEndian | providers/iso/iso9660/iso9660_parser.cpp:12-29 | numbers of two and four bytes, as byte times power of 256 |
| Sectors.FewestSectors | providers/iso/udf/udf_parser.cpp:403-412 | the sectors read for a size are the fewest that hold it, at 2048 bytes |
| Sectors.RunAt | providers/iso/iso9660/iso9660_parser.cpp:275-287 | byte i of consecutive sectors is byte i modulo 2048 of sector i divided by 2048 |
| UdfDirectory.DecodeFid | providers/iso/udf/udf_parser.cpp:472-495 | the entry of one descriptor; parents, deleted and nameless ones give none |
| UdfDirectory.ReportedIs | providers/iso/udf/udf_parser.cpp:403-412 | one sector at least, and as many as hold the reported size |
| UdfDirectory.Probe | providers/iso/udf/udf_parser.cpp:459-468 | the next sector is taken exactly when it can be read and is not all zero |
| UdfDirectory.ReadIsReached | providers/iso/udf/udf_parser.cpp:435-499 | the entries read are exactly those of the descriptors that can be reached from the reported sectors |
| UdfDirectory.SmallerSizeIsPrefix | providers/iso/udf/udf_parser.cpp:424-431 | a smaller reported size yields a prefix of what a larger one yields, across sector boundaries (4/14.4 of ECMA-167) |
| UdfDirectory.NothingMissedIff | providers/iso/udf/udf_parser.cpp:436-470 | all descriptors are seen exactly when each header is in loaded sectors and no zero sector is in the way |
| UdfDirectory.StreamAscends | providers/iso/udf/udf_parser.cpp:497-498 | descriptors of a directory follow one another without overlap |
| UdfRoundTrip.FidRoundTrip | providers/iso/udf/udf_parser.cpp:438-498 | a descriptor (4/14.4 of ECMA-167) written from its flags is read back with its decoded name, as a directory exactly if it is one, with location and size, and the reader moves on by its padded length; parents and deleted files give nothing |
| UdfRoundTrip.DirectoryRoundTrip | providers/iso/udf/udf_parser.cpp:433-501 | descriptors written one after the other are listed in order, without parents, deleted and nameless ones, and nothing of the padding |
| UdfRoundTrip.NamedFileIsListed | providers/iso/udf/udf_parser.cpp:477-494 | a file with a counted 16-bit name is listed under exactly the scalars it was named with |
| UdfFileEntry.CheckTag | providers/iso/udf/udf_parser.cpp:65-80 | a tag is accepted exactly when byte 4 is the sum of the other fifteen |
| UdfFileEntry.IsFileEntryIff | providers/iso/udf/udf_parser.cpp:324-348 | exactly the sectors with a right tag of either kind and a list of extents within the sector are read as file entries |
| UdfFileEntry.SaysOneThing | providers/iso/udf/udf_parser.cpp:324-355 | a file entry's sector determines size, type and extents |
| UdfFileEntry.EntryIsRead | providers/iso/udf/udf_parser.cpp:305-356 | a file entry or an extended one (4/14.9 and 4/14.17 of ECMA-167), written with its fields in their places and long descriptors, is read back with size, type and extents |
| UdfFileEntry.ReadFileEntry | providers/iso/udf/udf_parser.cpp:305-356 | succeeds exactly on a tagged file entry in a known partition, and yields what it says |
| UdfFileEntry.ReadDirectoryEntry | providers/iso/udf/udf_parser.cpp:389-502 | a directory is read exactly when its entry is a directory's, in a known partition, at most 64 deep and 8192 sectors large, with its sectors there |
| UdfFileEntry.ExtractEntry | providers/iso/iso_provider.cpp:139-172 | a file comes out by way of its entry with exactly the bytes its extents hold, or not at all |
| AllocationDescriptors.ParseAllocationDescriptors | providers/iso/udf/udf_parser.cpp:287-303 | all whole records of the guessed size within the length and a sector |
| AllocationDescriptors.RecordCount | providers/iso/udf/udf_parser.cpp:283-303 | a multiple of 16 bytes is as many long records, anything else as many whole short ones, no more than a sector holds |
| AllocationDescriptors.StaysInSectorIff | providers/iso/udf/udf_parser.cpp:334-348 | the records lie in the file entry's sector exactly below a bound on the recorded length |
| AllocationDescriptors.LongListIsRead | providers/iso/udf/udf_parser.cpp:283-303 | a list written as 16-byte records is read back whole, whatever its types and implementation use |
| AllocationDescriptors.ShortListIsReadIff | providers/iso/udf/udf_parser.cpp:283-303 | a list written as 8-byte records is read back exactly when it is empty or of odd length |
| Extraction.ExtractIsoFile | providers/iso/iso_provider.cpp:117-136 | writes exactly the first size bytes of the extent, and succeeds exactly when its sectors can be read |
| Extraction.ExtractExtent | providers/iso/iso_provider.cpp:158-169 | one extent in megabyte chunks, trimmed to its length and to what remains |
| Extraction.ExtractUdfFile | providers/iso/iso_provider.cpp:139-172 | the extents in order, as far as needed |
| Extraction.BlocksFollow | providers/iso/udf/udf_parser.cpp:504-511 | blocks follow each other from a partition's start; an unknown partition is the first one; without partitions there is no place |
| Extraction.ExtentAt | providers/iso/iso_provider.cpp:117-136 | byte i of an extent is byte i modulo 2048 of its sector i divided by 2048 |
| Extraction.ContentIsTheFirstBytes | providers/iso/iso_provider.cpp:152-171 | with readable extents: the first size bytes of all extents put together, and success exactly when they cover the size |
| Extraction.ContentIsComplete | providers/iso/iso_provider.cpp:171 | success never delivers fewer bytes than asked for |
| Extraction.NextChunk | providers/iso/iso_provider.cpp:125-134 | after whole sectors the next chunk goes on where the last one ended |
| IsoDirectory.ParseSuspArea | providers/iso/iso9660/iso9660_parser.cpp:45-142 | the loop follows continuations to a bounded depth and ends |
| IsoDirectory.AreaIsRead | providers/iso/iso9660/iso9660_parser.cpp:45-142 | a system use area written record by record is read as what its records say: names start anew or go on, the last mode and link count, others say nothing |
| IsoDirectory.BareLinkIsRead | providers/iso/iso9660/iso9660_parser.cpp:74-98 | a link record without components marks a link to nothing, also at the end of its area |
| IsoDirectory.SegmentsJoin | providers/iso/iso9660/iso9660_parser.cpp:55-67 | a name written in segments, the later ones marked as continuing, is put together again |
| IsoDirectory.ContinuationIsFollowed | providers/iso/iso9660/iso9660_parser.cpp:115-131 | a continuation is read where its record leads, at most eight deep, if that is a readable sector's and not empty |
| IsoDirectory.ContinuationIsReadIff | providers/iso/iso9660/iso9660_parser.cpp:119-127 | a continuation record of the protocol leads to the area it was written for exactly when its block number with its bytes reversed is its offset modulo 2048 and its offset is its length |
| IsoDirectory.ParseLink | providers/iso/iso9660/iso9660_parser.cpp:74-98 | a link's components in order, without slashes at the end |
| IsoDirectory.ComponentMeans | providers/iso/iso9660/iso9660_parser.cpp:84-95 | the flags of a link's component: up, root or here, in that order, then name and slash |
| IsoDirectory.LinkIsRead | providers/iso/iso9660/iso9660_parser.cpp:79-96 | components written one after the other are joined by slashes |
| IsoDirectory.LastSlashGoes | providers/iso/iso9660/iso9660_parser.cpp:97 | the slash behind the last component goes |
| IsoDirectory.ParseDirectoryRecord | providers/iso/iso9660/iso9660_parser.cpp:174-243 | one record, or none if it is padding or malformed |
| IsoDirectory.VersionGoes | providers/iso/iso9660/iso9660_parser.cpp:216-222 | a file loses its version, a directory's name stays whole |
| IsoDirectory.PlainNameIs | providers/iso/iso9660/iso9660_parser.cpp:196-222 | the dot entries, moved directories and versions of plain names |
| IsoDirectory.OffsetIsTaken | providers/iso/iso9660/iso9660_parser.cpp:226-236 | where the system use area starts: an offset record at its front counts exactly if it is at least seven bytes long and points into the record |
| IsoDirectory.RecordRoundTrip | providers/iso/iso9660/iso9660_parser.cpp:174-243 | a record (section 9.1 of ECMA-119) written from its flags and system use records is read back with extent, size, flags, placeholder, plain or Rock Ridge name, mode and link, whatever follows it |
| IsoDirectory.SectorRoundTrip | providers/iso/iso9660/iso9660_parser.cpp:376-398 | the records of a sector are listed in order, without dot entries |
| IsoDirectory.DirectoryRoundTrip | providers/iso/iso9660/iso9660_parser.cpp:360-401 | records packed into sectors without crossing (section 6.8.1 of ECMA-119) are read back in order |
| IsoDirectory.SectorsHoldIt | providers/iso/iso9660/iso9660_parser.cpp:364-367 | as many sectors as hold the directory, at most 65536 |
| IsoDirectory.ReadDirectory | providers/iso/iso9660/iso9660_parser.cpp:360-401 | all sectors of the size, at most 65536, or nothing if one cannot be read |

## Left out

- SQLite itself: SQL text, the write-ahead log, VACUUM, index merging, ranking and tokenizing; only table contents, next row ids and atomic commits are modelled.
- A failed statement or COMMIT leaves the transaction open; SQLite's own rollback after some errors is not modelled.
- Failing SELECTs outside a run: the queries of search, viewer and reports. In a run those of the orphan list, the source lookup, the path walk and the source's name may fail.
- Columns no decision depends on: dates, modes, sizes of sources, options, versions.
- Progress output, logging, signal handling (cancellation may turn on at any check), the HTTP server, the viewer and the command line.
- The file system: a directory is a finite tree, and an iteration error ends its listing; file content is a byte sequence.
- ScanTree.ExpandContainer: a provider's output is any sequence of virtual entries and registrations. ProviderPlan shows that the image walk is one and which rows it leaves; the walk itself runs on a log of writes instead of the tables.
- ScanTree.ComputeChecksums: the engines hash the content one after the other, not chunk by chunk in turn.
- ScanTree.Scanner.ScanDirectory: completeness covers the nodes the iteration delivers; a directory that cannot be opened delivers none, and the source counts no error for it. The total of bytes and the count of large files that were not probed are not kept.
- Catalog.FinishScan: the time of finishing is not kept.
- Expansion.Provider.WalkDirectory: the ISO 9660 and the UDF walk are one method with an admission rule per format; the wall-clock limit is off and inserts succeed.
- BlockDigest.BlockChecksum: SHA-256 and MD5 share one class, since their buffering is the same code; the state is a record of words instead of an array.
- IsoDirectory.ParseSuspArea: times are not kept; a name record shorter than five bytes counts as empty.
- IsoDirectory.ParseDirectoryRecord: times are not kept.
- AllocationDescriptors.ParseAllocationDescriptors: a recorded length that reaches past the bytes passed is not covered, since what the source then reads is not in them; AllocationDescriptors.StaysInSectorIff says when that is.
- UdfFileEntry.ReadFileEntry: times are not kept; an entry whose list of extents runs past its sector is not read.
- UdfDirectory.ReadDirectory: starts from the directory's first sector and size; UdfFileEntry.ReadDirectoryEntry finds them.
- Bit masks and shifts on bytes are written as ranges, quotients and remainders in Utf, FtsQuery and the directory readers.
- Opening volumes: descriptors, the search for a UDF root in the head of an image, and metadata partitions.
- Volume label strings, date parsing and the reading of plain numbers, which would only add easy members.
