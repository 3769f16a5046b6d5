# BlowTrial repository core in Dafny

This project models the data-store logic of the BlowTrial neonatal BCG
trial application (`BlowTrial/Domain/Providers/Repository.cs`).

The store holds six integer-keyed tables: study centres (sites), participants,
screened patients, vaccines, vaccines administered and protocol violations.
Each site owns the closed id range `[Id, MaxIdForSite]`, and every record a
site creates must take its id from that range.

The model covers:

- the partitioned id allocator (`GetNextId`);
- enrolment of a participant: the sibling branch, the envelope branch, the
  algorithmic branch, and the range check of `Add(Participant)`;
- the edit of a participant's details with its three violation checks, and
  the outcome form;
- the vaccine-administered synchronisation, the saving of a single protocol
  violation, and the bulk participant update;
- the snapshot merge of downloaded archives (`AddOrUpdateBaks`): site
  acceptance, the watermark, participant and screened-patient pulls, and
  added/updated classification;
- the archive bookkeeping: the cloud/data file scan and pairing, `Restore`'s
  due test and stamping, `Backup`'s naming and skip test, the limited backup
  filter, the migration memo and the site cache.

The pure rules are functions with lemmas and live in these modules:

| module | file | covers |
|---|---|---|
| `IdAllocation` | `id_allocation.dfy` | the id allocator |
| `Text` | `text.dfy` | `Trim` |
| `Numbering` | `numbering.dfy` | consecutive numbering of a batch, and the vaccine sync |
| `Enrolment` | `enrolment.dfy` | enrolment |
| `Revision` | `revision.dfy` | edits, outcomes, violations, the bulk update |
| `Merge` | `merge.dfy` | the archive merge |
| `Files` | `files.dfy` | file scan, restore and backup decisions |
| `LimitedBackup` | `limited.dfy` | the limited copy |

The repository object itself is the class `Store.Repository`
(`repository.dfy`). It has these fields:

- the tables (`db`);
- the lazily filled site dictionary (`siteCache`);
- the list of archives whose migration was forgone (`baksForgoingMigration`);
- the data directory (`dataDirectory`) and the cloud directories (`cloudDirectories`).

Each of its methods changes these fields as the source method does. Its
`ensures` ties the new state to the specification functions, and its
invariant `Valid()` (the cache, once filled, equals the site table; the memo
has no duplicates) is kept by every method. The source's loops are methods
with loop invariants, each proved against the function that specifies it:

| method | function |
|---|---|
| `InsertNumbered` | `InsertViolations` / `NumberViolations` |
| `PlaceRows` | `Upserted` / `Assign` |
| `OverwriteAll` | `Overwritten` |
| `WriteCentres` | `CentresWritten` |
| `AcceptAll` | `AcceptSites` |
| `Extract` | `StampAll` |
| the archive loop of `AddOrUpdateBaks` | `MergeRun` / `MemoAll` |

The collaborators whose code is not part of this model are fields of a
`Randomiser` value. They are taken to return (none of them throws), and
nothing else is assumed about what they return; `GetEnvelope` may know no
envelope of a number, which fails the enrolment with `EnvelopeNotFound`:

- `RandomisingEngine.CreateAllocation`, `ForceAllocationToArm` and `ReasignBlockRandomisingData`;
- `EnvelopeDetails.GetEnvelope` and `MaxEnvelopeNumber`;
- `RandomisingExtensions.IsSameRandomisingCategory`;
- `RandomisingEngine.MaxBirthWeightGrams`.

The migration routine `CodeBasedMigration.ApplyPendingMigrations` is a
function parameter `migrate`. The user name, the application version and the
clocks are an `Ambient` value. Change events are returned as lists of
`Change` values.

## Model

| member | source | states |
|---|---|---|
| IdAllocation.NextId | BlowTrial/Domain/Providers/Repository.cs:887-900 | For a positive site id, the result is 1 + (largest existing id in `[centreId, maxIdForSite]`, or `centreId` when there is none) if that is at most `maxIdForSite`, and `RangeExhausted` otherwise. A success lies in `(centreId, maxIdForSite]`, is not an existing id, and exceeds every in-range id. |
| IdAllocation.NextIdFor | BlowTrial/Domain/Providers/Repository.cs:887-889 | An unknown site fails with `SiteNotFound` (the `First` lookup throws); a known site gives `NextId` over that site's range. |
| IdAllocation.NextIdNeverWraps | BlowTrial/Domain/Providers/Repository.cs:894-897 | Once `maxIdForSite` is used, allocation throws `RangeExhausted` and never hands out an id of another site's range. |
| IdAllocation.AllocateManyFromEmptySite | BlowTrial/Domain/Providers/Repository.cs:887-900 | In a site with no record yet, n successive allocations hand out exactly `centreId + 1 .. centreId + n`. |
| IdAllocation.IdAboveEnvelopes | BlowTrial/Domain/Providers/Repository.cs:209-217 | For a non-negative envelope ceiling, the id of a same-sex sibling of an envelope participant is 1 + max(envelope ceiling, largest id above it), so it is above the ceiling and above every existing id. |
| IdAllocation.Max | BlowTrial/Domain/Providers/Repository.cs:890-892 | The maximum of a non-empty id set is an element and bounds every element (the LINQ `Max`). |
| Text.Trim | BlowTrial/Domain/Providers/Repository.cs:182 | The trimmed hospital identifier is the slice of the input between its leading and trailing white space; it neither starts nor ends with white space. |
| Text.TrimIdempotent | BlowTrial/Domain/Providers/Repository.cs:182 | Trimming twice equals trimming once. |
| Enrolment.AddChecked | BlowTrial/Domain/Providers/Repository.cs:245-264 | The participant is stored iff its site is known, its id lies in `[site id, MaxIdForSite]` and the id is free. Then exactly that row is added and the rest are kept. Otherwise it fails and nothing changes: `SiteNotFound` for an unknown site (the site lookup throws), then `IdBelowSite` or `IdAboveSite` for an id outside the range, then `DuplicateKey` for an id already taken (`SaveChanges` refuses the second key). |
| Enrolment.Enrol | BlowTrial/Domain/Providers/Repository.cs:162-244 | A successful enrolment stores the participant under an unused id inside its site's range, and changes nothing else in the table. |
| Enrolment.UnknownSiblingFails | BlowTrial/Domain/Providers/Repository.cs:196-202 | A sibling id the table does not hold makes the enrolment fail. |
| Enrolment.OppositeSexSiblingIgnored | BlowTrial/Domain/Providers/Repository.cs:196-206 | An opposite-sex sibling leaves the allocation exactly as if no sibling were named (no sibling id recorded). |
| Enrolment.SameSexSiblingWithEnvelope | BlowTrial/Domain/Providers/Repository.cs:203-218 | A same-sex sibling with an envelope: the arm is copied, the sibling id recorded, no block set, and the id is above the envelope ceiling and every existing id. |
| Enrolment.SameSexSiblingForced | BlowTrial/Domain/Providers/Repository.cs:203-223 | Without an envelope, `ForceAllocationToArm` receives the participant with the sibling's arm, the sibling's id and the site's next id. |
| Enrolment.EnvelopeOnly | BlowTrial/Domain/Providers/Repository.cs:226-235 | An envelope with no linked sibling: an envelope number `GetEnvelope` does not know fails with `EnvelopeNotFound`; otherwise the id is the envelope number, and the block, block size and arm are the envelope's. |
| Enrolment.EnvelopeMarksParticipant | BlowTrial/Domain/Providers/Repository.cs:193 | With an envelope, the allocated participant is marked envelope-randomised; without one, the participant handed to the randomising routines is not. |
| Enrolment.AlgorithmicAllocation | BlowTrial/Domain/Providers/Repository.cs:236-240 | With no sibling and no envelope, `CreateAllocation` receives the site's next id, an unused id in the site's range. A failing allocator fails the enrolment. |
| Numbering.Block | BlowTrial/Domain/Providers/Repository.cs:403-412 | The ids `start .. start + n - 1` of one numbered batch. |
| Numbering.Consecutive | BlowTrial/Domain/Providers/Repository.cs:403-412 | The k-th id of a batch is `start + k`. |
| Numbering.ViolationIdsOverrunSite | BlowTrial/Domain/Providers/Repository.cs:403-412 | As written, the ids after the first are never range-checked: with site 1 owning 1..3 and id 2 used, three violations get ids 3, 4, 5. |
| Numbering.BatchStart | BlowTrial/Domain/Providers/Repository.cs:527-535 | The corrected batch allocation: every id of the batch lies in the site's range and is free, or `RangeExhausted`. (Also lines 403-412.) |
| Numbering.BatchStartAgreesWhenInRange | BlowTrial/Domain/Providers/Repository.cs:527-535 | The correction succeeds iff the as-written ids all stay in the range, and then hands out the same ids. (Also lines 403-412.) |
| Numbering.NumberViolations | BlowTrial/Domain/Providers/Repository.cs:403-411 | The k-th violation has id `start + k`, this participant's id, type `MajorWrongAllocation`, the k-th detail, the local time and the current user. |
| Numbering.InsertViolations | BlowTrial/Domain/Providers/Repository.cs:404-411 | After inserting the rows, an id is present iff it was in the table or some row carries it. |
| Numbering.NumberedTable | BlowTrial/Domain/Providers/Repository.cs:403-411 | Inserting a fresh batch keeps every old row and stores the k-th new violation under `start + k`. |
| Numbering.NewCount | BlowTrial/Domain/Providers/Repository.cs:528-535 | The count of new rows (id 0) is at most the number of rows. |
| Numbering.Assign | BlowTrial/Domain/Providers/Repository.cs:528-549 | The loop's output has one row per given row. |
| Numbering.AssignAt | BlowTrial/Domain/Providers/Repository.cs:528-535 | Row k is re-parented and, if new, numbered by the count of new rows before it. |
| Numbering.NewCountStrictlyGrows | BlowTrial/Domain/Providers/Repository.cs:528-535 | Two new rows get different ids. |
| Numbering.IncludedIds | BlowTrial/Domain/Providers/Repository.cs:511-513 | The non-zero ids the list carries. |
| Numbering.Pruned | BlowTrial/Domain/Providers/Repository.cs:514-523 | The participant's rows whose ids the list does not carry are deleted; every other row is kept unchanged. |
| Numbering.Upserted | BlowTrial/Domain/Providers/Repository.cs:528-549 | After writing the rows, an id is present iff it was in the table or some row carries it; rows not written keep their values. |
| Numbering.SyncVaccines | BlowTrial/Domain/Providers/Repository.cs:509-550 | The delete always stands. On success the table is the pruned table with the re-parented and numbered rows written over it. (Corrected: the batch's ids are range-checked, see the first row of "## Findings".) |
| Numbering.SyncStart | BlowTrial/Domain/Providers/Repository.cs:524-527 | An unknown participant or site fails the lookup; otherwise the corrected batch start in the participant's site. (Corrected: the batch's ids are range-checked, see the first row of "## Findings".) |
| Numbering.MissingId | BlowTrial/Domain/Providers/Repository.cs:536-543 | A listed non-zero id the table does not hold (the row whose save fails). |
| Numbering.SyncOwnRowsAreListed | BlowTrial/Domain/Providers/Repository.cs:509-550 | After a successful sync, a row belongs to the participant iff its id is a listed id or one of the new ids. |
| Numbering.SyncKeepsOtherRows | BlowTrial/Domain/Providers/Repository.cs:509-550 | Other participants' rows that the list does not name are untouched; new rows never overwrite an existing one. |
| Numbering.OutcomeSyncReparentsEveryRow | BlowTrial/Domain/Providers/Repository.cs:483 | The outcome form's call, as written, passes every row of the table, so a successful sync makes every row this participant's. |
| Numbering.OutcomeSyncAsWrittenExample | BlowTrial/Domain/Providers/Repository.cs:483 | Concretely: participant 2's vaccine row 11 is moved to participant 1 when participant 1's outcome is saved. |
| Revision.FlagCount | BlowTrial/Domain/Providers/Repository.cs:362-402 | The number of fired checks is at most 3, and 0 iff the result is `NoViolations`. |
| Revision.CategoryCheck | BlowTrial/Domain/Providers/Repository.cs:363-383 | One `BlockCriteriaChanged` detail iff the randomising category differs. For an envelope participant the block number and size are then cleared; otherwise the block is re-assigned by the collaborator. |
| Revision.WeightCheck | BlowTrial/Domain/Providers/Repository.cs:384-393 | One `RetrospectivelyIneligible` detail iff the new weight exceeds `MaxBirthWeightGrams`, and then the weight is written. |
| Revision.SiblingCheck | BlowTrial/Domain/Providers/Repository.cs:394-402 | One `SiblingIdChanged` detail iff the sibling id differs; the new sibling id is written. |
| Revision.Checked | BlowTrial/Domain/Providers/Repository.cs:362-402 | Each flag holds iff its check fires and iff a detail of its kind is present; the number of details equals the number of flags. |
| Revision.WithEdit | BlowTrial/Domain/Providers/Repository.cs:413-420 | The edit writes the form's detail fields and leaves the mother's name, the sex and every other field as stored. |
| Revision.ViolationStart | BlowTrial/Domain/Providers/Repository.cs:403 | The violations are numbered in the participant's own site (an unknown site fails). (Corrected: the batch's ids are range-checked, see the first row of "## Findings".) |
| Revision.Revise | BlowTrial/Domain/Providers/Repository.cs:346-427 | An unknown participant fails. On success, only this participant's row is replaced, and the returned flags are the checks' flags. (Corrected: the batch's ids are range-checked, see the first row of "## Findings".) |
| Revision.ReviseWrites | BlowTrial/Domain/Providers/Repository.cs:346-427 | The saved participant is the checked one with the edited details. The violations table is the old one plus the details numbered from the site's batch start. (Corrected: the batch's ids are range-checked, see the first row of "## Findings".) |
| Revision.ReviseAddsOneViolationPerFlag | BlowTrial/Domain/Providers/Repository.cs:362-412 | The old violations are kept, and exactly one new record per fired check is added under consecutive ids from the site's next id. Each carries this participant's id, type `MajorWrongAllocation`, the local time and the user. (Corrected: the batch's ids are range-checked, see the first row of "## Findings".) |
| Revision.ReviseReportsEachFlag | BlowTrial/Domain/Providers/Repository.cs:362-412 | The returned flags are exactly the kinds the new records report (one-to-one correspondence). (Corrected: the batch's ids are range-checked, see the first row of "## Findings".) |
| Revision.QuietEditAddsNothing | BlowTrial/Domain/Providers/Repository.cs:362-420 | When no check fires, the result is `NoViolations`, no record is added, and the details are written. |
| Revision.EnvelopeCategoryChangeClearsBlock | BlowTrial/Domain/Providers/Repository.cs:373-377 | A category change of an envelope-randomised participant clears `BlockNumber` and `BlockSize`. |
| Revision.RecordOutcome | BlowTrial/Domain/Providers/Repository.cs:444-492 | An unknown participant changes nothing. A saved outcome writes the outcome fields and the modification time. A failed sync leaves the participants unchanged. Without a vaccine list, the vaccines are untouched; with one, the vaccines table and the error are those of `SyncVaccines` over that list. (Corrected: the form's list is synchronised instead of the whole table, and the batch's ids are range-checked; see both rows of "## Findings".) |
| Revision.OutcomeChangesOnlyOutcome | BlowTrial/Domain/Providers/Repository.cs:458-470 | Saving an outcome touches no other participant and, of this one, only the outcome and the modification time. |
| Revision.SaveViolation | BlowTrial/Domain/Providers/Repository.cs:286-324 | A missing participant id fails. A non-zero id overwrites the stored row (or fails if it is absent). A new violation gets its site's next id, which lies in the site's range and is free, plus the local time and the user, and raises `ViolationAdded`. |
| Revision.NewViolationNeverCollides | BlowTrial/Domain/Providers/Repository.cs:292-300 | The id given to a new violation is always free, so saving it fails only on the lookups. |
| Revision.Overwritten | BlowTrial/Domain/Providers/Repository.cs:571-574 | After the overwrite, an id is present iff it was in the table or listed. |
| Revision.UpdateAll | BlowTrial/Domain/Providers/Repository.cs:561-576 | An id 0 fails first. Otherwise the update succeeds iff every listed id is held, and then every row is overwritten in order and no row is added. |
| Revision.FirstUnknown | BlowTrial/Domain/Providers/Repository.cs:571-574 | A listed id the table does not hold (`First` throws on it). |
| Revision.OverwriteKeepsRow | BlowTrial/Domain/Providers/Repository.cs:571-574 | An unlisted participant keeps its row. |
| Revision.OverwriteTakesLast | BlowTrial/Domain/Providers/Repository.cs:571-574 | A listed participant holds the values of the last listing of its id. |
| Files.LastDot | BlowTrial/Domain/Providers/Repository.cs:915-922 | The index of the last '.' of a name, or -1. |
| Files.WithExtension | BlowTrial/Domain/Providers/Repository.cs:602-603 | Appending an extension and taking it off again (`GetExtension` / `GetFileNameWithoutExtension`) are inverse. (Also line 624.) |
| Files.CloudZips | BlowTrial/Domain/Providers/Repository.cs:910-917 | A zip is scanned iff it lies in a cloud directory and its name has the database prefix, length prefix + 37 and extension ".zip". |
| Files.Recognised | BlowTrial/Domain/Providers/Repository.cs:914-916 | A file of one directory is kept iff its name passes the filter. |
| Files.FirstWithBase | BlowTrial/Domain/Providers/Repository.cs:924 | The first scanned zip with a given base name, or none. |
| Files.MatchPairsPassGuards | BlowTrial/Domain/Providers/Repository.cs:902-933 | Every scanned pair passes `MatchedFilePair`'s extension guards, and an extracted copy shares its zip's base name. (Also lines 968-996.) |
| Files.DuePairs | BlowTrial/Domain/Providers/Repository.cs:636-640 | At most the scanned pairs, and none when no pair is due. |
| Files.DuePairsMembers | BlowTrial/Domain/Providers/Repository.cs:636-638 | Restore extracts exactly the due pairs: no extracted copy, or a copy created before the zip's last write. |
| Files.Stamped | BlowTrial/Domain/Providers/Repository.cs:661 | A stamped copy is not due. |
| Files.StampAll | BlowTrial/Domain/Providers/Repository.cs:644-662 | Extraction never removes a data file. |
| Files.StampDueAt | BlowTrial/Domain/Providers/Repository.cs:644-662 | After stamping, pair i's data file is its stamped copy if it was due, and the old file otherwise. |
| Files.RestoreSettles | BlowTrial/Domain/Providers/Repository.cs:636-661 | When the zips have distinct base names, a second Restore over unchanged zips finds no due pair. |
| Files.DuplicateBaseStaysDue | BlowTrial/Domain/Providers/Repository.cs:924-928 | A second zip with the same base name (in another cloud directory) never gets an extracted copy and is due on every Restore. |
| Files.BackupNameIsRecognised | BlowTrial/Domain/Providers/Repository.cs:602-603 | The zip Backup writes passes the scan's filter, and it extracts to the name of the entry it holds. (Also lines 624 and 914-916.) |
| Files.MaxOpt | BlowTrial/Domain/Providers/Repository.cs:609-617 | LINQ `Max` over nullable values: null iff all are null, and otherwise the largest non-null value. |
| Files.FindFile | BlowTrial/Domain/Providers/Repository.cs:605-607 | The file of a directory with a given name, or none iff no file has it. |
| Files.WriteFile | BlowTrial/Domain/Providers/Repository.cs:623-629 | After writing, the named file is the one written and every other name is unaffected. |
| Files.BackupPlan | BlowTrial/Domain/Providers/Repository.cs:591-631 | A zip is written iff the data file exists and either there is no zip of that name or some table changed strictly after the zip's last write (the skip test is `>=`). The zip and entry names follow the scheme. |
| Files.BackupAfterWriteSkips | BlowTrial/Domain/Providers/Repository.cs:605-621 | After a zip is written no earlier than every table's last change, the next Backup skips. |
| LimitedBackup.Keep | BlowTrial/Domain/Providers/Repository.cs:693-699 | A row survives iff its id lies in some given site's closed range, with its value unchanged. |
| LimitedBackup.LimitedCopy | BlowTrial/Domain/Providers/Repository.cs:686-702 | No site: `NoSitesGiven`. Otherwise the centres, participants, violations, screened patients and vaccines administered keep exactly the rows in the sites' ranges; vaccines are not filtered. |
| LimitedBackup.LimitedCopyIdempotent | BlowTrial/Domain/Providers/Repository.cs:693-699 | Limiting a limited copy to the same sites changes nothing. |
| LimitedBackup.KeepIdempotent | BlowTrial/Domain/Providers/Repository.cs:693-699 | A table already inside the ranges is its own limitation. |
| LimitedBackup.LimitedBackupName | BlowTrial/Domain/Providers/Repository.cs:691 | A name exists iff a site is given, and it ends in ".sdf". |
| Merge.Watermark | BlowTrial/Domain/Providers/Repository.cs:749-751 | The watermark is the archive's last backup time raised to `SqlDateTime.MinValue`. |
| Merge.AscendingIds | BlowTrial/Domain/Providers/Repository.cs:724-729 | The ids of a set, strictly ascending, each exactly once. |
| Merge.NewSites | BlowTrial/Domain/Providers/Repository.cs:724-729 | The archive's sites whose token is not yet known, exactly. |
| Merge.CheckSite | BlowTrial/Domain/Providers/Repository.cs:732-743 | A new site passes iff its id differs from, and its range is disjoint from, every known site. A reused id is `DuplicateDataKey`. |
| Merge.AcceptSites | BlowTrial/Domain/Providers/Repository.cs:730-747 | On success, the known sites are extended by the new ones in order, and one range per new site is appended. |
| Merge.CheckSiteKeepsDisjoint | BlowTrial/Domain/Providers/Repository.cs:732-743 | Adding a site to disjoint sites keeps them disjoint iff it passes the check. |
| Merge.AcceptSitesIffDisjoint | BlowTrial/Domain/Providers/Repository.cs:730-747 | Acceptance succeeds iff the known sites plus the new ones have distinct ids and pairwise disjoint closed ranges, counting sites accepted earlier in the same loop. |
| Merge.DuplicateSiteRefused | BlowTrial/Domain/Providers/Repository.cs:734-737 | A new site reusing a known id is refused, whatever follows it. |
| Merge.Select | BlowTrial/Domain/Providers/Repository.cs:771-773 | The selected rows, unchanged. (Also lines 806-808.) |
| Merge.Upsert | BlowTrial/Domain/Providers/Repository.cs:784 | Insert-or-overwrite: pulled rows win, and other local rows are kept. (Also line 809.) |
| Merge.SiteTable | BlowTrial/Domain/Providers/Repository.cs:744-746 | The accepted sites keyed by id. |
| Merge.ChildPullIsNoOp | BlowTrial/Domain/Providers/Repository.cs:753-769 | The vaccine, vaccine-administered and violation pulls, as written, read the local tables and leave them as they were. (Also lines 821-828.) |
| Merge.AddedIds | BlowTrial/Domain/Providers/Repository.cs:780-804 | The pulled ids the table did not hold. |
| Merge.UpdatedIds | BlowTrial/Domain/Providers/Repository.cs:780-795 | The pulled ids the table already held. |
| Merge.VaxDrivenIds | BlowTrial/Domain/Providers/Repository.cs:762-794 | The local, unpulled participants owning a vaccine administration in an accepted range. |
| Merge.InRangeViolations | BlowTrial/Domain/Providers/Repository.cs:821-835 | The local violations whose id lies in an accepted range. |
| Merge.MergeArchive | BlowTrial/Domain/Providers/Repository.cs:721-836 | One archive never changes the vaccines, vaccines administered or violations. |
| Merge.Pulled | BlowTrial/Domain/Providers/Repository.cs:771-835 | The pull step keeps the known sites, the ranges and the site table. |
| Merge.MergeArchiveParticipants | BlowTrial/Domain/Providers/Repository.cs:771-784 | A remote participant ends in the table with its remote values iff it changed after the watermark or belongs to a newly accepted site; other local rows are unchanged. |
| Merge.MergeArchiveReportsAdded | BlowTrial/Domain/Providers/Repository.cs:775-804 | The participants reported as added are exactly the pulled ones whose id was not in the table before the write. |
| Merge.MergeArchiveReportsUpdated | BlowTrial/Domain/Providers/Repository.cs:775-796 | The participants reported as updated are the vaccine-driven local ones, then exactly the pulled ones whose id was in the table before the write. |
| Merge.Attempted | BlowTrial/Domain/Providers/Repository.cs:721-836 | The run opens every archive, or stops at the one that fails. |
| Merge.RunEvents | BlowTrial/Domain/Providers/Repository.cs:829-855 | Violations are reported as they are pulled. Participants added, then those updated, are reported only when every archive merged. |
| Merge.Start | BlowTrial/Domain/Providers/Repository.cs:716-720 | A run starts from the local tables, with their sites known and nothing accepted or reported. |
| Merge.MergeRunKeepsChildTables | BlowTrial/Domain/Providers/Repository.cs:753-769 | A whole run never imports an archive's vaccines, vaccines administered or violations. (Also lines 821-828.) |
| Merge.MergeRunKeepsSitesDisjoint | BlowTrial/Domain/Providers/Repository.cs:730-747 | The known sites stay disjoint over a whole run, failing or not. |
| Merge.MergedSitesKnown | BlowTrial/Domain/Providers/Repository.cs:724-747 | After an archive is merged, all of its sites are known by token. |
| Merge.NoNewSites | BlowTrial/Domain/Providers/Repository.cs:724-729 | With every site known, the site step accepts nothing. |
| Merge.RemergeChangesNothing | BlowTrial/Domain/Providers/Repository.cs:724-809 | A later run that starts afresh from the merged tables (`Start`) and merges the same archive again succeeds and changes no table, given a site table that stores each site under its own id. |
| Merge.RemergeFrom | BlowTrial/Domain/Providers/Repository.cs:724-809 | Once every site of an archive is known by token, merging it again succeeds and changes no table. |
| Merge.SitesStayTabled | BlowTrial/Domain/Providers/Repository.cs:724-747 | The site step keeps the known sites exactly the rows of the site table, each stored under its own id. |
| Merge.AcceptedIdsFresh | BlowTrial/Domain/Providers/Repository.cs:732-743 | Every accepted site has an id that no known site and no earlier accepted site has. |
| Merge.RunFails | BlowTrial/Domain/Providers/Repository.cs:721-747 | An archive that fails ends the run with its error, keeping the archives before it; i + 1 archives were opened. (Also line 837.) |
| Store.Memo | BlowTrial/Domain/Providers/Repository.cs:703-713 | A listed file is not migrated again. An unlisted file is added exactly when the migration does not run. |
| Store.MemoAllKeepsNoDuplicates | BlowTrial/Domain/Providers/Repository.cs:703-713 | The memo never holds a file twice, and a file once in it stays. |
| Store.Latest | BlowTrial/Domain/Providers/Repository.cs:609-616 | A table's latest modification time, or null iff the table is empty. |
| Store.FirstSiteId | BlowTrial/Domain/Providers/Repository.cs:602 | The first local site, as the smallest site id. |
| Store.RestoreBaks | BlowTrial/Domain/Providers/Repository.cs:650-660 | Each due pair gives its extracted name, and the copy's old creation time (`DateTime.MinValue` for a first extraction) as the last backup time. |
| Store.CentresWritten | BlowTrial/Domain/Providers/Repository.cs:277-285 | After writing the sites, an id is present iff it was in the table or listed. |
| Store.CentresWrittenAt | BlowTrial/Domain/Providers/Repository.cs:277-285 | A listed site is stored as last listed. |
| Store.CentresWrittenKeeps | BlowTrial/Domain/Providers/Repository.cs:277-285 | An unlisted site keeps its row. |
| Store.LimitedResult | BlowTrial/Domain/Providers/Repository.cs:686-702 | Fails with `NoSitesGiven` iff no site is given. Otherwise it returns the destination name and the limited tables. |
| Store.NothingDue | BlowTrial/Domain/Providers/Repository.cs:640 | With nothing due, Restore merges nothing, reports nothing and leaves the memo. |
| Store.InsertNumbered | BlowTrial/Domain/Providers/Repository.cs:403-411 | The `nextPvId++` loop inserts exactly `NumberViolations` from the start id. |
| Store.PlaceRows | BlowTrial/Domain/Providers/Repository.cs:528-549 | The `nextId++` loop writes exactly the re-parented, numbered rows (`Assign`) over the pruned table. |
| Store.OverwriteAll | BlowTrial/Domain/Providers/Repository.cs:571-574 | The loop of `Update(participants)` computes `Overwritten`. |
| Store.WriteCentres | BlowTrial/Domain/Providers/Repository.cs:279-283 | The loop of `AddOrUpdate(centres)` computes `CentresWritten`. |
| Store.AcceptAll | BlowTrial/Domain/Providers/Repository.cs:730-747 | The site loop computes `AcceptSites`. On success it accepted every candidate, with the site table of the new sites. |
| Store.Extract | BlowTrial/Domain/Providers/Repository.cs:644-662 | The extraction loop computes `StampAll` over the due pairs. |
| Store.SiteStep | BlowTrial/Domain/Providers/Repository.cs:724-747 | The site step of one archive agrees with `AfterSites`; when no site is accepted, the site table is unchanged. |
| Store.Repository.constructor | BlowTrial/Domain/Providers/Repository.cs:37-41 | A new repository has no site cache and an empty memo. |
| Store.Repository.LocalStudyCentreDictionary | BlowTrial/Domain/Providers/Repository.cs:117-139 | The dictionary is filled from the site table on first use and is the site table. |
| Store.Repository.FindStudyCentre | BlowTrial/Domain/Providers/Repository.cs:146-149 | A known id gives its site; an unknown id gives `SiteNotFound`. |
| Store.Repository.GetNextId | BlowTrial/Domain/Providers/Repository.cs:887-900 | Equals `NextIdFor` over the site table. |
| Store.Repository.Add | BlowTrial/Domain/Providers/Repository.cs:245-264 | The participants table becomes `AddChecked`'s table with a `ParticipantAdded` event, or is unchanged with the error. |
| Store.Repository.AddParticipant | BlowTrial/Domain/Providers/Repository.cs:162-244 | Agrees with `Enrol`: the new participant is stored and reported, or the error is returned and nothing changes. |
| Store.Repository.AllocateParticipant | BlowTrial/Domain/Providers/Repository.cs:178-240 | Agrees with `Allocate` over the current tables and leaves the tables, the memo and the directories unchanged. |
| Store.Repository.UpdateParticipant | BlowTrial/Domain/Providers/Repository.cs:346-427 | Agrees with `Revise`: participants and violations become the revised tables, the flags are returned and the participant is reported as updated (the new violations raise no event); or the error is returned and nothing changes. (Corrected: the batch's ids are range-checked, see the first row of "## Findings".) |
| Store.Repository.AddOrUpdateVaccinesAdministered | BlowTrial/Domain/Providers/Repository.cs:509-550 | The vaccines-administered table and the error agree with `SyncVaccines`, and no other table changes. (Corrected: the batch's ids are range-checked, see the first row of "## Findings".) |
| Store.Repository.UpdateOutcome | BlowTrial/Domain/Providers/Repository.cs:444-492 | Agrees with `RecordOutcome`, and reports the participant as updated on success. (Corrected: the form's list is synchronised instead of the whole table, and the batch's ids are range-checked; see both rows of "## Findings".) |
| Store.Repository.AddOrUpdateVaccinesFor | BlowTrial/Domain/Providers/Repository.cs:497-508 | The sync as in `SyncVaccines`, then the participant reported as updated on success. (Corrected: the batch's ids are range-checked, see the first row of "## Findings".) |
| Store.Repository.AddOrUpdateViolation | BlowTrial/Domain/Providers/Repository.cs:286-324 | Agrees with `SaveViolation`: the violations table and the events, or the error with nothing changed. |
| Store.Repository.UpdateParticipants | BlowTrial/Domain/Providers/Repository.cs:561-576 | Agrees with `UpdateAll`: all rows overwritten, or the error with nothing changed. |
| Store.Repository.AddOrUpdateCentres | BlowTrial/Domain/Providers/Repository.cs:277-285 | The site table becomes `CentresWritten`, and the site dictionary is discarded. |
| Store.Repository.MigrateIfRequired | BlowTrial/Domain/Providers/Repository.cs:703-713 | The memo becomes `Memo` of the old memo and the file. |
| Store.Repository.AcceptNewSites | BlowTrial/Domain/Providers/Repository.cs:724-747 | Agrees with `AfterSites`, and discards the site dictionary whenever a site is accepted. |
| Store.Repository.MergeOne | BlowTrial/Domain/Providers/Repository.cs:721-838 | One archive: migrated if required, then merged as `MergeArchive`; the tables are kept on failure. |
| Store.Repository.AddOrUpdateBaks | BlowTrial/Domain/Providers/Repository.cs:714-863 | The tables, the error and the events are those of `MergeRun` and `RunEvents`. The memo covers the archives opened, up to and including the one that failed. |
| Store.Repository.MergeInRun | BlowTrial/Domain/Providers/Repository.cs:714-838 | One turn of the archive loop: the memo grows by the file, and the run either stops at this archive with its error or continues with `MergeRun` over one more archive. |
| Store.Repository.Restore | BlowTrial/Domain/Providers/Repository.cs:633-667 | The data directory is stamped over the due pairs, and the extracted files are merged as `AddOrUpdateBaks` merges them. When the zips have distinct base names, nothing is due afterwards, and a Restore with nothing due changes nothing and raises no notification: a second Restore over unchanged zips is a no-op. |
| Store.Repository.ExtractAndMerge | BlowTrial/Domain/Providers/Repository.cs:644-665 | The data directory is stamped over the given pairs, and the extracted files are merged as in `AddOrUpdateBaks`. |
| Store.Repository.Backup | BlowTrial/Domain/Providers/Repository.cs:591-631 | No data file: nothing. No local site: `NoLocalSite`. No cloud directory: `NoCloudDirectory`. Otherwise the zip is written to the first cloud directory exactly when `BackupPlan` says so. |
| Store.Repository.BackupLimitedDbTo | BlowTrial/Domain/Providers/Repository.cs:686-702 | Restore first, and its error propagates; then `LimitedResult` of the restored tables. |

## Left out

- The Entity Framework and SQL Server Compact plumbing is not modelled: `AsNoTracking`, `Local` entry states, `AttachDb`, raw SQL strings, `SaveChanges`, `Dispose` and re-creating the context. A table is a map, and a save is all-or-nothing; entries left pending in the context after an exception are not modelled.
- `RecordLastModified` stamping by the data context on save is not modelled; the model keeps the values the repository itself writes.
- Zip reading and writing, and the filesystem, are not modelled. Files are records with a name, two integer UTC times and the tables they hold.
- `_dbContext.BackupDb()` becomes the parameters `bakExists` and `bakFileName` of `Backup`; the DEBUG-only check that there is a single cloud directory is left out.
- `BackupLimitedDbTo` returns the destination name and the limited tables instead of copying the file to a directory.
- The user, the application version and the clocks are an `Ambient` value. `CodeBasedMigration.ApplyPendingMigrations` is the function parameter `migrate`.
- Events are returned `Change` lists, not delegates. The `VaccinesAdministered` collection attached to participants in events is not modelled.
- The randomisation collaborators are the uninterpreted fields of `Randomiser`; no block-balancing behaviour is modelled.
- `Add(ScreenedPatient)`, `Update(ScreenedPatient)`, `Update(Participant)` (a one-element `Update(participants)`), `Add(Vaccine)`, `GetFilenamesAndCentres`, `FindParticipant`, `FindViolation`, the summaries and the view-models are outside this model.
- The screened-patient "added" list of the merge (which queries the local table around an unsaved upsert) is not modelled; screened patients are only upserted.
- `Merge.ChildPullAsWritten`: the vaccine, vaccine-administered and violation pulls are modelled as written (they read the local tables and discard the `RecordLastModified` clause), which makes them a no-op; the merge therefore never changes those tables.
- An archive is merged as a whole: sites of a failing archive that were accepted before the failing site are not kept in the model's tables.
- `Store.FirstSiteId`: `LocalStudyCentres.First()` is taken to be the site with the smallest id; the dictionary's enumeration order is not modelled.
- `Merge.NewSites`: the archive's site table is taken to be read in ascending id order.
- `Numbering.SyncVaccines`, `Revision.Revise`, `Revision.RecordOutcome` and the repository methods built on them (`UpdateParticipant`, `AddOrUpdateVaccinesAdministered`, `AddOrUpdateVaccinesFor`, `UpdateOutcome`) model the corrected behaviour of "## Findings"; the code as written is stated only by the as-written members named there.
- The randomisation collaborators are taken to be total apart from `GetEnvelope`: an exception thrown inside `CreateAllocation`, `ForceAllocationToArm`, `ReasignBlockRandomisingData` or `IsSameRandomisingCategory` is not modelled.
- The text of a violation's `Details` (the `string.Format` calls of 365-371, 386-389 and 396-399, and `GenderString` of 326-329) is not built: a detail is a record holding the values the text formats (weights, sexes, sibling ids).
- `Text.IsWhiteSpace`: only the ASCII white space, NEL and the no-break space are recognised; the other Unicode space separators `String.Trim` removes are not.
- `IdAllocation.NextId`: ids are unbounded integers; the 32-bit `int` of the source never wraps in the model. Its exact-value contract is stated for positive site ids, as the trial's sites have.
- `Files.MatchPairs`: the data directory is a map keyed by file name, so the scan's "first zip with that base name" rule is applied directly instead of by scanning the data directory's files.
- `Files.RestoreSettles` needs the scanned zips to have distinct base names; `Files.DuplicateBaseStaysDue` shows what happens otherwise.

## Findings

| source | as written | input that shows it | evidently intended | confidence | as-written member | corrected member |
|---|---|---|---|---|---|---|
| BlowTrial/Domain/Providers/Repository.cs:403-412, 527-535 | The first id of a batch comes from `GetNextId` and the later ones from `nextId++`, with no check against `MaxIdForSite`. | Site 1 owns ids 1..3 and violation 2 exists; an edit that fires three checks numbers its violations 3, 4, 5, and 4 and 5 fall outside site 1's range. | Every id of the batch lies in the site's range, or the call throws `DataKeyOutOfRangeException`. | not executed | Numbering.ViolationIdsOverrunSite | Numbering.BatchStartAgreesWhenInRange |
| BlowTrial/Domain/Providers/Repository.cs:483 | The outcome form passes `_dbContext.VaccinesAdministered` (every row of the table) to the sync instead of the form's list. | Participant 1 has row 10 and participant 2 has row 11; saving participant 1's outcome re-parents row 11 to participant 1. | Only the participant's own, listed rows are synchronised. | not executed | Numbering.OutcomeSyncAsWrittenExample | Numbering.SyncOwnRowsAreListed |
