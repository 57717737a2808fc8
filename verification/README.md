# Verified models of the TA-payment backend

This project models the protocols and algorithms of the backend on which other parts silently rely, and proves what
they promise. Each module follows one source file (or two, where one is a second instance of the other). Code that
changes things step by step is a class or a method with loops, proved against a specification function; the
properties are lemmas about those functions or about every run of a state machine.

`dafny verify dfyconfig.toml` checks everything.

## What is modelled

- **Checkpoints of a sandbox slot** (`Relational`, `Triggers`, `Greedy`, `Checkpoint`, `SavedRows`, `CatalogOrders`,
  `SavedCheckpoints`, `Slot`, `CheckpointExamples`, `SaveExamples`). Rows, foreign keys with NULLs and
  self-references, triggers on INSERT that refuse a row, store it otherwise, or change other tables once it is in,
  `TRUNCATE ... CASCADE`, the loop that retries each INSERT under a savepoint, and the save that copies table after
  table while others write. `Greedy` is the retry loop over any items whose chance to go in depends only on what is in
  already.
- **The slot registry shared by many callers** (`SlotProtocol`, `SlotRuns`, `SlotHistory`, `SlotAlone`, `SlotRemoval`,
  `SlotExamples`). Every SQL
  statement of `Claim`, `Release`, adding and removing testers and the login check is one step; any number of calls
  interleave, any call may abort anywhere, and logins and resets mark slots as active in between. `SKIP LOCKED`, row
  locks with the WHERE clause checked again, and the partial unique index (with an uncommitted writer making others
  wait) are explicit.
- **The migration runner** (`Migrations`), booted by several instances that may fail or crash at any statement.
- **Rotation of the document key** (`KeyRotation`), with each system call failing, storing other bytes, or being the
  last before the process dies; and what repeated runs can achieve.
- **Thai line breaking and the roster's pages** (`WrapThai`, `LineEdges`, `Roster`, `RosterLayout`), over exact real
  widths.
- **The translator of outgoing messages** (`Text`, `Formats`, `FormatPlaces`, `Messages`, `MessageParts`, `Dates`,
  `DateYears`, `DatePieces`, `DateContexts`, `DateFronts`): matching a message against keys that are formats, filling the English, the depth-limited recursion
  over lines, words and separators, and the dates.
- **The allocation of TAs to courses** (`Allocation`) from a rotating cursor.
- **The audit throttle** (`Throttle`, `ThrottleRaces`), sequentially and with its map operations interleaved.
- **Smaller codecs and gates**: the slot credential (`ClaimToken`, `Base64Url`), download headers (`Disposition`,
  `HeaderText`), masking of digit runs (`DigitMask`, `DigitLeaks`), the session gate and its two forced flows (`AccountGuard`).

## Environment assumptions

- The database runs at READ COMMITTED. A scan FOR UPDATE SKIP LOCKED is atomic; an UPDATE of a locked row waits and
  evaluates its WHERE clause again. `owner_email` is unique where it is not NULL
  (`migrations/demo_registry/0090_demo_workspace_owner_unique.up.sql`).
- A trigger that refuses a row looks for rows that are present, those its own statement inserted before it included,
  and so refuses more, never less, as more of the checkpoint is in place
  (`migrations/0124_worklog_export_lock_enforced.up.sql` and
  `migrations/0131_worklog_no_cross_course_double_pay.up.sql` are of this form).
- A trigger that runs after an INSERT turns one row of another table into a different one, when that row and others it
  joins are present, and writes to a further table (`migrations/0123_staff_review_resets_on_change.up.sql` with the
  body of `migrations/0141_staff_review_reset_notifies.up.sql`). Such triggers are `Triggers.Harmless`: they keep the
  columns foreign keys point at, at most set a reference to NULL, write to tables nobody refers to rows that refer to
  existing ones, and neither undo each other nor touch what a refusal or another trigger looks for. The tables they
  write to are stored exactly as saved: no later default or column type and no trigger before an INSERT changes their
  rows. `MonthIsHarmless` shows all this of the two on `work_logs`.
- A trigger before an INSERT, a changed column type or a new default may store a row otherwise than it was saved
  (`migrations/0133_worklog_hours_exact_minutes.up.sql`), as a fixed function of the row, in tables no other trigger
  writes to.
- Advisory locks belong to the connection and end with it.
- A sealed document opens under the key that sealed it and under no other. The MAC is any function of key and payload;
  a credential of the registry model can only come from `SignSlotClaim`.
- Clocks do not run backwards, except in `ThrottleRaces`, where requests read any times in any order. Widths and page
  positions are exact reals.

## Where the code and its comments part

Each of these is a theorem with a concrete run or input, and the exact condition beside it.

- Leaving `sessions` out of the checkpoint does not keep its rows: it refers to `users`, so `TRUNCATE ... CASCADE`
  empties it on every restore (`UncopiedTableIsEmptied`; exact condition `UncopiedTableSurvivesIff`). The comment at
  `internal/demo/checkpoint.go:30-35` says the opposite. The same happens to every table a save had not reached when it
  failed, because the save has dropped the previous checkpoint by then (`Slot.SaveCheckpoint`).
- With an exported month in the slot, whether a checkpoint can be restored depends on the order in which the catalog
  lists its tables (`ExportedMonthDependsOnCatalogOrder`; exact condition for all orders
  `EveryCatalogOrderRestoresIff`). Without an armed trigger the retry loop equals a topological sort.
- With a month signed off by staff in the slot, a restore succeeds whether the catalog lists `work_logs` before or
  after `submission_period_status`, but in the second case the trigger on `work_logs` resets the sign-off it finds and
  writes notifications, and the saved rows do not come back (`ReviewedMonthDependsOnCatalogOrder`,
  `ReviewedMonthLosesItsSignOff`; exact conditions `GivesBackIff` for one order, `EveryCatalogOrderGivesBackIff` for
  all). So "exactly the data last stored" (`internal/demo/checkpoint.go:77-80`) holds under those conditions only.
- A save between whose statements somebody writes can copy a row without the row it refers to, and then restores in no
  order (`DisturbedSaveNeverRestores`; exact condition for a copy `ForeignKeysAdmitOrderIff`).
- `ErrFull` can be returned while a slot is free: it was released between the two scans (`FullThoughOneSlotIsFree`; exact
  condition for each slot `SlotFreeAtFullIff`).
- Removing a tester and releasing the slot does not keep the slot in the pool when a `Claim` that had already looked
  up the tier is still running (`RemovedTesterCanStillTakeASlot`; exact condition `CanEndOwningIff`); the login check
  still refuses that email.
- The resume recipe of the key-rotation tool never completes after a run that stopped part of the way
  (`ResumeCompletesIff`). Rotating back with the keys exchanged and then forward does (`RollBackThenForward`).
- A message key that spans lines is tried only if every unknown line would come back trimmed from an empty catalog
  (`LineKeysAreTriedIff`). For lines without ": ", " · " and " — " this means that no line is indented or ends in white
  space (`PlainLineKeysAreTriedIff`); one indented line is enough to leave a message untranslated (`IndentHidesTheKey`).
  The comment at `internal/i18n/i18n.go:113-118` asks only that no line is known.
- A pair of entries "name · value" or "name — value" is translated in both parts as a message of its own, but inside
  another message, as in "label: name · value", the name is taken as a known head with words glued on and the value
  stays Thai (`ValueIsLostIff`). The comment at `internal/i18n/i18n.go:174` has messages assembled from parts in view.
- A line may begin with sara aa or paiyannoi, torn off its syllable (`SaraAaIsTornOff`): the list at
  `internal/pdfgen/appointment_order.go:377-387` leaves both out, though the comments above it name them.
- A date whose month also ends a month name that begins earlier need not be converted: "ก.พ.ค. 2569" becomes "Febค. 2026"
  (`NameAcrossSpoilsDate`). It is converted exactly when the reading of the text takes no month name that stands across
  its front (`DateInTextIff`).
- A course held back as pending or rejected gives one TA all its classes (`TaRepeatedIff`).
- A slot credential is accepted for up to just under one second beyond 12 hours (`LastAcceptedInstant`).
- A session found idle can become acceptable again if marking it failed and the activity update of a request accepted
  earlier arrives late (`IdleStaysRejectedIff`).
- A disclosure that is throttled has an attempted row within the hour, not necessarily a written one
  (`SkippedLookMayHaveNoRow`). Once the attempts made before it have been decided, one of them has its row exactly when
  the write of one of them did not fail (`LookHasRowIff`).

## Model

| member | source | states |
|---|---|---|
| Slot.Slot.SaveCheckpoint | internal/demo/checkpoint.go:53-75 | statement by statement, with others writing in between and the connection lost before any of them: what the checkpoint then holds, from the old one to a copy of every table but the two excluded ones, each as its own statement saw it |
| Slot.Slot.RestoreCheckpoint | internal/demo/checkpoint.go:87-151 | every outcome: no checkpoint, a missing live table, a lost connection, tables stuck (exactly when the loop stalls, and exactly those), or success; any result but success leaves the live schema as it was, save that a COMMIT whose answer is lost is reported as a lost connection with the restored rows in place; at most n passes and n(n+1)/2 inserts |
| Slot.RetryInserts | internal/demo/checkpoint.go:122-148 | the loop over shrinking `pending` ends with no table left or with exactly the stuck ones, within the same bounds |
| Slot.OnePass | internal/demo/checkpoint.go:126-143 | one pass tries each pending table once, keeps what those that go in and their triggers leave, and lists the others in order |
| Relational.Cascade | internal/demo/manager.go:550-564 | the truncated tables: the listed ones, closed under "is referred to by" |
| Relational.CascadeIsLeast | internal/demo/manager.go:550-564 | and nothing more: they are inside every set that is closed in this way |
| Relational.TruncateKeepsConsistency | internal/demo/manager.go:542-564 | truncating with cascade never leaves a dangling reference |
| Triggers.SameInsertSucceeds | migrations/0123_staff_review_resets_on_change.up.sql:36-53 | what triggers did to other tables does not decide whether an INSERT succeeds |
| Triggers.PerformKeepsLike | migrations/0123_staff_review_resets_on_change.up.sql:36-53 | an INSERT with its triggers leaves the inserted rows, and elsewhere only the rows triggers exchange changed |
| Triggers.LikeIsConsistent | migrations/0141_staff_review_reset_notifies.up.sql:1-106 | and a consistent database stays consistent under them |
| Checkpoint.MoreRowsMeetMore | internal/demo/checkpoint.go:132-139 | an insert that succeeds keeps succeeding as other checkpoint tables are filled in, and a refusal stays a refusal |
| Checkpoint.RetryIsSettle | internal/demo/checkpoint.go:122-148 | the retry loop over real rows, triggers included, leaves stuck the tables the abstract loop over table names does, and elsewhere what the restored tables and their triggers make |
| Checkpoint.RetryPerforms | internal/demo/checkpoint.go:122-148 | and the database is that of performing its successful inserts, triggers included, in the order it found |
| Greedy.SucceedsIffSomeOrderWorks | internal/demo/checkpoint.go:82-86 | for any items with monotone needs, retrying to a fixed point succeeds if and only if some order works |
| Greedy.EveryListingSucceedsIff | internal/demo/checkpoint.go:122-148 | with refusals: every listing succeeds if and only if the needs alone admit an order and no item is refused by all that can go in without it |
| Greedy.CanBeOvertakenIff | internal/demo/checkpoint.go:122-148 | some legal run ends in a refused item if and only if some item is refused by the fixed point of the others without refusals |
| Greedy.SomeListingPutsAfterIff | internal/demo/checkpoint.go:122-148 | some listing brings an item in after given others if and only if those can all go in without it |
| Greedy.OvertakenListingFails | internal/demo/checkpoint.go:144-146 | a listing that puts the refusing items first fails |
| Checkpoint.RestoresIffSomeOrderWorks | internal/demo/checkpoint.go:82-86 | with no refusal armed, a restore succeeds if and only if some order of whole-table inserts satisfies every foreign key |
| Checkpoint.StuckIgnoresCatalogOrder | internal/demo/checkpoint.go:80-86 | and the set of tables reported as stuck does not depend on the catalog order |
| Checkpoint.EveryCatalogOrderRestoresIff | internal/demo/checkpoint.go:122-148 | all catalog orders restore if and only if the foreign keys admit an order and no table is refused once everything restorable without it is in |
| SavedRows.RestoreKeepsForeignKeys | internal/demo/checkpoint.go:77-80 | after a successful restore all foreign keys hold, and every table no trigger writes to holds the stored form of its saved rows, or its old rows, or none if the cascade reached it |
| SavedRows.RunLeavesRowsIff | internal/demo/checkpoint.go:122-148 | a run of inserts leaves its rows and nothing else if and only if no trigger fires at any of its steps |
| SavedRows.GivesBackIff | internal/demo/checkpoint.go:77-80 | a successful restore gives back exactly the saved rows if and only if they are stored as given and each trigger the checkpoint would set off has its table restored before some table it needs |
| SavedRows.NotBackMeansLost | internal/demo/checkpoint.go:77-80 | otherwise a saved row some trigger looks for is gone, and all that differs is what triggers changed |
| SavedRows.EveryCatalogOrderGivesBackIff | internal/demo/checkpoint.go:77-151 | every catalog order gives back exactly the saved rows if and only if all restore, the rows are stored as given, and no trigger the checkpoint would set off can have all it needs restored before its own table |
| SavedRows.OutcomeIgnoresCatalogOrderIff | internal/demo/checkpoint.go:80-86 | where some order gives the saved rows back and all restore, all tables, those triggers write aside into included, are the same in every order if and only if no such trigger can be set off |
| CatalogOrders.SomeCatalogOrderRestoresIff | internal/demo/checkpoint.go:122-148 | some catalog order restores if and only if some order of whole-table inserts works, refusals included |
| CatalogOrders.EveryCatalogOrderEndsAlikeIff | internal/demo/checkpoint.go:80-86 | for any checkpoint in which the triggers that look for one row watch the same table and need the same tables: all catalog orders end alike if and only if no order of inserts works at all, or all orders restore and each trigger the checkpoint would set off is set off in none or in all of them; told from what can be restored without one table |
| CatalogOrders.RunToIs | migrations/0141_staff_review_reset_notifies.up.sql:1-106 | in a run that sets them off, the first of those triggers in the order of the inserted rows decides what becomes of the row, the same in every such run |
| SavedCheckpoints.UndisturbedSaveIsCopy | internal/demo/checkpoint.go:53-75 | with no writer in between, a save is a copy of the slot without the excluded tables |
| SavedCheckpoints.CopiedAt | internal/demo/checkpoint.go:67-72 | with writers in between, each copied table is as its own statement saw it |
| SavedCheckpoints.ForeignKeysAdmitOrderIff | internal/demo/checkpoint.go:80-86 | without cycles of references, self-references apart, the tables can be ordered if and only if no reference dangles once all are back |
| SavedCheckpoints.SavedCheckpointRestoresIff | internal/demo/checkpoint.go:53-151 | a checkpoint of a slot that is consistent as its rows are stored, acyclic, with no reference from a copied into an excluded table, restores after any writes and in every catalog order if and only if no table is refused once everything restorable without it is in |
| SavedCheckpoints.SavedCheckpointComesBackIff | internal/demo/checkpoint.go:53-151 | and gives back exactly the saved rows in every order if and only if, moreover, they are stored as given and no trigger can be set off |
| SavedCheckpoints.DanglingCopyNeverRestores | internal/demo/checkpoint.go:53-151 | a copy with a dangling reference, as a save beside writers can make it, restores in no catalog order |
| SaveExamples.DisturbedSaveNeverRestores | internal/demo/checkpoint.go:67-72 | a save of two tables, each statement of which saw a consistent slot, whose copy has a dangling reference and restores in no state of the slot and no catalog order |
| SavedCheckpoints.UncopiedTableIsEmptied | internal/demo/checkpoint.go:30-36 | a table left out of the checkpoint, or not reached by a save that failed, is empty after a restore if it refers to a copied one |
| SavedCheckpoints.UncopiedTableSurvivesIff | internal/demo/checkpoint.go:30-36 | such a table keeps its rows if and only if no chain of references leads from it to a copied table, or it had none |
| CheckpointExamples.MonthIsHarmless | migrations/0141_staff_review_reset_notifies.up.sql:1-106 | nine tables with their foreign keys and the two triggers on work_logs meet the assumptions on triggers |
| CheckpointExamples.ExportedMonthDependsOnCatalogOrder | migrations/0124_worklog_export_lock_enforced.up.sql:10-41 | over these tables, a checkpoint of an exported month restores in one catalog order and cannot be restored in another |
| CheckpointExamples.ReviewedMonthDependsOnCatalogOrder | migrations/0123_staff_review_resets_on_change.up.sql:36-53 | a checkpoint of a month signed off by staff restores in both, and gives the saved rows back in one of them only |
| CheckpointExamples.ReviewedMonthLosesItsSignOff | migrations/0123_staff_review_resets_on_change.up.sql:36-53 | in the other the month is left pending review |
| SlotProtocol.FirstFree | internal/demo/manager.go:274-280 | the free scan takes the lowest free unlocked slot, and none only if there is none |
| SlotProtocol.StepKinds | internal/demo/manager.go:249-335 | every step of any call is one of five kinds: it leaves locks and picks alone, takes a lock on a slot that stands as picked, writes, commits, or rolls back |
| SlotProtocol.StepKeepsInv | internal/demo/manager.go:249-361 | every step keeps: locks match their holders, one slot per email, uncommitted owners conflict with nobody, every pick still stands |
| SlotRuns.NoEmailOwnsTwoSlots | internal/demo/manager.go:302-320 | at no point of any interleaving does one email own two slots |
| SlotRuns.OwnerLosesSlotOnlyBy | internal/demo/manager.go:282-299 | an owner loses its slot only to its own Release or to a reclaim after the idle limit |
| SlotRuns.DisplacedOnlyWhenIdleAndNothingFree | internal/demo/manager.go:282-299 | a displaced owner was idle past the limit, and the claimer had seen every slot owned or locked |
| SlotRuns.ActiveOwnerIsKept | internal/demo/manager.go:373-381 | an owner who logs in or resets the slot is displaced, if at all, only after a full idle limit from then on |
| SlotRuns.FreeSlotGivenOnce | internal/demo/manager.go:273-281 | two hand-outs of one slot as free have a Release of its owner between them |
| SlotRuns.AnswerWasOwned | internal/demo/manager.go:344-361 | the slot a Claim answers with was owned by its email at some point before the answer |
| SlotRuns.ClaimsOfOneEmailAgree | internal/demo/manager.go:302-320 | two claims of one email answer with the same slot unless a Release or reclaim took one of them in between |
| SlotRuns.SlotFreedOnlyBy | internal/demo/manager.go:391-416 | a slot stops being taken only by a Release or by the rollback of a transaction that had picked it free |
| SlotRuns.FullMeansEverySlotWasTaken | internal/demo/manager.go:294-296 | ErrFull: every slot was owned or locked at the free scan, and none unlocked was idle at the idle scan; so all were owned and active or locked unless one was freed in between |
| SlotRuns.SlotFreeAtFullIff | internal/demo/manager.go:274-296 | slot by slot: free at that answer if and only if its last change after the free scan was a Release of its owner or the rollback of a transaction that had picked it free |
| SlotExamples.FullThoughOneSlotIsFree | internal/demo/manager.go:274-296 | a run in which ErrFull is returned with a slot free |
| SlotRuns.GrantMeansThreeReads | internal/demo/manager.go:436-458 | a granted login was made on the slot its credential names, and after it began read, in this order: that credential signed and unexpired, its email owning that slot, that email listed with the granted tier |
| SlotRuns.LoginIsForItsSlot | internal/demo/manager.go:436-443 | over every run, a login made on slot i with a credential is only ever granted for that credential, and only if it names slot i |
| SlotRuns.CredentialWasOwned | internal/demo/manager.go:426-433 | a credential was signed at the end of a Claim of its email, which owned its slot before that |
| SlotAlone.LoginAlone | internal/demo/manager.go:436-458 | a login with no other statement in between is granted, with the listed tier, if and only if its credential is signed, unexpired and for this slot and its email owns the slot and is listed; nothing else changes |
| SlotRuns.RemovedTesterStaysOut | internal/demo/admin.go:84-94 | after removal and release have finished, no later login with a credential of that email, on the slot it names or any other, is granted before it owns the slot again and then is listed again |
| SlotRuns.GrantOnlyWhileListed | internal/demo/authorized.go:40-56 | a login is only granted at a step where the email is listed |
| SlotExamples.RemovedTesterCanStillTakeASlot | internal/demo/admin.go:84-94 | a run in which removal and release finish and the removed email still ends up owning a slot |
| SlotAlone.ClaimOfUnlisted | internal/demo/manager.go:254-260 | an email that is not listed is turned away at the first read |
| SlotAlone.ClaimOfOwner | internal/demo/manager.go:344-361 | undisturbed, a Claim of an owner answers with its slot, marks only its activity and signs for 12 hours |
| SlotAlone.ClaimWithoutMark | internal/demo/manager.go:354-360 | a failing activity mark does not keep it from its answer, and then changes no row |
| SlotAlone.ClaimOfFreeSlot | internal/demo/manager.go:266-334 | undisturbed, a Claim of a listed email without a slot takes the lowest free slot, owned, claimed and active from the beginning of its transaction, and leaves no lock |
| SlotAlone.ClaimOfIdleSlot | internal/demo/manager.go:280-334 | with nothing free it can take a slot if and only if that is idle past the limit, unlocked and the longest idle, and then replaces its owner |
| SlotAlone.ClaimOfFullHouse | internal/demo/manager.go:294-296 | with nothing free and nothing idle it answers ErrFull and changes nothing |
| SlotAlone.ReleaseAlone | internal/demo/manager.go:391-416 | undisturbed, a Release takes the email from its slot and says so |
| SlotAlone.ReleaseOfNobody | internal/demo/manager.go:391-416 | of an email without a slot it changes nothing and says so |
| SlotHistory.CallsKeepTheirEmail | internal/demo/manager.go:249-361 | over every run, whatever a Claim or Release does or answers is about the email it was called for |
| SlotHistory.ReleaseTellsTheTruth | internal/demo/manager.go:391-416 | over every run, a Release reports a change if and only if its own update took the email from a slot it owned |
| SlotHistory.ListAndClock | internal/demo/authorized.go:35-56 | over every run, an email is listed as it was last added or removed, whatever calls do in between |
| SlotRemoval.CanEndOwningIff | internal/demo/manager.go:246-320 | an email not listed and without a slot can end up owning one, without being listed again, if and only if a Claim of it is past its tier lookup and has yet to look for a free slot, or has one to write, or looks for an idle one that is there or that an older transaction would leave |
| SlotRemoval.RemovedTesterTakesNoSlot | internal/demo/admin.go:84-94 | after removal and release, with no such Claim, the email owns no slot at any later point of the run before it is listed again |
| Migrations.StepKeepsInv | internal/db/migrate.go:31-96 | every statement, failure, lost COMMIT answer and crash keeps: recorded versions and committed effects are the same list without repeats, only the lock holder is inside |
| Migrations.EachBodyExactlyOnce | internal/db/migrate.go:65-95 | over every interleaving, a body has taken effect exactly once if its version is recorded and not at all otherwise |
| Migrations.NilMeansAllApplied | internal/db/migrate.go:65-96 | an instance that returned nil has all its files applied, then and ever after |
| Migrations.NobodyFailsBecauseOfAnother | internal/db/migrate.go:22-96 | over every run, what an instance returns is an error if and only if one of its own statements failed or the answer to its own COMMIT was lost |
| Migrations.UnheardCommitStands | internal/db/migrate.go:91-93 | a file whose COMMIT went through stays applied, whether its answer arrived or not |
| Migrations.EveryoneReturns | internal/db/migrate.go:36-96 | an instance executes at most 4 + 5n statements for n files, and when none can go on, all have returned or crashed unless an unlock failed |
| Migrations.AloneItMigrates | internal/db/migrate.go:36-96 | the machine of the instances, left with one that finds the lock free: it returns nil after exactly the statements the loop has, with exactly the missing files applied and recorded in order and the lock free |
| Migrations.AloneItStopsAtBrokenBody | internal/db/migrate.go:83-86 | and if the body of a missing file fails: the files before it applied, nothing of it, the error returned, the lock free |
| Migrations.AppliedIsPrefix | internal/db/migrate.go:63-95 | the applied migrations stay a prefix of the sorted list the instances ship prefixes of |
| Migrations.Database.Migrate | internal/db/migrate.go:65-96 | one run appends exactly the missing files in order; it fails if and only if the failing body belongs to a file that is missing when its turn comes, and then stops right before it |
| KeyRotation.Store.RotateFile | cmd/rotate-docs-key/main.go:131-177 | for every fate of its eight calls, the first read and the nonce included: succeeds exactly when the file opens under the old key and no call fails, and otherwise leaves the document as it was; no file changes but this one and its temp file, which stays exactly where the process dies or the rename fails |
| KeyRotation.Store.Rotate | cmd/rotate-docs-key/main.go:71-98 | the walk rotates exactly the documents before the first failure, and completes exactly when there is none |
| KeyRotation.NoDocumentLost | cmd/rotate-docs-key/main.go:71-177 | wherever a run stops or dies, each readable document still opens to its plaintext, under exactly one of the two keys |
| KeyRotation.RotateWell | cmd/rotate-docs-key/main.go:63-106 | a run without faults completes if and only if every document opens under OLD_KEY, and keeps every plaintext |
| KeyRotation.CanCompleteIff | cmd/rotate-docs-key/main.go:35-46 | some sequence of OLD_KEY settings completes if and only if the documents are under one key up to some point and under the new key after it |
| KeyRotation.ResumeCompletesIff | cmd/rotate-docs-key/main.go:35-46 | after an interrupted run that is only so if it had rotated nothing or everything |
| KeyRotation.RollBackThenForward | cmd/rotate-docs-key/main.go:35-46 | exchanging the keys for one run and rotating forward again recovers |
| WrapThai.Wrap | internal/pdfgen/appointment_order.go:315-355 | the loop terminates for every text and width and produces the specified lines |
| WrapThai.FindCut | internal/pdfgen/appointment_order.go:319-348 | the inner loop finds the specified cut, strictly after the start of the line |
| WrapThai.FillIsGreedy | internal/pdfgen/appointment_order.go:321-339 | a line takes clusters while they fit, at least one, and remembers the last space break |
| WrapThai.LinesKeepTheText | internal/pdfgen/appointment_order.go:315-355 | the text is its lines joined by runs of spaces and nothing else |
| WrapThai.EveryLineIsGood | internal/pdfgen/appointment_order.go:315-387 | every cut is where a break is allowed; the line fits or is one cluster; it is cut where the next cluster would not fit, or at the last space keeping 60% of the width |
| WrapThai.EveryPrintedLineFits | internal/pdfgen/appointment_order.go:315-355 | with additive widths every printed line fits or is one unbreakable cluster |
| LineEdges.BreaksBetween | internal/pdfgen/appointment_order.go:358-387 | a break is allowed between two characters if and only if neither the first is one of the leading vowels and opening signs nor the second one of the marks, tone signs and closing signs, all of them listed |
| LineEdges.LinesBeginAndEndWell | internal/pdfgen/appointment_order.go:315-387 | for every text, width and font, no line after the first begins with one of those marks or closing signs and none ends with a leading vowel or opening sign, unless the text has a space there |
| LineEdges.SaraAaBreaksLikeAConsonant | internal/pdfgen/appointment_order.go:358-387 | sara aa and paiyannoi, which the comments name, are treated as consonants are |
| LineEdges.SaraAaIsTornOff | internal/pdfgen/appointment_order.go:315-387 | a consonant and its sara aa, too wide together, stand on two lines |
| Roster.Pdf.DrawRoster | internal/pdfgen/appointment_order.go:195-279 | the nested loops draw the specified page sequence |
| Roster.RosterInOrder | internal/pdfgen/appointment_order.go:195-279 | every level, course, name line and appointee is drawn exactly once and in order |
| Roster.HeaderRepeatsOnEveryPage | internal/pdfgen/appointment_order.go:195-279 | in the whole roster every page turned begins with a level, a course, or the column header repeated before the next appointee, and every appointee stands below a column header on its page with only appointees between |
| Roster.CourseInsideMarginIff | internal/pdfgen/appointment_order.go:218-246 | a course head stays above the bottom margin if and only if its name lines and header fit; with two name lines they always do |
| Roster.RosterInsideMargin | internal/pdfgen/appointment_order.go:195-279 | when every course name wraps to at most two lines, no row crosses the bottom margin |
| RosterLayout.RosterIsLaid | internal/pdfgen/appointment_order.go:195-279 | in the whole roster every row stands one line below the one before on its page, or where a course line shares its baseline or a course gap follows; and a page is turned if and only if the next row or block would not have fitted |
| Formats.ScanKeepsText | internal/i18n/i18n.go:43-91 | cutting a key at its verbs loses nothing: the chunks with the verbs between them are the key |
| Formats.MatchSpells | internal/i18n/i18n.go:62-91 | captured values have the kind of their verb, and interleaved with the literal chunks they spell the message |
| Formats.MatchFinds | internal/i18n/i18n.go:71-85 | any way to spell a message is found, or beaten by one preferred at its first difference: text captures as short, numbers as long as possible |
| Formats.MatchesIff | internal/i18n/i18n.go:62-91 | a key matches exactly the messages its format can produce |
| Formats.CompilePlain | internal/i18n/i18n.go:68-82 | a key without %% compiles to its own chunks |
| Formats.Fill | internal/i18n/i18n.go:197-213 | plain verbs take the values in order, %[n] by position, a verb without a value stays, all other text is kept |
| FormatPlaces.ScanInverts | internal/i18n/i18n.go:43-91 | a format written with plain chunks and verbs of any index, flags, width, precision and letter is scanned into exactly those chunks and verbs |
| FormatPlaces.FillsPlaces | internal/i18n/i18n.go:197-213 | filling it replaces every %[n] by the n-th value and the other verbs by the values one after the other, as in `internal/i18n/catalog_en.json:1692`, and keeps all else |
| FormatPlaces.UnescapeUndoesDoubling | internal/i18n/i18n.go:68-82 | a doubled percent sign of a key stands for one, and nothing else changes |
| Formats.FillUndoesMatch | internal/i18n/i18n.go:62-213 | for a key without %% and %[n], filling the key with what it captured gives the message back |
| Messages.TranslateMessage | internal/i18n/i18n.go:108-193 | the recursive method with its loops terminates for every message, catalog and depth, and computes the specified text |
| Messages.Swallowed | internal/i18n/i18n.go:274-287 | true exactly if some value holds more than 30 Thai characters, the baht sign not counted |
| Messages.ForeignAsEmpty | internal/i18n/i18n.go:108-193 | a message none of whose fragments the catalog knows is treated as by the empty catalog |
| Messages.EmptyKeepsText | internal/i18n/i18n.go:108-193 | the empty catalog changes white space only |
| Messages.ForeignKeepsText | internal/i18n/i18n.go:108-193 | hence an unknown message differs from its translation in white space only |
| Messages.EmptyLeavesPlain | internal/i18n/i18n.go:174-193 | and an unknown text without separators is left exactly as it is |
| Messages.AddedKeyIsUsed | internal/i18n/i18n.go:137-159 | a message a key without %% can produce is recognised by that key, wherever it stands in a catalog in which no earlier key gives an answer: the captured values spell it, and the English is filled with their translations, unless one is still a Thai sentence |
| Messages.KnownNotice | internal/i18n/i18n.go:119-136 | a notice whose every line is an entry becomes the English lines, in order |
| Messages.KnownWithTail | internal/i18n/i18n.go:155-173 | a known message with up to four words after it becomes its English with the translated words after it, unless a longer part of it is known or the words are a Thai sentence |
| Messages.KnownWithCode | internal/i18n/i18n.go:155-173 | so an entry with an unknown code after it becomes its English with that code after it |
| MessageParts.LinesAreTranslated | internal/i18n/i18n.go:119-136 | a message of several lines, some of them known: each line is translated on its own with the catalog, an unknown one stays |
| MessageParts.FirstKeyAnswers | internal/i18n/i18n.go:137-159 | the first key that gives anything fills its English with what it captured, each value translated on its own with the catalog |
| MessageParts.PartsAreTranslated | internal/i18n/i18n.go:174-191 | a message known only in its parts: the first separator with a known part divides it, every part is translated on its own with the catalog, and the same separator joins them |
| MessageParts.NothingKnownStays | internal/i18n/i18n.go:108-193 | a message that none of the five ways translates comes back as it was |
| MessageParts.KnownParts | internal/i18n/i18n.go:174-191 | for every separator: parts that are entries come out in English and unknown parts unchanged, between the same separators |
| MessageParts.LabelAndValue | internal/i18n/i18n.go:174-191 | so "label: value" with both words in the catalog comes out with both translated |
| MessageParts.NameAndValue | internal/i18n/i18n.go:155-191 | so does "name · value" or "name — value" as a whole message, whichever way it is taken apart |
| MessageParts.ValueIsLostIff | internal/i18n/i18n.go:155-173 | one level down the value of such a pair stays Thai if and only if sign and value have at most 30 Thai characters |
| MessageParts.KeyOfVerbsIsDropped | internal/i18n/i18n.go:62-91 | a key is dropped if and only if nothing is left of it without its verbs |
| Messages.LineKeysAreTriedIff | internal/i18n/i18n.go:113-136 | with every line foreign to the catalog, a key that spans lines is used if and only if every line comes back trimmed from the empty catalog; otherwise only white space changes |
| Messages.PlainLineKeysAreTriedIff | internal/i18n/i18n.go:113-136 | for lines without separators: if and only if no line begins or ends with white space; otherwise nothing is translated |
| Messages.IndentHidesTheKey | internal/i18n/i18n.go:113-136 | a message such a key matches, left untranslated because one line is indented |
| Messages.T | internal/i18n/i18n.go:96-106 | other locales and messages without Thai pass unchanged; in English no Thai month name is left |
| Dates.TableIsGood | internal/i18n/i18n.go:232-236 | no month name or abbreviation begins another, and their letters are Thai or dots |
| Dates.DatesLeaveNoMonth | internal/i18n/i18n.go:255-270 | no Thai month name is left anywhere in the output |
| Dates.DatesOnlyTouchMonths | internal/i18n/i18n.go:255-270 | text without a month name is unchanged, academic years included |
| Dates.DatesIdempotent | internal/i18n/i18n.go:255-270 | converting twice is converting once |
| Dates.YearsLeaveNoDate | internal/i18n/i18n.go:264-268 | after the first pass no month is followed by a Buddhist-era year |
| Dates.YearsKeepWords | internal/i18n/i18n.go:264-268 | the first pass changes only digits and gaps |
| DatePieces.DatesByPiece | internal/i18n/i18n.go:255-270 | every text whatever is a run of kept characters, month names, and gaps with a year 2500-2599 right after a month name; the two passes keep the first, translate the second and shift the third by 543, each in its place |
| DateContexts.YearIsShifted | internal/i18n/i18n.go:264-268 | between any two texts, a gap and such a year after a month name become a blank and the year less 543, and the texts convert as if each stood alone |
| DateYears.YearIff | internal/i18n/i18n.go:241-249 | a year is four digits that spell a number from 2500 to 2599 |
| DateYears.GapIff | internal/i18n/i18n.go:241-249 | it counts as a date's year behind any run of spaces, tabs, line feeds, form feeds and carriage returns |
| DateYears.YearConverts | internal/i18n/i18n.go:264-268 | it becomes four digits that spell that number less 543 |
| DateFronts.DatesConcatIff | internal/i18n/i18n.go:255-270 | any text converts part by part at a cut if and only if the reading takes no month name across the cut and every year of the whole that ends behind it is a year of the rest by itself |
| DateFronts.DateInTextIff | internal/i18n/i18n.go:255-270 | between any two texts, a whole date becomes an English one with the texts converted on their own if and only if the reading takes no month name that stands across its front |
| DateFronts.MonthInTextIff | internal/i18n/i18n.go:255-270 | between any two texts, a month name becomes its English name with the texts converted on their own if and only if the reading takes no month name that stands across its front and every year that ends behind it is a year of what follows by itself |
| DateContexts.NameAcrossSpoilsDate | internal/i18n/i18n.go:255-270 | a text whose date is not converted because an earlier name is read across it |
| Allocation.Allocator.Pick | internal/demo/scenario_presentation.go:580-590 | the first eligible TA from the cursor on, going round; nil if and only if nobody in the pool is eligible |
| Allocation.CursorReaches | internal/demo/scenario_presentation.go:581-583 | every pool position comes up within one round of the cursor, so two rounds miss nobody |
| Allocation.Allocator.GiveClass | internal/demo/scenario_presentation.go:611-630 | in an approved course, but for the capped TA's own classes, the class goes to the first TA from the cursor on who is free that day, below two courses and not in the course yet, and to nobody only if there is none; the books record it exactly for courses that are not held back |
| Allocation.Allocator.StaffCourse | internal/demo/scenario_presentation.go:611-631 | TAs go round the regular sections in order, each the one whose turn it is by the books before that class; nobody picked repeats in the course |
| Allocation.Allocator.GradAssignments | internal/demo/scenario_presentation.go:632-638 | every graduate TA asked for is on every special section, in order |
| Allocation.Allocator.Allocate | internal/demo/scenario_presentation.go:570-640 | for every course list: every class goes to the TA whose turn it is by the assignments before it; nobody but the capped TA has two classes on one day, two in one course, or more than two courses |
| Allocation.Allocator.NilMeansNobodyFree | internal/demo/scenario_presentation.go:580-626 | whenever a class of an approved course is given to nobody, every TA of the pool but the capped one has, by the assignments before it, a class that day, two courses, or a class in this course |
| Allocation.Allocator.TaRepeatedIff | internal/demo/scenario_presentation.go:615-626 | a TA repeats within a course if and only if the course is held back and asks for two or more |
| Throttle.AuditThrottle.Due | internal/handler/audit_read.go:123-131 | due unless marked less than an hour ago; marks the key exactly when due |
| Throttle.AuditThrottle.Record | internal/handler/audit_read.go:90-107 | a due look writes one row, or unmarks its key when the write fails |
| Throttle.AuditThrottle.Sweep | internal/handler/audit_read.go:136-143 | removes exactly the marks whose hour is over, in any order of keys |
| Throttle.RunIsGood | internal/handler/audit_read.go:66-143 | in every sequential run, rows of one key are at least an hour apart |
| Throttle.RunsRowsPerSpan | internal/handler/audit_view.go:289-332 | in every sequential run, any span L holds at most floor(L/1h)+1 rows of any key |
| Throttle.EveryLookHasARow | internal/handler/audit_read.go:66-109 | every disclosure whose own write did not fail has a row within the preceding hour |
| Throttle.SweepsAreInvisible | internal/handler/audit_view.go:335-342 | a run files the same rows with all its sweeps as with none |
| Throttle.SweepForgetsTheDue | internal/handler/audit_read.go:136-143 | a sweep forgets exactly the keys whose next look would be recorded anyway |
| ThrottleRaces.SkippedLooksHaveAnAttempt | internal/handler/audit_read.go:66-143 | however map operations interleave, every skipped disclosure has an attempted write for its key within the hour |
| ThrottleRaces.AloneIsSequential | internal/handler/audit_read.go:90-131 | a request whose map operations nobody interrupts does to marks and rows what the sequential look does |
| ThrottleRaces.SkippedLookMayHaveNoRow | internal/handler/audit_read.go:96-107 | a run in which a disclosure is skipped and no row exists |
| ThrottleRaces.RunKeepsRows | internal/handler/audit_read.go:90-107 | under any interleaving the trail holds exactly one row for each request whose write succeeded |
| ThrottleRaces.SkippedLookIsCovered | internal/handler/audit_read.go:66-131 | a look is skipped only if an attempt for its key had been made by then, at a reading less than an hour before it |
| ThrottleRaces.LookHasRowIff | internal/handler/audit_read.go:90-131 | for a look skipped at any point of any run: once the attempts made by then at readings less than an hour before it have been decided, one of them has its row if and only if the write of one of them did not fail; later rows do not count |
| ThrottleRaces.SkippedLookHasRow | internal/handler/audit_read.go:66-131 | so every skipped look has such a row in a run in which no write for its key fails |
| ClaimToken.PrintIntParses | internal/demo/claim.go:53-87 | decimal printing parses back for all 64-bit integers and contains no separator |
| ClaimToken.OnlyIntegersParse | internal/demo/claim.go:59-87 | a text is read as a number only if it is a sign or none, zeros or none, and the decimal form of that number |
| ClaimToken.Base64RoundTrip | internal/demo/claim.go:46-87 | decoding inverts encoding on all byte strings (section 5 of RFC 4648) |
| Base64Url.GroupsAreTheBits | internal/demo/claim.go:46-57 | the encoded groups are the bits of the bytes in order, filled up with zero bits (section 4 of RFC 4648) |
| Base64Url.EncodedInAlphabet | internal/demo/claim.go:46-57 | each group is one character of the alphabet of section 5 of RFC 4648, without padding |
| ClaimToken.VerifyAfterSign | internal/demo/claim.go:53-87 | a signed claim verifies to its slot and normalised email, separators in the email included, exactly until the second 12 hours after issue |
| ClaimToken.LastAcceptedInstant | internal/demo/claim.go:59-87 | to the nanosecond: a signed claim is accepted until 12 hours after issue plus what was left of the second of issue |
| ClaimToken.AcceptedTokensWereMacked | internal/demo/claim.go:59-87 | every accepted token carries a payload with its MAC under the key, and says what that payload says |
| ClaimToken.AcceptedPayload | internal/demo/claim.go:59-87 | an accepted payload is a slot number, a second not yet past and an email that is not empty, between the separators, and nothing else |
| ClaimToken.PayloadIsInjective | internal/demo/claim.go:46-57 | equal payloads mean equal slot, expiry and email |
| Disposition.EscapeName | internal/handler/content_disposition.go:41-57 | the builder loop computes the percent-encoding of every byte |
| Disposition.EscapeRoundTrip | internal/handler/content_disposition.go:41-57 | percent-decoding (section 3.2.1 of RFC 8187) inverts it on all byte strings |
| Disposition.UnescapePrefix | internal/demo/watermark_middleware.go:124-139 | and also in front of any text that decodes |
| Disposition.FallbackName | internal/handler/content_disposition.go:67-94 | the loop with its pending underscore computes the collapsed and trimmed name |
| Disposition.FallbackIsSafe | internal/handler/content_disposition.go:59-94 | the fallback is non-empty, of safe ASCII characters, without double underscores, and starts with no dot |
| Disposition.FallbackIsIdempotent | internal/handler/content_disposition.go:59-94 | a fallback is its own fallback |
| HeaderText.EscapedIsAscii | internal/handler/content_disposition.go:41-57 | the escaped name is letters, digits, "-._~" and percent signs with two upper-case hexadecimal digits |
| HeaderText.EscapeKeepsIff | internal/handler/content_disposition.go:41-57 | a name is left as it is if and only if it holds nothing but letters, digits and "-._~" |
| HeaderText.FallbackKeepsIff | internal/handler/content_disposition.go:67-94 | the fallback holds letters, digits, "-", "." and single inner underscores and does not start with a dot; a name is its own fallback if and only if it is of that form |
| HeaderText.FallbackKeepsSurvivors | internal/handler/content_disposition.go:59-94 | all letters, digits, "-" and "." of the name survive in the fallback, in order, after "download" exactly when there are none or the first is a dot |
| HeaderText.HeaderIsPrintable | internal/handler/content_disposition.go:7-32 | whatever the name, the header is printable ASCII and its quoted name holds no quote or backslash |
| Disposition.PrefixingTheHeader | internal/demo/watermark_middleware.go:113-117 | the sandbox's rewriting of any header built here prefixes both names, decodes to the prefixed name, and changes nothing else |
| DigitMask.MaskDigits | internal/errtrack/errtrack.go:176-208 | the loop computes the text with the chosen spans replaced and everything else kept in order |
| DigitMask.FindAllFindsSpans | internal/errtrack/errtrack.go:168-178 | the matches of the expression are exactly the spans from first to last digit of a maximal run, 10 or longer |
| DigitMask.ExactlyLeaksAreMasked | internal/errtrack/errtrack.go:165-208 | exactly such spans with ten digits that touch no word character are hidden |
| DigitLeaks.LongNumberIff | internal/errtrack/errtrack.go:165-208 | such a span, spelled out: from digit to digit over digits, spaces and dashes, ten digits or more, maximal, with no letter, digit, underscore or dash touching it |
| DigitLeaks.NoLongNumberLeft | internal/errtrack/errtrack.go:165-208 | after masking no such span is anywhere in the text |
| DigitLeaks.UntouchedIff | internal/errtrack/errtrack.go:165-208 | a text is left as it is if and only if it holds none; masking twice is masking once |
| AccountGuard.RevokedForever | internal/handler/middleware.go:164-173 | once revoked or gone, a session is rejected for good, and with the same reason as long as its row is there |
| AccountGuard.IdleStaysRejectedIff | internal/handler/middleware.go:174-250 | an idle session stays rejected in every continuation if and only if no accepted request still has its activity update to come |
| AccountGuard.ReasonIsKept | internal/handler/middleware.go:164-173 | whatever ends a live session first is what every later request is told |
| AccountGuard.ReadNeverTouches | internal/handler/middleware.go:246-250 | a request that arrived as GET or HEAD never comes to move the activity clock, in any run |
| AccountGuard.OnlyAcceptedWritesTouch | internal/handler/middleware.go:164-250 | whoever is about to move it arrived as a mutating request and was accepted after that |
| AccountGuard.ClockHasACause | internal/handler/middleware.go:246-250 | over every run, if the clock has moved, it shows the time of the update of a request that arrived as mutating and was accepted later |
| AccountGuard.ReadersGoIdle | internal/handler/middleware.go:173-250 | with only GET and HEAD requests from some point on and no update pending, a request is accepted if and only if the session is not ended and its last activity then is at most 15 minutes ago |
| AccountGuard.WriteKeepsAlive | internal/handler/middleware.go:246-250 | from an accepted write and its update on, a session that is not ended is accepted for 15 minutes, whatever else happens |
| AccountGuard.IdleIsFinal | internal/handler/middleware.go:173-176 | a request that finds the session idle is told so, and its update ends the session for good |
| AccountGuard.SweepSparesTheLive | internal/service/session.go:111-116 | the sweep takes no session that would still be accepted, and none touched within a week |
| AccountGuard.OwnAccountPathIff | internal/handler/middleware.go:546-563 | the allowlist test accepts exactly the route under an API root or under one workspace |
| AccountGuard.StoppedIff | internal/handler/middleware.go:178-242 | each forced flow stops exactly the requests outside its allowlist, the routes taken under an API root; enrolment waits for the password |
| AccountGuard.NoDeadEnd | internal/handler/middleware.go:178-242 | no combination of pending password change and pending 2FA blocks the request that leads out |

## Left out

- RestoreCheckpoint: the catalog query and the transaction are one step; a save or another restore of the same slot running beside it is not modelled.
- SaveCheckpoint: the value of the time it notes in the registry as its last statement.
- EveryCatalogOrderEndsAlikeIff: triggers that look for the same row are taken to watch the same table and to need the same tables, as all rows one trigger is declared for do, whatever each of them makes of the row; rows written aside (`notifications`) are not compared.
- What triggers write into a further table (`notifications`) is any function of the database, so the text of those rows is not stated.
- Wiping and seeding slot data (`resetSlotData`) and revoking the sessions inside a released slot: they only touch the slot's own schema. Of `ResetSlot` and of a login the registry model has the activity update.
- An empty email, and a registry row without a provisioned slot: `Claim` returns an error without touching the registry in the first case and after its commit in the second.
- NoDocumentLost: plaintext zeroing, fsync, the tool's dry run and directories that cannot be listed are not modelled; a rename that has returned is durable.
- Listing and sorting the migration directory and the text of the migrations: a file is a name whose body can succeed or fail.
- Font metrics, drawing and horizontal positions; a width is a number and measuring may fail, as in the source.
- TranslateMessage: the catalog's JSON and the order of equally long keys (a map's iteration order in the source) are a parameter; regular expressions other than the verb, capture and date patterns do not occur. Text is a sequence of code points.
- FillsPlaces: the chunks between the verbs hold no percent sign, and an index fits a machine integer; a lone percent sign may begin a verb with what follows it.
- Allocate: assignments are kept per course in listing order where the source keeps them per course code, and database ids of sections are their positions.
- Allocate: the days of the capped TA are not checked, as in the source, so nothing is stated about them.
- The two throttles are one model; the denied-access one differs in its key and its row only.
- VerifyAfterSign: normalisation of emails is any function, and the MAC comparison's timing is not modelled.
- PrefixingTheHeader: holds for disposition types without '"' and '*'; the callers use only `inline` and `attachment`.
- FallbackName: works on bytes; every byte of a non-ASCII rune falls into the same class as the rune.
- AccountGuard's other answers (unknown or inactive user, database errors) and the reading of roles from the token: single decisions without state.
- IdleStaysRejectedIff: one session row; a new login makes a new row and is a revocation of this one.
- HTTP, cookies, mail, PDF and DOCX templates, the settlement and worklog services, and the exports built on them are not part of this model.
