# Forms, uploads, seats and sessions: a verified model

This project models the dynamic-form engine of a community portal (`apps/forms`) and the parts built on it, and proves what
they promise. It is written for Dafny 4.11; `dafny verify dfyconfig.toml` checks everything.

## What is modelled

**File uploads** (`UploadModel`, `UploadSafety`, `UploadLeaks`, `UploadReferences`, `UploadSubmission`, `UploadEffects`,
`UploadService`). An upload is a database row and an object
in a bucket. Rows move from pending to uploaded to attached, or end as rejected or deleted. Every transaction is one step that
may also be rolled back; a rollback restores the database but never the bucket, and deletions that wait for the commit
may come late, never, or twice. `EveryRunIsSafe` is the main theorem. Its invariant says: every file someone relies on is
where its row says with the size it says, no waiting clean-up names it, the answers of a response name exactly its attached
files, each once, and nobody exceeds the pending cap. From any state that satisfies it, it holds all through a sequence of
requests, completions, discards, submissions, edits, admin removals and replacements, sweeps, scan verdicts, backfills,
deletions, late clean-ups and rollbacks, exactly when no discard of a finished upload is rolled back after its object went.
`NoFileIsForgotten` is the converse for the bucket: what lies under a final key is someone's file or about to be deleted,
exactly when no transaction is rolled back after writing one. `UploadStore` is the
same protocol as code updating maps in place: each method is equal to its step, keeps the invariant, and says row by row, answer
by answer and object by object what it changes. A submission is saved exactly when its references are in order, no copy fails
and the transaction commits, and then every visible answer is stored with exactly what was sent.

**Form definitions** (`Conditions`, `ReferenceText`, `TextPatterns`, `Definition`, `CopyContents`, `Layout`, `Settling`,
`Routing`, `PageRoutes`, `FormCopy`, `DroppedConditions`, `References`). Questions refer to each
other by id in condition trees, comparison rules, page-skip targets, `{{12}}` text references and `{12}` formula references.
Copying or importing a form renames them all at once. `CopyLooksTheSame` is the main theorem: answered alike, the copy and its
source show the same questions, force the same ones, skip the same pages and fire the same actions; routes that lead nowhere
do not matter. Export, import and
export again is the identity up to ids, order numbers and the spelling of text references. Deleting a question removes every
reference the search finds, and nothing else. Visibility and page routing are computed by repeated passes with a limit:
`PassesComeToRest` says that without circular conditions the limit suffices, and `LayoutComesToRest` that on a form whose
questions look at no later page the result is the one layout all conditions and routes agree with; `OnlyRightLayout` says the
same question by question and page by page, without the evaluator.

**Form history** (`FormHistory`, `WrittenQuestions`, `FormVersions`, `FormRecord`). Saves, soft deletions, restores and publications of one form:
no question id is ever lost, restoring is exact, and exact conditions say when the history is the latest fifty versions without a
gap and when the type of an answered question stays. `SnapshotDiff` is the comparison of two versions, and `RestoredDiff`
says that it is empty after a restore.

**Seats and schedule** (`Seats`, `Schedule`). A registration form closes itself when the last seat goes. Cancelling and
changing the capacity reopen it when they make room; deleting a response and saving the form do not. `EveryRunKeeps` says
exactly which runs keep every closing justified, and `SeatsComeBack` that free seats can then be taken. Timed forms open and
close when they are looked at.

**Options, sessions, names, catalogue, streaks** (`OptionLimits`, `Attendance`, `CheckInSessions`, `Usernames`, `Colleges`,
`CollegeRows`, `Streaks`). Places per option, two generators of check-in sessions that never lose a scan, free user names by numbering, a
batched catalogue import, and streaks of consecutive days.

Strings of digits, lists (without repetitions, and what is left of a list in order) and optional values are in `Decimal`,
`Lists` and `Options`.

## Where the code and its promises part

Each of these is stated as a lemma with the exact condition, or a concrete input, or both.

- A save may carry a `version`, because the field is writable, and it is obeyed. The history keeps its sequence exactly when the
  number is absent, the present one or the next (`NumberedSave`, `HistoryIsRecentExactly`); a kept snapshot is overwritten
  exactly when the number names it and the form is not what it holds (`SnapshotsStay`, `OldNumberRewritesHistory`). A form
  created with a number other than 1 starts with a gap (`FormStore`'s constructor).
- The type lock looks at the last payload entry naming a question. Naming it twice, the second time without a type, changes the
  type of an answered question (`AnsweredTypeChanges`, `TypeCanChange`); payloads naming each question once cannot
  (`AnsweredTypesAreKept`).
- Restoring is exact when every question id is below 2147483647, the limit of what a save recognises, and only then (`RestoreIsExact`).
- A condition none of whose tests names a question always holds, so `hide` hides for good, although the evaluator's own
  description says it does nothing. The copy drops such a condition, and on a shown page the two look the same exactly when its
  action has no effect on its question (`DroppedConditionMatters`, `HiddenForGood`).
- Deleting a question is meant to leave no dead rule. Skip targets are not searched (`DeadRouteRemains`), and comparison rules are
  matched by spelling, so "07" is not found for question 7 (`MisspelledRuleRemains`).
- The search for references claims to find everything that would break. It never looks inside text, so `{{7}}` in a label or
  message and `{7}` in a formula stay (`TextReferencesRemain`). A save that leaves a question out deletes it without any
  search, and nothing that refers to it is pruned (`OmissionPrunesNothing`).
- Visibility and routing are said to settle together. Publishing refuses circular conditions and routes that look ahead, but a
  question may look at a later page; a form of four questions passes the check and has no layout its conditions and routes
  agree with, so the rounds end at the limit with one that contradicts itself (`RoutesNeverRest`).
- The automatic closing is meant to be undone when a seat comes back. Deleting a response directly, which its owner may do, and
  saving a form with another cap do not reopen it. A step leaves a closed form with room in time exactly when it deletes the
  response that filled it or saves it closed with room (`StepKeepsReason`), and with one seat, taken and deleted again, nobody
  can register any more (`DeletionStrandsTheSeat`).
- A form an organizer closed is said to stay closed. A cancellation or capacity change that makes room in a full form in time
  reopens it (`ClosingUndone`), which lowering and raising the capacity brings about (`LoweringAndRaisingReopens`).
- Lowering a form's allowance leaves people above it (`StepKeepsAllowance`).
- A discarded upload's object goes before the transaction commits, so a rollback loses the file exactly when a finished upload
  was discarded and its object went (`AbortedDiscard`, `StepKeeps`). The refusal that follows a discard in the same transaction
  can never happen (`RefusedRequestChangesNothing`).
- A transaction rolled back after writing to a final key leaves a file that nothing sweeps. Submissions, replacements and
  backfills do so, and nothing else (`StepLeaks`).
- An option named twice in one answer takes two places (`RepeatTakesTwoPlaces`), yet the number of responses choosing it
  never exceeds its limit (`LimitsHold`).
- The current streak is the one ending on the last solved day, however long ago (`CurrentIsRunning`).

## Model

| member | source | states |
|---|---|---|
| UploadSafety.EveryRunIsSafe | apps/forms/upload_attach.py:126-181 | From any state that satisfies it the invariant (live rows have their object with the recorded size, no clean-up names it, answers name exactly the attached uploads once each, pending uploads stay within the cap) holds all through a run, rollbacks and late or lost deletions included, exactly when no rolled back discard loses a finished upload |
| UploadSafety.EmptyIsSafe | apps/forms/upload_attach.py:126-181 | The empty store satisfies the invariant |
| UploadSafety.StepKeeps | apps/forms/upload_service.py:116-224 | Each single step, committed or rolled back, keeps the invariant exactly when it is not a discard of a finished upload rolled back after its object went |
| UploadSafety.RequestFailsKeeps | apps/forms/upload_service.py:136-151 | A request rolled back after its discards keeps the invariant exactly when every finished upload among them kept its object |
| UploadSafety.DiscardFailsKeeps | apps/forms/upload_service.py:218-224 | A rolled back discard keeps the invariant exactly when the upload was not finished or its object stayed |
| UploadSafety.AnswersNameAttachedFiles | apps/forms/serializers.py:877-890 | After any run that loses no file, the ids in one file answer are those of the rows attached to that response and question, without repetition, and their objects are safe |
| UploadSafety.CleanUpsAreHarmless | apps/forms/upload_attach.py:164-181 | After any run that loses no file, a deletion scheduled for after a commit never names the object of a live row, whenever it happens |
| UploadSafety.RefusedRequestChangesNothing | apps/forms/upload_service.py:116-157 | After any run that loses no file, a refused request leaves rows and bucket as they were, though it discards before it checks the cap |
| UploadSafety.GrantedExactly | apps/forms/upload_service.py:136-144 | After any run that loses no file, a request is granted exactly when there is room under the cap and the question's limit, or it replaces an earlier pick |
| UploadSafety.GrantedWithinQuestion | apps/forms/upload_service.py:137-142 | A granted request leaves a single-file question with the new upload alone, a multi-file one within its limit |
| UploadSafety.RoomAfterDiscard | apps/forms/upload_service.py:137-144 | Discarding an earlier pick leaves a single-file question below the cap, so the cap refusal cannot follow |
| UploadSafety.AbortedDiscard | apps/forms/upload_service.py:210-215 | Rolling back a discard keeps every file safe exactly when no finished upload was discarded or its removal failed |
| UploadLeaks.NoFileIsForgotten | apps/forms/upload_attach.py:126-181 | All through a run every object under a final key is the file of a live row or scheduled for deletion, exactly when no transaction of the run is rolled back after writing one |
| UploadLeaks.StepLeaks | apps/forms/upload_admin.py:121-201 | A step of any kind leaks a file exactly when it is a submission, replacement or backfill rolled back after writing one, in terms of the state before it |
| UploadLeaks.ReplaceLeaks | apps/forms/upload_admin.py:166-201 | A replacement leaks exactly when it copies and then fails, or the old file has no response left |
| UploadLeaks.FailedBackfillLeaks | apps/forms/upload_maintenance.py:145-205 | A failing backfill leaks exactly when it fails after a movable item |
| UploadLeaks.SavedLeaksNothing | apps/forms/upload_attach.py:147-161 | A committed save schedules every file it drops and owns every file it copies |
| UploadLeaks.AbortedSaveLeaks | apps/forms/upload_attach.py:137-145 | A submission rolled back leaves an unowned, unscheduled file exactly when it had copied one |
| UploadSafety.GoneForGood | apps/forms/upload_admin.py:121-137 | A deleted, rejected or forgotten upload, or one left by a deleted response, never becomes live again and its id is not reused |
| UploadSafety.RequestKeeps | apps/forms/upload_service.py:116-157 | Requesting keeps the invariant, and a refusal returns the state unchanged |
| UploadSafety.CompleteKeeps | apps/forms/upload_service.py:179-207 | Accepting or rejecting what arrived keeps the invariant |
| UploadSafety.CompletingTwice | apps/forms/upload_service.py:179-186 | A second call changes nothing, whatever came of the first |
| UploadSafety.SaveKeeps | apps/forms/upload_attach.py:126-161 | A submission or edit keeps the invariant whether it commits or aborts after any set of copies |
| UploadSafety.SavedAnswers | apps/forms/serializers.py:877-890 | Writing answers and attaching and releasing files together re-establishes the match of answers and attached rows |
| UploadSafety.CopiesKeep | apps/forms/upload_attach.py:138-149 | Objects copied by a transaction that is then rolled back endanger nothing |
| UploadSafety.UsableFilesAreThere | apps/forms/upload_attach.py:46-52 | Every upload a submission may use has its object, so only a storage failure can stop the copies |
| UploadSafety.ForgetKeeps | apps/forms/upload_admin.py:121-137 | Taking one file out of its answer and marking it deleted keeps the invariant, an emptied answer going away |
| UploadSafety.RemoveFilesKeeps | apps/forms/upload_admin.py:147-163 | Removing any list of files keeps the invariant |
| UploadSafety.ReplaceKeeps | apps/forms/upload_admin.py:166-201 | Replacing a file keeps the invariant whether the copy fails, the commit fails or all goes through |
| UploadSafety.SweepKeeps | apps/forms/upload_maintenance.py:41-59 | Sweeping expired rows and forgetting old ones keeps the invariant |
| UploadSafety.ScannedKeeps | apps/forms/upload_maintenance.py:62-112 | A scan verdict, quarantine included, keeps the invariant |
| UploadSafety.BackfillKeeps | apps/forms/upload_maintenance.py:145-205 | Moving base64 answers into the bucket keeps the invariant, also when it fails part way through an answer |
| UploadSafety.DeleteResponseKeeps | apps/forms/signals.py:24-27 | Deleting a response keeps the invariant for the responses that remain |
| UploadSafety.DeleteFormKeeps | apps/forms/signals.py:30-33 | Deleting a form keeps the invariant |
| UploadReferences.ResolveItems | apps/forms/upload_attach.py:59-94 | Reports no fault exactly when all items of an answer are usable and unrepeated, and then keeps them all; what it keeps is always clean |
| UploadReferences.ResolveReferences | apps/forms/upload_attach.py:59-94 | Reports no error exactly when every reference of the whole submission is usable for its question and none is repeated, and then returns what came in |
| UploadReferences.ChosenNamedOnce | apps/forms/validation/engine.py:58-193 | Whatever the validation hides, the stored answers name every upload once |
| UploadReferences.UsableForResponse | apps/forms/upload_attach.py:126-135 | The second ownership check, before the files are attached, never refuses what the check of the references let through |
| UploadReferences.ReferencedIds | apps/forms/upload_attach.py:117-123 | The map from upload to question mentions exactly the references of the stored answers |
| UploadReferences.CleanMeans | apps/forms/upload_attach.py:59-94 | The check of the references passes exactly when every item of every answer is fine by itself and no upload is referred to at two places |
| UploadReferences.ChosenAre | apps/forms/validation/engine.py:156-159 | A question is stored exactly when an answer to it was sent that holds something and may be seen, and then with all its items in order |
| UploadSubmission.AnswersSaved | apps/forms/serializers.py:884-887 | After a save every visible answer is there as sent, the response has no other, and other responses keep theirs |
| UploadSubmission.FilesSaved | apps/forms/upload_attach.py:147-161 | After a save an upload is attached to the response at a question exactly when a visible answer to that question refers to it; no other row changes but the dropped ones |
| UploadSubmission.ObjectsSaved | apps/forms/upload_attach.py:138-161 | After a save each newly attached file has its object under its new key, no other object changes, and exactly the objects of changed rows are scheduled |
| UploadSubmission.AcceptableMeans | apps/forms/upload_attach.py:59-94 | What is accepted, in terms of questions, items, rows and owners |
| UploadEffects.RequestMeans | apps/forms/upload_service.py:136-157 | The outcome and every row and object of a request, by the counts of unsubmitted uploads |
| UploadEffects.RemoveMeans | apps/forms/upload_admin.py:121-163 | Removing a list of files changes exactly the rows, answers and objects of the attached ones |
| UploadEffects.ReplaceMeans | apps/forms/upload_admin.py:184-201 | A replacement exchanges the file item by item in its answer and nothing else |
| UploadEffects.SweepMeans | apps/forms/upload_maintenance.py:41-59 | A sweep deletes exactly the overdue uploads and forgets exactly finished rows |
| UploadEffects.BackfillMeans | apps/forms/upload_maintenance.py:145-205 | A backfill makes a row, an object and a reference for every movable item and keeps the others in place |
| UploadService.UploadStore.RequestUpload | apps/forms/upload_service.py:136-151 | Granted exactly when neither the question nor the cap is full, counting the person's unsubmitted, unexpired uploads without those that make way; granted, the new row and the discarded earlier picks with their objects are the only changes; refused it changes nothing, and rolled back it keeps the invariant exactly when it loses no file |
| UploadService.UploadStore.CompleteUpload | apps/forms/upload_service.py:182-207 | Each outcome has its exact condition. Completed exactly when the row turns from pending to uploaded, with the size in the bucket and the bucket unchanged; refused exactly when it turns to rejected, its object gone unless the removal fails; otherwise nothing changes, and never another row |
| UploadService.UploadStore.DiscardUpload | apps/forms/upload_service.py:210-224 | Marks an own waiting upload deleted, removes its object unless that fails, and changes nothing else; rolled back it keeps the invariant exactly when it loses no file |
| UploadService.UploadStore.CopyEach | apps/forms/upload_attach.py:138-149 | Succeeds, with all files copied, exactly when none of them fails; otherwise the bucket ends as copying exactly the reported ones would leave it |
| UploadService.UploadStore.SettleRows | apps/forms/upload_attach.py:135-161 | Rows end attached, deleted or untouched as the new answers say, and the stale keys are those of moved and dropped files |
| UploadService.UploadStore.Attach | apps/forms/upload_attach.py:126-161 | Attaches everything exactly when every wanted upload is usable and no copy fails; otherwise only copies that did not fail remain, and none if an upload was not usable |
| UploadService.UploadStore.SaveInTransaction | apps/forms/serializers.py:877-890 | Commits the whole save exactly when every file is usable, no copy fails and the transaction commits; otherwise it is the step rolled back after some copies |
| UploadService.UploadStore.SaveResponse | apps/forms/serializers.py:877-890 | Saved exactly when every question is answered once, every reference is to a finished upload of the caller for that question or one already attached there, none is repeated, no copy fails and the transaction commits. Then every answer that may be seen is stored with exactly its items, the response has no other, exactly the referenced uploads are attached to it, each at its question, dropped ones are deleted, and objects follow their rows. Otherwise only copies that did not fail remain |
| UploadService.UploadStore.ForgetOne | apps/forms/upload_admin.py:121-137 | The answer loses exactly the references to this file and keeps its other items in order and its form, or goes away when none is left; no other answer and no other row changes |
| UploadService.UploadStore.RemoveFiles | apps/forms/upload_admin.py:147-163 | Of the ids in the longest start of the list with at most a hundred different ones, exactly the attached files of the form go: their rows are deleted, every answer loses exactly the references to them, their objects are scheduled; counts them and names the responses that lost a required answer |
| UploadService.UploadStore.ReplaceFile | apps/forms/upload_admin.py:166-201 | Done exactly when an own finished upload for the same question replaces an attached file of an existing response, the copy works and the transaction commits; the answer then holds, item by item, the new reference in place of the old one, and only the two rows and their objects change |
| UploadService.UploadStore.SweepExpired | apps/forms/upload_maintenance.py:41-59 | Deletes exactly the waiting uploads of the batch whose expiry is before now, with their objects unless a removal fails, drops exactly the finished rows that may be forgotten, and counts the expired ones |
| UploadService.UploadStore.RefreshScan | apps/forms/upload_maintenance.py:62-112 | Only a file not scanned yet changes: a clean verdict sets the mark and nothing else, an infected one also deletes the row, takes the file out of its answer and schedules its object |
| UploadService.UploadStore.BackfillAnswer | apps/forms/upload_maintenance.py:145-205 | Every inline file that passes the checks gets its object and an attached row and is replaced by a reference in its place, everything else in the answer stays, and they are counted; failing part way it leaves rows and answers alone |
| UploadService.UploadStore.ReleaseResponse | apps/forms/signals.py:24-27 | Exactly the rows of the response lose it, exactly its answers go, and their objects not yet deleted are scheduled; the invariant holds |
| UploadService.UploadStore.ReleaseForm | apps/forms/signals.py:30-33 | Exactly the rows, responses and answers of the form go, and the objects not yet deleted are scheduled; the invariant holds |
| UploadService.UploadStore.CleanUp | apps/forms/upload_attach.py:164-174 | A late deletion changes no object of a live row |
| ReferenceText.RewriteRenames | apps/forms/definition_io.py:86-87 | Scanning the rewritten text finds the same characters and the mapped references in the same order; none appears or merges |
| ReferenceText.NoNewHits | apps/forms/definition_io.py:29-30 | Where a scan saw no reference, it sees none after rewriting |
| ReferenceText.MarkIsHit | apps/forms/definition_io.py:108-112 | A written reference reads back as its number and ends where it was written |
| ReferenceText.RewriteComposes | apps/forms/definition_io.py:86-87 | Rewriting twice is rewriting once with the composed renaming |
| ReferenceText.RewriteDependsOnRefs | apps/forms/definition_io.py:86-87 | Only the references that occur in the text matter |
| TextPatterns.RefFound | apps/forms/definition_io.py:29-30 | A scan finds a reference exactly where braces, digits and (between double braces) spaces spell one, with the number of its digits and the rest of the text after it |
| TextPatterns.RewriteStep | apps/forms/definition_io.py:86-87 | Rewriting keeps the text before the first reference, writes that one canonically with its new number and goes on after it |
| TextPatterns.RewritePlain | apps/forms/definition_io.py:86-87 | A text without references stays as it is |
| Conditions.EvalIsMeaning | apps/forms/validation/conditional.py:167-200 | The evaluation agrees with the meaning of a condition: an OR group is true exactly when some rule is, an AND group false exactly when some rule is, and each the opposite when some rule yields a value and none decides |
| Conditions.NothingYielded | apps/forms/validation/conditional.py:174-179 | A condition yields nothing exactly when no test under it yields anything |
| Conditions.TestMeans | apps/forms/validation/conditional.py:182-200 | A test yields nothing exactly without a question; it is false while the answer or the compared answer is blank, except for the two operators about blanks; otherwise it is what the operator says |
| Definition.SatisfiedMeans | apps/forms/validation/conditional.py:203-216 | A condition counts as satisfied unless it comes out false |
| Conditions.WalkTests | apps/forms/definition_io.py:57-71 | The tests kept by a rewriting survive rewritten and in order, and no empty group remains |
| Conditions.WalkKeepsMeaning | apps/forms/validation/conditional.py:167-200 | A rewriting that keeps each test's verdict keeps the verdict of the tree, whose meaning is EvalIsMeaning |
| Conditions.RemapKeepsMeaning | apps/forms/definition_io.py:52-83 | When all references map, the renamed condition says of renamed answers what the original says of the original ones |
| Conditions.PruneKeepsMeaning | apps/forms/serializers.py:965-971 | A pruned tree says what the tree says with the pruned tests left out |
| Conditions.RemapComposes | apps/forms/definition_io.py:57-71 | Renaming through two maps is renaming through their composition, drops included |
| Definition.ConditionKeepsMeaning | apps/forms/definition_io.py:52-83 | A fully mapped condition keeps its truth, action and target, and disappears only when nothing in it can be evaluated |
| Definition.ConditionSurvives | apps/forms/definition_io.py:72-83 | A condition survives exactly when one of its tests does and its skip target, if any, came along |
| Definition.RemappedInside | apps/forms/definition_io.py:52-83 | Every reference of a renamed condition is one of the new ids, and no group is empty |
| Definition.QuestionComposes | apps/forms/definition_io.py:90-113 | Copying a copy is copying through the composed renaming, for conditions, rules, formulas and texts |
| Definition.ThereAndBack | apps/forms/definition_io.py:90-113 | Renaming a self-contained question and back is the identity up to the spelling of text references |
| Layout.TwinsLookAlike | apps/forms/validation/conditional.py:291-389 | Forms that ask the same of their answers position by position have the same layout through all passes and rounds |
| Settling.PassesComeToRest | apps/forms/validation/conditional.py:319-368 | Without circular conditions the passes of any round stop changing within the limit, at visibility and forcing every condition agrees with, and no other marks do |
| Settling.RestAgrees | apps/forms/validation/conditional.py:319-368 | On any form, passes that stop changing end where every condition agrees |
| Settling.AllGrounded | apps/forms/validation/definition.py:678-722 | When no condition looks at its own question, directly or through others, no chain of conditions is longer than the form |
| Routing.LayoutComesToRest | apps/forms/validation/conditional.py:291-372 | Without circular conditions, with routes looking at earlier pages and conditions at no later one, a layout agrees with all conditions and routes exactly when it is the computed one |
| Routing.OnePageFurther | apps/forms/validation/conditional.py:309-372 | Rounds that start with skips alike up to a page are routed alike one page further |
| Routing.RoutesNeverRest | apps/forms/validation/definition.py:650-668 | A form of four questions passes the checks for circles and for routes, and no layout agrees with its conditions and routes |
| Routing.BothOrEither | apps/forms/validation/conditional.py:180 | A form whose third question is shown on two tests: with AND the computed layout shows it exactly when both come out true, with OR when either does |
| PageRoutes.SkippedIsOffWalk | apps/forms/validation/conditional.py:259-281 | Following every route from a page, to the last page or where the form ends, the pages left out are exactly those the walk does not stop at |
| PageRoutes.SkippedPages | apps/forms/validation/conditional.py:259-281 | There is such a walk from the first page on every form |
| PageRoutes.AgreeingMeans | apps/forms/validation/conditional.py:311-362 | The layouts all conditions agree with are those where a question on a skipped page is neither visible nor forced, and any other is shown, hidden, required or optional as its condition comes out |
| PageRoutes.OnlyRightLayout | apps/forms/validation/conditional.py:291-372 | On a form whose questions look back, the computed layout is the only one right in every question and every page |
| PageRoutes.FiringQuestions | apps/forms/validation/conditional.py:374-388 | A value, an option restriction or a message takes effect exactly at the visible questions that have one and whose condition does not come out false |
| FormCopy.IdMapIsOneToOne | apps/forms/definition_io.py:131-133 | The id map is one-to-one onto new questions however old ids repeat or overlap new ones |
| FormCopy.CopyPointsInside | apps/forms/definition_io.py:116-148 | Every condition, comparison and skip target of a copy is one of its own questions, whatever the source |
| FormCopy.CopyJudgesAlike | apps/forms/definition_io.py:116-148 | Whatever is visible, a copied condition holds and routes exactly when the original does |
| FormCopy.CopyLooksTheSame | apps/forms/definition_io.py:151-158 | Answered alike, copy and source have the same layout, routes that lead nowhere included |
| FormCopy.IdleStaysIdle | apps/forms/definition_io.py:75-79 | A route that leads nowhere is copied as one, or dropped |
| FormCopy.AnswersCanBeRenamed | apps/forms/definition_io.py:116-148 | Any answers to the source can be given to the copy |
| FormCopy.ExportImportExport | apps/forms/definition_io.py:161-196 | Export, import and export again returns every self-contained question, up to ids, order and text spelling |
| FormCopy.QuestionTable.CreateAll | apps/forms/definition_io.py:122-131 | Stores the questions in order under fresh ids and touches no other question |
| FormCopy.QuestionTable.RemapEach | apps/forms/definition_io.py:134-142 | Rewrites the references of the copies and of nothing else |
| FormCopy.QuestionTable.Materialize | apps/forms/definition_io.py:116-148 | The stored copies are the copied form: each holds its question's tests, rules, skip target and texts under the new numbers (every old number goes to the copy of the last question that had it), the rest unchanged; other forms are untouched, and the Club ID mapping keeps exactly the entries whose question came along |
| FormCopy.BuildIdMap | apps/forms/definition_io.py:132-133 | The loop builds the id map, the last of repeated ids counting |
| CopyContents.RenamingMeans | apps/forms/definition_io.py:52-113 | A renamed question keeps in order exactly the tests and rules all of whose questions have a new number, under those numbers; its texts are rewritten, its condition goes without a test or target left, and nothing else changes |
| DroppedConditions.DroppedConditionMatters | apps/forms/validation/conditional.py:203-216 | In any form, a condition without evaluable tests is dropped by the copy; if its page is shown, the layouts agree exactly when its action has no effect on its question |
| DroppedConditions.HiddenForGood | apps/forms/validation/conditional.py:203-216 | A form of one question with an unfinished hide condition never shows it, and its copy always does |
| DroppedConditions.LayoutAt | apps/forms/validation/conditional.py:291-389 | A question on a shown page whose condition always holds is hidden, forced or filled in as its action says |
| References.NothingLeftToFind | apps/forms/serializers.py:974-996 | After the removal the search finds no question and no mapping entry |
| References.NothingElseGoes | apps/forms/serializers.py:974-996 | Other questions and entries are untouched, and a dependent loses only the rules that name the id |
| References.PrunedTests | apps/forms/serializers.py:965-971 | Of a condition exactly the tests not naming the id survive, in order, with no empty group |
| References.PrunedMeaning | apps/forms/serializers.py:965-971 | The condition then means what it meant with those tests left out |
| References.FormLinks.UnlinkOne | apps/forms/serializers.py:978-991 | Rewrites condition and rules of one question and no other |
| References.FormLinks.RemoveFieldReferences | apps/forms/serializers.py:974-996 | Every other question loses exactly the tests and rules that name the id, in order, and its condition when no test is left; a question that names it nowhere is untouched; exactly the mapping entries naming it go, and a second search finds nothing |
| References.DeadRouteRemains | apps/forms/serializers.py:940-958 | A route to the deleted question stays exactly when its condition has a test about another one |
| References.MisspelledRuleRemains | apps/forms/serializers.py:936-937 | A comparison rule reading as the id stays exactly when it is spelled differently |
| References.TextReferencesRemain | apps/forms/serializers.py:940-958 | After the removal exactly the same labels and formulas refer to the deleted question, and exactly the messages whose condition outlives it |
| FormHistory.ListingUnique | apps/forms/versions.py:62-65 | There is only one listing of a set of questions by order and id |
| FormVersions.NothingIsLost | apps/forms/serializers.py:353-398 | Over any run no question id is lost, and every kept snapshot lists whole questions of the form, in order |
| FormVersions.StepKeeps | apps/forms/views.py:218-253 | Each save, restore, deletion and publication keeps that |
| FormVersions.RestoreIsExact | apps/forms/views.py:400-428 | An accepted restore makes the active questions and the new snapshot equal the old one exactly when all ids are within the recognised range; version and settings move as a save's |
| FormVersions.RestoredListing | apps/forms/serializers.py:362-389 | Saving a snapshot's entries leaves exactly its questions active, in its order, with its values |
| FormVersions.UnrecognisedIsMissed | apps/forms/serializers.py:361-379 | With an id out of range the restored listing lacks a question of the snapshot |
| FormVersions.OmissionPrunesNothing | apps/forms/serializers.py:361-385 | A question a save names once keeps its values, references to left-out questions among them, except those its entry gives |
| FormVersions.HistoryIsRecent | apps/forms/versions.py:69-79 | Without version numbers in payloads, the history is always the latest fifty versions without gaps, and kept snapshots never change |
| FormVersions.HistoryIsRecentExactly | apps/forms/versions.py:69-79 | All through a run the history is the latest fifty versions without gaps, exactly when every number a save carries is the present one or the next |
| FormVersions.NewestAreKept | apps/forms/versions.py:76-78 | At most the limit is kept, and whatever is dropped is older than everything kept |
| FormVersions.NumberedSave | apps/forms/serializers.py:353-359 | After a save the history is the latest versions without a gap exactly when the number is absent, the present one or the next; the version grows exactly when it is absent or greater |
| FormVersions.SnapshotsStay | apps/forms/versions.py:72-78 | Every kept snapshot is unchanged exactly when the number is absent, not kept, or names a snapshot equal to the form as saved |
| FormVersions.OldNumberRewritesHistory | apps/forms/serializers.py:158-160 | Naming version 1 at version 2 goes back to 1 and overwrites the first snapshot |
| FormVersions.KindAfter | apps/forms/serializers.py:370-389 | A known question ends with the last type the payload gives it |
| FormVersions.AnsweredTypeChanges | apps/forms/serializers.py:302-329 | An accepted save changes an answered question's type exactly when the last entry naming it has no type and an earlier one has another |
| FormVersions.TypeCanChange | apps/forms/serializers.py:306-309 | A concrete two-entry payload that does so |
| FormVersions.AnsweredTypesAreKept | apps/forms/serializers.py:302-329 | Over any run of payloads naming each question once, restores included, an answered question keeps its type |
| FormRecord.FormStore.constructor | apps/forms/serializers.py:331-347 | Entry i makes the i-th new question, active, with the entry's kind or the default, its order or its position, its value for every attribute it gives and the blank one elsewhere, whatever id it names; the payload's version, or 1, is recorded, and the history starts without a gap exactly for 1 |
| FormRecord.FormStore.RecordVersion | apps/forms/versions.py:69-79 | Stores the snapshot under the current number and drops all but the newest |
| FormRecord.FormStore.WriteQuestions | apps/forms/serializers.py:360-389 | Entries that name a known question are written to it, the last one counting, value by value; every other entry makes one new question with the next id and exactly its own values, kind and place or the defaults; questions no entry names are deleted and otherwise as they were |
| FormRecord.FormStore.LockedFields | apps/forms/serializers.py:302-329 | Finds exactly the answered questions whose last entry names another type |
| FormRecord.FormStore.UpdateForm | apps/forms/serializers.py:353-398 | Refused, changing nothing, exactly when the last entry naming an answered question gives it another type; otherwise version, settings and questions become what the payload says, attribute by attribute, new questions included, and the snapshot recorded lists every active question once, in order, as stored |
| FormRecord.FormStore.RestoreTo | apps/forms/views.py:400-428 | Restores the questions exactly, merges the snapshot's settings under the next version, or changes nothing |
| FormRecord.FormStore.SoftDeleteField | apps/forms/views.py:218-253 | Takes exactly this question out of the active ones, keeps its row, and gives every question exactly the values of the edits |
| FormRecord.FormStore.PublishNow | apps/forms/views.py:281-284 | Publishes under the next version, changing no question, records it and keeps the invariant |
| WrittenQuestions.AllWritten | apps/forms/serializers.py:360-389 | After a save every question entries were written to has, attribute by attribute, the last value given, or the one from before, or the blank one; likewise its type; its order is that of the last entry |
| WrittenQuestions.NewQuestion | apps/forms/serializers.py:386-389 | An entry that names no known question makes a fresh active one with its own values and the blank ones elsewhere, its kind or the default, its order or its position, unless a later entry happens to name that very id |
| WrittenQuestions.NewIdsGoUp | apps/forms/serializers.py:388-390 | Questions made by different entries differ and are numbered in the order of the entries |
| WrittenQuestions.AcceptedMeans | apps/forms/serializers.py:302-329 | The type lock accepts exactly when the last entry naming each answered question gives it no other type |
| WrittenQuestions.TakenMeans | apps/forms/versions.py:62-79 | A snapshot holds the settings that are kept and every active question once, with its type, order and values, by order number and id |
| WrittenQuestions.RecordedMeans | apps/forms/versions.py:69-79 | Of all versions with the one recorded exactly those with fewer than fifty newer ones stay, unchanged |
| SnapshotDiff.EmptyMeansSame | apps/forms/versions.py:120-155 | The difference is empty exactly when settings and questions agree, order numbers and absent values aside |
| SnapshotDiff.ChangesAreDisagreements | apps/forms/versions.py:96-117 | A question is reported changed exactly when some value differs |
| SnapshotDiff.GroupsPartition | apps/forms/versions.py:129-144 | Removed and kept partition the old ids, added and kept the new ones |
| SnapshotDiff.ListChangesAre | apps/forms/versions.py:90-105 | A list change, or a new order, is reported exactly when the lists differ |
| SnapshotDiff.DiffLists | apps/forms/versions.py:120-155 | The difference lists exactly the settings that differ with both values, the added and the removed questions and the ids of kept questions that differ, each in order, and tells a new order exactly |
| SnapshotDiff.ChangesAreReported | apps/forms/versions.py:90-117 | Of a question it lists exactly the plain values that differ, entries that came and went, rules that differ and a changed condition, in this order |
| RestoredDiff.RestoredDiffIsEmpty | apps/forms/views.py:400-428 | After an accepted restore, comparing the recorded version with the restored one, either way round, shows nothing exactly when all ids are within the recognised range |
| Seats.SeatsComeBack | apps/events/capacity.py:1-31 | After any steady run of a published form, a newcomer's valid submission is taken exactly when there is room and the closing time has not come |
| Seats.FreeSeatsCanBeTaken | apps/forms/views.py:1427-1438 | In a published form that is so exactly as long as the form is only closed when full or past its closing time |
| Seats.EveryRunKeeps | apps/forms/views.py:1508-1624 | All through a run nobody exceeds their allowance and the form is closed only if full or past its closing time, exactly when no step strands seats or lowers an allowance too far |
| Seats.StepKeepsReason | apps/forms/views.py:1342-1363 | A step leaves a closed form with room in time exactly when it deletes the response that filled it or saves it closed with room |
| Seats.StepKeepsAllowance | apps/forms/serializers.py:353-359 | A step takes somebody past their allowance exactly when it saves an allowance below what they have |
| Seats.DeletionStrandsTheSeat | apps/forms/views.py:1342-1363 | With one seat, a submission followed by its deletion leaves an empty form that refuses everybody |
| Seats.SubmissionRespectsCap | apps/forms/views.py:1562-1624 | An accepted submission never passes the current cap, taking the last seat closes the form, and nothing else takes a seat |
| Seats.SubmissionRespectsAllowance | apps/forms/views.py:1374-1380 | No submission takes a person past their effective allowance |
| Seats.ClosingUndone | apps/events/capacity.py:19-31 | A closed form is published by exactly these steps: a cancellation or capacity change that, by the counts before it, makes room in a full form in time, and a save that publishes |
| Seats.StaysClosed | apps/events/capacity.py:19-31 | A closed form that is never full and not saved with another status stays closed over any run |
| Seats.LoweringAndRaisingReopens | apps/events/quick_registration.py:132-143 | Lowering the capacity to the count and raising it reopens a form closed on purpose |
| Seats.PollKeepsReopening | apps/forms/models.py:264-294 | Looking at a form at the moment it reopened does not close it |
| Seats.SeatRegistry.constructor | apps/forms/models.py:264-294 | A form that is not closed starts within the invariant |
| Seats.SeatRegistry.EvaluateScheduleStatus | apps/forms/models.py:264-294 | A scheduled form opens at its time, a scheduled or published one closes at its time, and no other form changes; keeps the invariant |
| Seats.SeatRegistry.CreateResponse | apps/forms/views.py:1508-1624 | Every outcome has its exact condition: not open by status and times; edits locked when the sender has a response on a single-response form and editing is off or its deadline passed, edited when neither; the limit when several answers are allowed, a maximum above one is set and reached; no seats when none of these and the cap is reached; anonymous senders get none of the first three. Only a created response changes the responses, and the last seat closes the form |
| Seats.SeatRegistry.ReopenIfRoom | apps/events/capacity.py:19-31 | Reopens exactly when the form was full, is closed, has room now and its closing time has not come |
| Seats.SeatRegistry.CancelRegistration | apps/events/registration.py:74-93 | Succeeds exactly when the person is registered, did not attend, cancelling is not locked and now is before the start minus the cutoff; then exactly their registrations go, and the form is published again exactly when it was full and closed and its time is not over |
| Seats.SeatRegistry.ChangeCapacity | apps/events/quick_registration.py:132-143 | Sets the capacity, zero meaning no limit, and publishes the form again exactly when it was full and closed, has room now and its time is not over |
| Seats.SeatRegistry.DestroyResponse | apps/forms/views.py:1342-1363 | Frees one seat and keeps the invariant exactly when it strands none |
| Seats.SeatRegistry.UpdateForm | apps/forms/serializers.py:353-359 | Saves status, times, cap and rules, and keeps the invariant exactly when it strands no seat and overdraws nobody |
| Seats.OutcomeByRules | apps/forms/views.py:1508-1624 | The outcome of every submission by status, times, rules and counts |
| Schedule.Forms.SyncAll | apps/forms/models.py:295-326 | The three bulk updates equal looking at every form by itself: a scheduled form ends published exactly when its opening has come and its closing has not, closed exactly when its closing has, and unchanged otherwise |
| Schedule.OnlyTheLastPollMatters | apps/forms/models.py:264-294 | Any looks at non-decreasing times end where one look at the last time would, opened or closed by that time |
| OptionLimits.LimitsHold | apps/forms/serializers.py:585-600 | Over any run of checked submissions, edits and withdrawals no limited option is named by more rows than its limit |
| OptionLimits.CountIsChoosers | apps/forms/capacity.py:19-29 | The count is the number of responses exactly when no answer repeats the option |
| OptionLimits.RepeatTakesTwoPlaces | apps/forms/serializers.py:593-595 | A repeated choice passes the check with one place left |
| OptionLimits.OptionCounts | apps/forms/capacity.py:19-29 | The nested loops count every option's items in the other responses |
| OptionLimits.CountIs | apps/forms/capacity.py:19-29 | The count of an option is the number of places in other responses' answers that name it |
| OptionLimits.CheckOptionCapacity | apps/forms/serializers.py:585-600 | Reports, in order, exactly the chosen items whose option is limited and named at as many places of other responses as its limit |
| OptionLimits.Availability | apps/forms/capacity.py:37-47 | Lists exactly the limited options with the number of places not named yet, positive exactly when a new answer choosing one passes |
| Attendance.SessionsConverge | apps/attendance/services.py:32-101 | After any run of settings and scans, sessions are those the last settings call for and those with scans, at the right times |
| Attendance.GeneratingTwice | apps/attendance/services.py:32-44 | Generating again from the same settings changes nothing |
| Attendance.AttendanceBook.BuildDesired | apps/attendance/services.py:50-59 | The nested loops build exactly the wanted sessions with their times |
| Attendance.AttendanceBook.DropUnwanted | apps/attendance/services.py:66-73 | Deletes exactly the unwanted sessions without scans and reports the others |
| Attendance.AttendanceBook.WriteDesired | apps/attendance/services.py:75-99 | Creates and corrects the wanted sessions, writing only where something differs |
| Attendance.AttendanceBook.GenerateSessions | apps/attendance/services.py:32-101 | Leaves exactly the sessions the settings call for, each on its day from 9, 13 or 17 for three hours, and the scanned ones as they were; reports the unwanted scanned ones, and writes exactly when something changes |
| CheckInSessions.SessionsFollowThePlan | apps/hackathons/check_in_sessions.py:51-89 | After any run a planned session is outside the schedule exactly when the last plan does not want it, wanted ones exist on their date, and none with people checked in is deleted |
| CheckInSessions.SyncingTwice | apps/hackathons/check_in_sessions.py:51-89 | Synchronising changes nothing exactly when the sessions match the plan, in particular the second time |
| CheckInSessions.SyncSettles | apps/hackathons/check_in_sessions.py:51-89 | Synchronising establishes the plan and touches no hand-made session |
| CheckInSessions.ClampSchedule | apps/hackathons/check_in_sessions.py:35-43 | Days and slots stay within 14 and 3, at least one each |
| CheckInSessions.SessionBook.RefreshWanted | apps/hackathons/check_in_sessions.py:64-78 | Creates and refreshes exactly the wanted sessions, writing only where something differs |
| CheckInSessions.SessionBook.RetireOthers | apps/hackathons/check_in_sessions.py:80-88 | Retires unwanted sessions with check-ins and deletes the others |
| CheckInSessions.SessionBook.SyncSchedule | apps/hackathons/check_in_sessions.py:51-89 | Every session of a schedule of at most 14 days and three slots, and the arrival session, is there on its date; of the others exactly those with check-ins stay, marked; writes nothing exactly when this already held |
| CheckInSessions.SessionBook.CreateCustom | apps/hackathons/check_in_sessions.py:198-221 | Adds a hand-made session that passed its checks exactly below the limit of sixty, and nothing else |
| CheckInSessions.SessionBook.DeleteCustom | apps/hackathons/check_in_sessions.py:229-246 | Retires a hand-made session with people checked in and deletes any other |
| Usernames.DeriveUsername | apps/accounts/serializers.py:769-785 | Ends for every finite set of taken names with the first free candidate (the allowed characters of the address or "member", cut to 140, with a number from 2 on cut in), its number bounded by the count of names; at most 140 characters exactly when the number has at most 140 digits |
| Usernames.SomeCandidateIsFree | apps/accounts/serializers.py:781-784 | With more numbers of one length than names taken, one of them gives a free name |
| Usernames.SameLengthDiffer | apps/accounts/serializers.py:783-784 | Numbers with equally many digits give different candidates |
| Usernames.ShorteningCollides | apps/accounts/serializers.py:783-784 | For a full base, 2 and 12 collide exactly when its 139th character is a one |
| Usernames.NamesFit | apps/accounts/serializers.py:778-784 | With fewer than 9 * 10^139 accounts the name has at most 140 characters |
| Colleges.CleaningKeepsColleges | apps/colleges/importer.py:72-92 | Reading a cleaned file gives exactly the colleges of the raw one |
| Colleges.CleanRowReadsBack | apps/colleges/importer.py:46-59 | A cleaned row is parsed as the college it was written from |
| CollegeRows.RowReads | apps/colleges/importer.py:46-59 | A row is read as a college exactly when that has a name and a code and these are its fields: of a raw row name and code are the two parts of the name column, the university is its column without an id, and type, state and district are their own columns; a clean row's fields are all their own columns; each tidied |
| CollegeRows.SuffixFound | apps/colleges/importer.py:13 | An id suffix is recognised exactly where spaces, "(Id:", spaces, a capital, a dash and digits, ")" and spaces end the text |
| CollegeRows.SplitMeans | apps/colleges/importer.py:38-43 | A name is split at the first place from which an id suffix reaches to the end, and nowhere else |
| CollegeRows.SquashKeepsWords | apps/colleges/importer.py:34-35 | Squashing keeps the words of any text in order and puts one plain space between any two of them, and is the only such text |
| Colleges.SquashSettles | apps/colleges/importer.py:34-35 | Squashing leaves a text alone exactly when it is tidy |
| Colleges.SquashIsTidy | apps/colleges/importer.py:34-35 | Squashed text is tidy |
| Colleges.SplitIsTidy | apps/colleges/importer.py:38-43 | The name before an id suffix and the id are tidy |
| Colleges.ReadOnce | apps/colleges/importer.py:72-82 | Every college read comes from some row and no code is read twice |
| Colleges.BatchIsOneByOne | apps/colleges/importer.py:107-115 | Writing a batch at once is writing its colleges one at a time |
| Colleges.ReadColleges | apps/colleges/importer.py:72-82 | Reads, in order, exactly the colleges of the rows that are the first usable ones of their code, and counts the others as skipped |
| Colleges.Catalogue.Flush | apps/colleges/importer.py:107-117 | Upserts the batch; created is the table's growth and created plus updated the batch's size |
| Colleges.Catalogue.WriteBatches | apps/colleges/importer.py:120-132 | For any batch size the table ends as if every college had been written by itself |
| Colleges.Catalogue.ImportColleges | apps/colleges/importer.py:120-132 | Every code of the file ends with the college of its first usable row and every other code with what it had, for any batch size; parsed plus skipped are the rows read, created plus updated the rows parsed, created the growth, and a dry run writes nothing |
| Streaks.RebuildUserStreak | apps/codequest/services.py:37-57 | The longest streak is the longest run of consecutive solved days, the current one the whole run ending at the last solved day, never longer, and the backward search always finds that day |
| Streaks.CurrentIsRunning | apps/codequest/services.py:47-54 | The current streak is the one running today exactly when today was solved |

## Left out

- Object keys are values (form and upload id under one of two prefixes), not strings; presigned links, lifecycle expiry of the `tmp/` prefix and posting again to a signed form are not modelled. A browser may only add an object under an issued `tmp/` key where there is none yet.
- File names, content types, magic bytes and data-URL decoding are opaque: an upload's check accepts or refuses, an inline item decodes or does not.
- UploadSafety.DeleteResponseKeeps: rows of a deleted response stay attached to nothing without an object; the invariant speaks of responses that exist.
- UploadSafety.SweepKeeps: which finished rows are old enough to forget is a parameter, so any of them may go.
- UploadService.UploadStore.ReplaceFile: for a file whose response is gone the answer row cannot be created, so the step aborts after the copy, as the database constraint makes it.
- UploadReferences.ChosenNamedOnce: the validation is any choice of questions to keep; what it checks about values is not modelled, nor are values it sets itself, which publishing refuses for file questions.
- UploadService.UploadStore.RequestUpload: the refusals before the transaction (closed form, wrong question, name, size) change nothing and are not modelled.
- UploadService.UploadStore.CompleteUpload: the checks of size and content are one yes-or-no input, and which of them refused the file is not told.
- UploadService.UploadStore.SaveResponse: caps, edit locks and closing of the same request are modelled in Seats.
- UploadSafety.RoomAfterDiscard: the pending cap is one setting for the whole run; lowering it between requests can leave people above it.
- Request, sweep and submission are each one atomic step; races inside a transaction are excluded by the row locks or assumed away. Response bulk deletion, manual entry, bulk ingest and the admin site bypass these steps and are not covered.
- References.MisspelledRuleRemains: a rule's target reads as a number when it is a string of plain digits; signs, spaces and underscores around them, and digits of other scripts, are not read there. Inside text all scripts' digits and spaces are.
- Layout.TwinsLookAlike: the fixpoint loops of the layout are recursive functions, since what matters is where they end and that they end alike on two forms; allowed options, set values and messages are represented by which actions fire.
- Routing.LayoutComesToRest: on forms whose questions look at later pages it depends on the answers whether the rounds come to rest; no condition is given there that is necessary as well.
- FormCopy.CopyLooksTheSame: needs the tests of every condition that can do anything to resolve, which is what the property is about, and conditions without evaluable tests to be without effect, which is necessary (DroppedConditionMatters).
- FormCopy.BuildIdMap: ids are numbers; a document that gives one id both as a number and as text resolves it in another order.
- FormCopy.ExportImportExport: the document's envelope, size checks, unique slugs and profile fields are not modelled.
- Normalising conditions and rules on a save is taken as already done on the payload and as leaving stored values unchanged; the publish checks and the other reasons a save is refused only refuse more.
- FormVersions.RestoreIsExact: a snapshot naming an email template that no longer exists is restored without it; this branch is not modelled.
- FormRecord.FormStore.SoftDeleteField: what the removal of references writes elsewhere is a parameter here; the removal itself is in References. Asking for confirmation first is left out.
- FormVersions.HistoryIsRecent: quick registration raises the version without recording it, and its forms start unrecorded; those forms are not covered.
- SnapshotDiff.EmptyMeansSame: needs questions with distinct ids on both sides, as snapshots have; the labels shown and the impact on responses are not modelled.
- Seats.SeatRegistry.CreateResponse: captcha, audience, verification and content checks are two yes-or-no inputs; Club ID reassignment of a response's owner is not modelled, and would bypass the allowance. Deleting responses in bulk is a run of single deletions.
- OptionLimits.LimitsHold: limits do not change during the run and every submission is strict.
- CheckInSessions.SessionsFollowThePlan: the main session exists, is on the schedule and not hand-made; titles, windows and flags of sessions, and undoing a check-in, are not modelled.
- CheckInSessions.SessionBook.CreateCustom: the checks of title, date, window and flags are taken as passed.
- Colleges.CleaningKeepsColleges: a file is its rows; writing, quoting and decoding are not modelled.
- Attendance.SessionsConverge: scans are recorded and not removed; time zones do not enter.
- Usernames.DeriveUsername: the local part arrives lower-cased; which stored names count as equal to a candidate is part of the set of taken names.
- Colleges.Catalogue.ImportColleges: CSV quoting and file encodings are not modelled, missing cells are empty text, and the search name is a function of the other columns.
- Streaks.RebuildUserStreak: celebrations and the write of the streak row are left out.
- Reminders: each is claimed through a row that is unique per event, person and lead before it is sent, so at most one follows from that constraint alone.
- Quick registration's field list, the rows `bulk_ingest` accounts for and unique slugs: shorter cousins of what is proved for form fields, imports and user names.
- Notifications, emails, certificates, QR badges, change impact counts, permissions and throttling: no hard property, or plumbing.
