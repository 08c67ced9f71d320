# Verification of the mail synchroniser and the submission daemon

A model of a JMAP mail daemon in Dafny 4.11, and proofs about it. The daemon keeps three stores in step without a
transaction around them: the server's emails, a SQLite database of mailboxes, emails and memberships, and a Maildir
tree. It also submits messages from an Outbox folder and keeps the local mailbox tree like the server's.

`dafny verify dfyconfig.toml` checks everything. Each file is one module of the same name.

**Email sync** (sections 5.3 and 5.5 of RFC 8620, section 4.1.1 of RFC 8621)

- `Prelude`, `Keywords`, `Primary`, `MaildirNames`: keyword sets and flag suffixes, the keyword patch, the choice of the
  primary mailbox, file names as text.
- `Tables`: the three tables as values with the schema's unique, foreign-key and cascade rules. `Stores`: the same
  tables, the Maildir and the server as objects updated in place.
- `EmailStore`, `EmailTick`: the operations of one tick and the tick itself, as functions of the stores and of whatever
  the tick does not decide (iteration orders, which writes the server accepts, fresh identifiers).
- `EmailSync`, `Paging`: the tick as it runs, with loops over objects, proved to compute that function.
- `EmailWriteback`, `EmailConvergence`, `EmailHydrate`, `EmailPasses`, `EmailTheorems`, `EmailAssumptions`,
  `EmailLaws`, `EmailCounts`, `EmailEffects`: convergence, the three-way merge, the fixed point, destroy precision,
  conservation, and what one answer changes.
- `EmailRefusals`, `EmailRuns`: ticks of which the server takes or answers only a part, and runs of single operations
  with files changed in between.
- `EmailActions`, `Orphans`, `EmailCrash`, `EmailMoveCrash`, `EmailPassCrash`: crashes at every write of an insert, update
  or move, in write-back and in the delete pass, the orphan cleanup, and what the next tick makes of it.

**Outbox submission** (sections 4.8 and 7.5 of RFC 8621, section 2.2.3 of RFC 5322)

- `HeaderFields`, `Family2`, `QueueStrip`, `HeaderLaws`, `Family2Laws`: messages as bytes; the diagnostic headers put on
  a failed message and the two header strippers, byte by byte and character by character.
- `RoundTrip`, `Idempotence`: when stripping undoes injecting, and when stripping twice is stripping once.
- `MessageCopies`: what failures and drag-backs can make of a message, and which messages survive them.
- `RetrySchedule`, `SubmitLoop`, `Backoff`: the retry queue, the event loop over whole runs, delays and notifications.
- `Sidecars`, `Outbox`, `OutboxAttempts`, `OutboxSafety`: an attempt as a list of actions, done or stopped after any of
  them.
- `Handshake`, `HandshakeOutcomes`, `HandshakeTheorems`: import, submit, and reconciliation against a server.
- `SendPath`, `SendLimits`: folders and server together, over whole runs, and exactly which messages that keeps.

**Mailbox tree**

- `MailboxTree`, `MailboxOrder`: path resolution, the target set, the order of creates and updates.
- `MailboxDiff`, `MailboxDirs`, `MailboxDeletes`, `MailboxPasses`, `MailboxFailures`: a pass of the diff under foreign
  keys, what it does to directories and mail, exactly when its deletes and the whole of it go through, what two passes
  reach, and the passes that fail for good.
- `MailboxSync`, `MailboxMail`: the pass as it runs, orphan cleanup, and what a rename does to the mail filed there.

A tick or pass is nondeterministic where the program is: hash maps are walked in any order, the server accepts or
refuses, the disk may fail. These are parameters of the functions and the theorems hold for all of them. A crash is a
prefix of the list of writes an operation makes.

The email theorems assume what the design assumes: the server does not change during the tick, answers each call once
and lists each id once; mailbox paths do not change during the tick; no two files share a uuid; the file of a row has a
suffix that is an ordered subset of the letters D, F, R, S, T and, while the server has the email, the server's bytes.
`EmailConvergence` and `EmailTheorems` state these as `Sane` and `Conforming`, `EmailRefusals` the
same for a tick that is accepted or answered in part as `Steady` and `Partial`.

## What turned out not to hold

Each of these is a lemma about the program as it is.

- Renaming a mailbox on the server queues a destroy for every email filed under the old path
  (`MailboxMail.RenameQueuesDestroys`).
- Deleting a mailbox that is some email's primary removes its directory, then fails; so does every later pass
  (`MailboxFailures.PrimaryBlocksDelete`, `MailboxFailures.PrimaryBlocksPass`). A parent filtered out while its child is
  kept blocks every pass as well (`MailboxFailures.FilteredParentBlocksPass`).
- When the server renames a mailbox, its child may be moved first. The parent's own rename then meets a directory that
  is not empty, and fails in this and every later pass on that target (`MailboxFailures.ChildFirstBlocks`,
  `MailboxFailures.BlockedForGood`, at an input `MailboxFailures.HalfRenamed`). If the server then drops both, the parent
  with its longer path is deleted first, and refused (`MailboxFailures.HalfRenamedCannotGo`). What a pass may fail of is
  complete with this: `MailboxDeletes.AllDeletesOkIff` and `MailboxFailures.PassOkIff` say exactly when it goes through.
- Creates and updates come parents first exactly when no target's parent is in the local table
  (`MailboxOrder.AllParentsFirstIff`). A mailbox has the right parent after a pass that went through exactly when it was
  not moved under one created in that pass (`MailboxFailures.LinkRightIff`).
- A crash between the rename and the row update of a move destroys the email upstream exactly when its directory or
  timestamp changed (`EmailMoveCrash.MoveCrashDestroys`). After the row update the next answer repairs the memberships,
  except exactly when the old ones that are left look like the new (`EmailMoveCrash.MoveCrashHealsIff`). A move of an
  email whose file has another suffix than the stored one has the same effect as that crash, without any
  (`EmailLaws.StrayMoveDestroys`).
- The delete pass removes a file before its row. A crash in between makes the next tick ask to destroy that email, so one
  that only left the synced mailboxes is lost from the server (`EmailPassCrash.DeleteCrashDestroys`).
- The primary mailbox depends only on the set of mailboxes, not on the order of the server's list, exactly when no two
  synced mailboxes have the same role, sort order and name (`Primary.OrderFreeIff`).
- Stripping twice is stripping once exactly when no body line that has become header carries one of the names, which is
  so whenever the field before the blank line is kept (`Idempotence.StripIdempotentIff`); it fails when all header fields
  are dropped (`Idempotence.AllDroppedTwice`) and with mixed line ends (`Idempotence.MixedEndingsTwice`). Stripping undoes
  injecting exactly for messages that neither open with a folded line nor, opening with a blank line, hold one of the
  headers (`RoundTrip.StripInjectIff`); of a message that opens with a folded line, the first field is lost
  (`MessageCopies.FoldedStartIsLost`, at an input `MessageCopies.FoldedLineIsLost`). Both conditions together decide which
  messages come back from every run of failures and drag-backs (`MessageCopies.CopiesAgreeIff`). The queueing tool leaves
  an extra line end in front of the body exactly when it drops a last header field (`QueueStrip.StripHeaderIff`).
- A message that failed permanently loses its envelope, and so does one whose file cannot be read
  (`OutboxSafety.UnreadLosesEnvelope`). A drag-back then gets it to the server exactly when a usable sidecar was written
  since and not removed again (`OutboxSafety.DragBackReachesIff`).
- A scheduled message that has gone out is submitted a second time by the next try exactly when its email is not in Sent
  (`HandshakeTheorems.SentAgainIff`).
- HTTP status 408 is permanent as a bare status and transient in a problem document (`Handshake.StatusesAgreeIff`).

## Model

| member | source | states |
|---|---|---|
| Keywords.FlagStringRefined | src/sync/email.rs:996-1004 | the file suffix for a keyword list, in any order and with repeats, is the ordered string of the letters of the set |
| Keywords.SuffixIs | src/sync/email.rs:28-33 | the suffix is D, F, R and S, each exactly when "$draft", "$flagged", "$answered" or "$seen" is in the list, whatever else is |
| Keywords.SerializeThenExtract | src/sync/email.rs:838-858 | serialising the server's keywords and extracting the standard letters gives the file suffix |
| Keywords.PatchPointwise | src/sync/email.rs:860-874 | the patch sets exactly the standard keywords whose stored and disk letters differ, to the disk's value, and touches no other |
| Keywords.PatchGivesMerge | src/sync/email.rs:820-836 | on canonical stored keywords, applying the patch gives exactly the keywords of the merged row |
| Keywords.NoPatchIff | src/sync/email.rs:860-874 | the patch is empty if and only if stored and disk letters agree |
| Keywords.NoMergeIff | src/sync/email.rs:820-836 | the merge returns the stored keywords if and only if every standard keyword is as on disk and none is stored as false |
| Keywords.MergedIs | src/sync/email.rs:820-832 | keyword by keyword: the four named ones are as their letter is on disk, and true; every other one is as stored |
| Keywords.DriftIffPatch | src/sync/email.rs:591-603 | drift is seen exactly when a patch is non-empty, except for a standard keyword stored as false |
| Primary.PickIsPreferred | src/sync/email.rs:963-985 | one is picked exactly when some mailbox of the email is synced; it is one of those, and none of them comes before it by place of its role in inbox, sent, drafts, archive, trash, junk, any other role or none last, then by sort order, none counting as the largest, then by name |
| Primary.PickHasEarliestRole | src/sync/email.rs:25-25 | if any synced mailbox of the email has a role in that list, the picked one has a role in it, and no later one |
| Primary.BeforeIff | src/sync/email.rs:967-990 | the comparison the program sorts by is that preference |
| Primary.PrimaryChoiceUnique | src/sync/email.rs:963-985 | without ties any two choices are the same row, so list order does not matter |
| Primary.OrderFreeIff | src/sync/email.rs:963-985 | lists of the same mailboxes always get the same primary one if and only if no two synced mailboxes tie |
| Primary.NoTiesIff | src/sync/email.rs:963-985 | no two synced mailboxes tie exactly when any two differ in the place of their roles, in name, or in sort order |
| Primary.TieDependsOnOrder | src/sync/email.rs:963-985 | two mailboxes that compare equal are each chosen under one of the two list orders |
| Tables.MailboxOpsKeepConstraints | src/db/mod.rs:150-206 | mailbox insert, update and delete, where allowed, keep every unique, foreign-key and cascade rule |
| Tables.MailboxRefusedIff | src/db/mod.rs:150-206 | a mailbox write is refused exactly when the tables would then break a rule, or the inserted id is there; else the row alone changes, and with a deleted one its memberships go |
| Tables.EmailOpsKeepConstraints | src/db/mod.rs:217-276 | email insert, update and delete, where allowed, keep every unique, foreign-key and cascade rule |
| Tables.EmailRefusedIff | src/db/mod.rs:217-276 | the same of email rows; deleting one is never refused and takes exactly its memberships along |
| Tables.MemberOpsKeepConstraints | src/db/mod.rs:283-297 | membership insert and delete, where allowed, keep every rule |
| Tables.InsertMemberRefusedIff | src/db/mod.rs:283-289 | a membership is refused exactly when it is there or the tables would then break a rule |
| Tables.DeleteMemberIs | src/db/mod.rs:291-297 | deleting a membership takes just it |
| Stores.Database.InsertEmail | src/db/mod.rs:217-234 | inserts exactly when the ids and path are free and the primary mailbox exists, else changes nothing |
| Stores.Database.DeleteMailbox | src/db/mod.rs:196-204 | refused exactly for a child mailbox or a primary email; otherwise memberships go too |
| MaildirNames.SuffixRoundTrip | src/sync/email.rs:1015-1027 | reading the suffix back, the base, and replacing the suffix invert building the name |
| MaildirNames.UnmarkedName | src/sync/email.rs:809-816 | a name without `:2,` is all base and has no flags; a suffix put on it is its first |
| MaildirNames.UuidRoundTrip | src/sync/email.rs:1029-1033 | the uuid is read back whole from a formatted path, whatever the directory |
| MaildirNames.FormatInjective | src/sync/email.rs:1059-1061 | two formatted names are equal only if directory, timestamp, uuid and flags are |
| MaildirNames.FormatPieces | src/sync/email.rs:1059-1061 | between its slashes a formatted path is the mailbox directory, cur, and {ts}.{uuid}:2,{flags} |
| Paging.PageQueryIds | src/sync/email.rs:177-202 | returns the whole list in order, with one request per full page and a last short or empty one |
| EmailStore.InsertIsPut | src/sync/email.rs:342-408 | an insert is never refused and leaves exactly one new row, its memberships and its file |
| EmailStore.RewriteIsPut | src/sync/email.rs:410-562 | an update or move replaces the row, its memberships and its file, and nothing else; a file that is not at its stored path stays as it is |
| EmailStore.InsertMembersGivesExpected | src/sync/email.rs:905-922 | the memberships after are those before plus one per synced mailbox, the primary one marked |
| EmailStore.ReconcileGivesExpected | src/sync/email.rs:924-939 | the memberships after are exactly one per synced mailbox, the primary one marked |
| EmailEffects.ApplySays | src/sync/email.rs:236-340 | one answer, field by field: an email in no synced mailbox loses row and file; a new one gets a row named after its received time and a fresh uuid; with another primary mailbox it moves there and takes its received time for a timestamp, the uuid kept; else, exactly when keywords, letters or memberships differ, it is updated where it is; and just the counter of that goes up |
| EmailEffects.ChunkIs | src/sync/email.rs:22-118 | the i-th chunk begins at id number 100 i and has a hundred ids, or what is left |
| EmailLaws.ServerKeyword | src/sync/email.rs:644-731 | when the asked writes are accepted, an email that is not destroyed has a keyword on the server exactly when the merge of disk, row and server says so |
| EmailLaws.StrayMoveDestroys | src/sync/email.rs:500-514 | a move whose file has another suffix leaves the file behind; the next tick asks for a destroy exactly when directory or timestamp changed |
| EmailWriteback.WritebackClosedForm | src/sync/email.rs:564-606 | whatever order the rows are visited in, write-back leaves the same store, ids, local rows and counters |
| EmailPasses.ChangeSays | src/sync/email.rs:564-606 | what a detected change, or none, says about the file found for the row and the row it asks for |
| EmailPasses.DeletesReady | src/sync/email.rs:102-112 | the delete pass drops exactly the rows of unlisted ids and the files at their stored paths, and leaves the rest in place |
| EmailHydrate.HydrateStep | src/sync/email.rs:236-340 | applying one answer is not refused, settles its email, and leaves every other email as it was |
| EmailHydrate.HydrateAgrees | src/sync/email.rs:114-139 | once every id is answered, in any order, the three stores agree |
| EmailTheorems.AllTaken | src/sync/email.rs:114-131 | the chunks of 100 together answer the whole list, also for multiples of the chunk size |
| EmailTheorems.TickConverges | src/sync/email.rs:49-153 | after one accepted tick: one row and one file per in-scope email under its chosen primary, keywords, suffix and memberships as on the server, no other row, and strays, among them a file that a gone email's row does not point at, untouched |
| EmailLaws.ThreeWayMerge | src/sync/email.rs:564-676 | for every keyword the value on server, row and file is the disk's if it is standard and differs from the stored row, else the server's |
| EmailLaws.DestroyAskedIff | src/sync/email.rs:570-590 | a destroy is asked for exactly the rows with no untrashed file of that base name in the stored directory |
| EmailLaws.AgreedIsFixed | src/sync/email.rs:49-153 | from an agreed state without ties a tick changes nothing anywhere and every counter is zero |
| EmailLaws.SecondTickDoesNothing | src/sync/email.rs:49-153 | so a second tick after one that converged does nothing |
| EmailAssumptions.ConformingExists | src/sync/email.rs:49-153 | from every state a tick may start from some tick meets all assumptions of the convergence theorem |
| EmailAssumptions.FirstSyncAgrees | src/sync/email.rs:342-408 | a first sync into empty tables and an empty Maildir can reach agreement with any server |
| EmailCounts.DestroyedStaysGone | src/sync/email.rs:733-771 | a destroyed email has no row after the tick even if Email/get echoes it |
| EmailCounts.RowsConserved | src/sync/email.rs:49-153 | rows after = rows before + created - deleted - destroyed upstream; the two upstream counters are the numbers of destroys and updates the server took |
| EmailRefusals.PartialTickKeepsSteady | src/sync/email.rs:49-153 | whatever part of its writes the server takes and of its emails it answers for, a tick goes through and leaves a state the next tick may start from |
| EmailRefusals.FirstAcceptedTickConverges | src/sync/email.rs:49-153 | after any number of such ticks, the first that is accepted and answered in full brings agreement |
| EmailRuns.StepKeeps | src/sync/email.rs:236-340 | each completed insert, update, move, write-back or delete is accepted and keeps one primary membership per row, whatever the files |
| EmailRuns.RunKeeps | src/sync/email.rs:905-939 | the same over every run, with files changed at will in between, and a surviving row keeps its server id and the uuid of its file |
| EmailCrash.InsertActionsComplete | src/sync/email.rs:342-408 | the listed writes of an insert, all done, are the insert |
| EmailCrash.RewriteActionsComplete | src/sync/email.rs:410-562 | the listed writes of an update or move, all done, are the update or move |
| EmailCrash.CrashHeals | src/sync/email.rs:342-461 | a crash after any number of writes of an insert or in-place update: cleanup and the next tick ask for no destroy and reach agreement |
| EmailCrash.CleanupSane | src/sync/mailbox.rs:481-524 | after orphan cleanup a crashed store is one a tick may start from, with no destroy asked |
| EmailMoveCrash.MoveCrashHealsIff | src/sync/email.rs:924-957 | a move that crashes k writes after its row update gets its memberships right at the next answer, except exactly when the old ones left equal the expected set; then nothing is ever done |
| EmailMoveCrash.MoveCrashDestroys | src/sync/email.rs:503-514 | a crash between rename and row update in a move makes the next tick destroy the email exactly when directory or timestamp changed |
| EmailPassCrash.WritebackCrashHeals | src/sync/email.rs:733-771 | a crash in write-back after the server took its part, anywhere in applying it locally: the next accepted tick reaches agreement and leaves all strays |
| EmailPassCrash.TrashedIsStray | src/sync/email.rs:733-750 | the trashed file of an email destroyed upstream before such a crash is one more stray |
| EmailPassCrash.DeleteCrashHeals | src/sync/email.rs:876-900 | a crash anywhere in the delete pass: the next accepted tick reaches agreement |
| EmailPassCrash.DeleteCrashDestroys | src/sync/email.rs:876-900 | when it comes between a file and its row, that email is asked for besides what would have been, and the server loses it exactly when it had it |
| EmailSync.InsertMemberships | src/sync/email.rs:905-922 | the loop computes the specified memberships or reports the refusal, one write after the other in the list's order |
| EmailSync.ReconcileMemberships | src/sync/email.rs:924-939 | deletes all memberships one by one, then inserts the expected ones |
| EmailSync.InsertOne | src/sync/email.rs:342-408 | the running insert passes through exactly the stores of the crash model's list of writes: file, row, memberships |
| EmailSync.RewriteOne | src/sync/email.rs:410-562 | so does the running update or move: rename if the path changes, row, old memberships, new ones |
| EmailSync.DeleteOne | src/sync/email.rs:876-900 | the file goes before the row; the store in between is the one the crash theorems are about |
| EmailActions.PassedIsExec | src/sync/email.rs:342-562 | every store the running operation passes through is what some first writes of the list make of the one it began with |
| EmailSync.ApplyOne | src/sync/email.rs:236-340 | applies one answer to rows and files as specified |
| EmailSync.ResolveCurrentFile | src/sync/email.rs:780-807 | finds the file with the stored base name in the stored directory |
| EmailSync.DetectLocalWriteback | src/sync/email.rs:564-606 | collects exactly the changes some row shows, in some order of the rows |
| EmailSync.ApplyWriteback | src/sync/email.rs:608-778 | sends one Email/set and applies what was accepted |
| EmailSync.FetchAllEmailIds | src/sync/email.rs:159-175 | the union of the listings is the set of in-scope ids |
| EmailSync.RunDeletePass | src/sync/email.rs:102-112 | removes rows and files of unlisted ids as specified |
| EmailSync.RunHydration | src/sync/email.rs:114-139 | fetches in chunks, skips answers not asked for, applies the rest |
| EmailSync.SyncEmails | src/sync/email.rs:49-153 | the running tick computes the specified tick for some order and answer choices, or stops where it would be refused |
| HeaderFields.DropFields | src/daemon/submit.rs:1233-1260 | the index loop keeps exactly the logical fields whose first line is not to be dropped |
| HeaderFields.FlattenFields | src/daemon/submit.rs:1308-1333 | the logical fields put together are the header |
| HeaderLaws.FieldsAreCut | src/daemon/submit.rs:1237-1316 | inside a field every LF is followed by a space or tab, and between two fields stands an LF and then neither |
| HeaderLaws.HeaderEndIs | src/daemon/submit.rs:1322-1333 | the header ends after the first CR LF CR LF, if there is none after the first LF LF, else with the message |
| HeaderLaws.FirstLineIs | src/daemon/submit.rs:1308-1317 | a line goes up to and with the first LF, or to the end |
| Family2.StripFamily2Headers | src/daemon/submit.rs:1233-1262 | the stripper is the field filter on the header followed by the body byte for byte |
| Family2Laws.Family2Iff | src/daemon/submit.rs:1284-1302 | a line counts as injected exactly when it begins with X-JMAP-Failure:, X-JMAP-Failed-At: or X-JMAP-Ulid:, letter case aside |
| Family2.SanitizedIsOneLine | src/daemon/submit.rs:1268-1270 | whatever the reason, the injected value holds no control character |
| Family2Laws.SanitizedSaysReason | src/daemon/submit.rs:1268-1274 | the value holds exactly the characters of the reason that are neither white space nor control characters, in order; a single space stands exactly where such characters were separated, and none at either end |
| Family2Laws.SanitizePrinted | src/daemon/submit.rs:1268-1274 | a further such character goes at the end, after one space if it comes after a gap and is not the first |
| Family2Laws.InjectedText | src/daemon/submit.rs:1275-1281 | the failed copy is the message under the three lines of text, in UTF-8: the sanitised reason, the time, the ulid |
| Family2Laws.Utf8RoundTrip | src/daemon/submit.rs:1278-1280 | reading the bytes of a text by their lead bytes gives its characters |
| RoundTrip.StripInjectIff | src/daemon/submit.rs:1264-1282 | for every reason, stripping after injecting equals stripping the message exactly when the message round-trips |
| RoundTrip.StripInject | src/daemon/submit.rs:1233-1282 | holds for every message not opening with space, tab, CR or LF, and gives the message back when it holds no such field |
| RoundTrip.StripUnchangedIff | src/daemon/submit.rs:1203-1208 | stripping leaves a message alone exactly when it holds none of the fields |
| Idempotence.StripTwiceIff | src/daemon/submit.rs:1233-1333 | for any filter, stripping twice is stripping once exactly when the part of the body that has become header holds no field to drop |
| Idempotence.StripIdempotentIff | src/daemon/submit.rs:1233-1333 | the same for the three headers; in particular whenever the field before the blank line is kept |
| Idempotence.IdempotentWhenLastKept | src/daemon/submit.rs:1322-1333 | for any filter, a message that keeps its last header field strips twice as once |
| Idempotence.StripTwiceTakesMore | src/daemon/submit.rs:1322-1333 | a second stripping takes a body line when the only field is dropped, or the line before it ends in LF alone |
| Idempotence.AllDroppedTwice | src/daemon/submit.rs:1322-1333 | the first case at an input: all header fields dropped |
| Idempotence.MixedEndingsTwice | src/daemon/submit.rs:1322-1333 | the second case at an input: a kept line ends in LF, the dropped one in CRLF |
| MessageCopies.CopiesAgreeIff | src/daemon/submit.rs:1203-1282 | every copy made by failures and drag-backs has the content of the message exactly when the message survives one of each |
| MessageCopies.SurvivesIff | src/daemon/submit.rs:1203-1333 | which messages those are: no folded start, none of the headers after a blank start, no body line exposed |
| MessageCopies.AnnotatedSurvives | src/daemon/submit.rs:1264-1282 | a message that survives still does when it is queued again with the headers on it |
| MessageCopies.FoldedStartIsLost | src/daemon/submit.rs:1233-1282 | of a message that opens with a folded line, one failure and drag-back loses exactly the first field |
| MessageCopies.FoldedLineIsLost | src/daemon/submit.rs:1233-1282 | at an input: a message of one folded line comes back empty |
| QueueStrip.StripHeader | src/bin/jmapqueue.rs:249-270 | the queueing tool's stripper computes the line filter on the header and keeps the body |
| QueueStrip.DropLines | src/bin/jmapqueue.rs:249-267 | the loop with the skip flag computes the line filter in which folded lines share their field's fate |
| QueueStrip.MatchersAgree | src/bin/jmapqueue.rs:285-299 | both programs recognise the same header lines for any field name |
| HeaderLaws.QueueLineIff | src/bin/jmapqueue.rs:285-299 | a line is the named header exactly when the text before its first colon is the name, letter case aside |
| HeaderLaws.QueueHeaderEndIs | src/bin/jmapqueue.rs:272-279 | the header ends before the first CR LF CR LF, if there is none before the first LF LF, else with the message |
| QueueStrip.QueueStripIsFieldFilter | src/bin/jmapqueue.rs:249-279 | the skip-flag stripper is the field filter, plus one line end before the body when a last field is dropped |
| QueueStrip.StripHeaderIff | src/bin/jmapqueue.rs:249-279 | the two strippers give the same bytes exactly when no last unterminated field is dropped |
| RetrySchedule.Queue.Schedule | src/daemon/submit.rs:421-428 | the name's due time is replaced, the two maps stay inverse with no empty bucket |
| RetrySchedule.Queue.Remove | src/daemon/submit.rs:430-439 | exactly the name goes, the two maps stay inverse with no empty bucket |
| RetrySchedule.Queue.DrainDue | src/daemon/submit.rs:442-456 | returns exactly the names due by now, once each, in due order, and keeps the others |
| SubmitLoop.Loop.HandleEvent | src/daemon/submit.rs:1084-1170 | queue, known failures and pending renames change as specified; says whether the file is a drag-back |
| SubmitLoop.Loop.ExpirePendingRenames | src/daemon/submit.rs:1175-1194 | exactly the timed-out renames go, with the known failures that left Failed |
| SubmitLoop.Loop.StartupScan | src/daemon/submit.rs:216-233 | every file found is queued for the time its sidecar records, or at once if there is none or it has passed |
| SubmitLoop.WaitingIff | src/daemon/submit.rs:249-285 | after any run a name waits exactly when its last queueing step was not undone |
| SubmitLoop.DueIff | src/daemon/submit.rs:421-456 | after any run a name is due at a time exactly when a file appeared or an attempt was put off at that time, or it was found at the start for it, and it was not since then drained, queued anew, removed or failed |
| SubmitLoop.AttemptNeedsCause | src/daemon/submit.rs:592-677 | after a final outcome a name is attempted again only after its file appeared in Outbox or a restart |
| SubmitLoop.DragBackIff | src/daemon/submit.rs:1105-1137 | over any run a file appearing in Outbox is a drag-back exactly when an unexpired, unused departure from Failed is pending |
| SubmitLoop.KnownIff | src/daemon/submit.rs:1105-1194 | after any run the known failures are the names that came to Failed and have not been removed there, dragged back, or gone for longer than 500 ms without appearing |
| Backoff.RawIs | src/daemon/submit.rs:477-483 | the nominal delay is max(1, min(base * 2^min(max(n-1,0),30), cap)); saturation does not show |
| Backoff.RawDoubles | src/daemon/submit.rs:477-482 | the first failure waits for the base, each further one twice as long as the one before, thirty times at most, all up to the cap |
| Backoff.RawNonDecreasing | src/daemon/submit.rs:477-483 | more attempts never wait less |
| Backoff.CapReachedIff | src/daemon/submit.rs:477-483 | the cap is ever reached exactly when thirty doublings of the base reach it |
| Backoff.JitterBounds | src/daemon/submit.rs:483-494 | jitter stays within a fifth of the nominal delay and at or above one second |
| Backoff.DelayIs | src/daemon/submit.rs:483-486 | the delay is the nominal one plus a fifth of it times the fraction, and at least one second |
| Backoff.RetryBackoff.TakeDelay | src/daemon/resilience.rs:26-30 | the k-th delay since reset is base for k = 0, else min(base * 2^k, cap) |
| Backoff.ChangesAlternate | src/daemon/resilience.rs:52-81 | notifications alternate, Down first, and the last one is Down exactly when the last call reported a failure |
| Backoff.FailureNotifier.OnFailed | src/daemon/resilience.rs:52-65 | what was sent is one notification per change of state |
| Sidecars.EnvelopeOkIff | src/daemon/submit.rs:1436-1444 | an envelope passes exactly when sender and some recipient hold a printed character |
| Sidecars.LocalRejectionIff | src/daemon/submit.rs:684-708 | a sidecar is not rejected exactly when sender and some recipient hold a printed character, and the send time, if there is one, is a timestamp |
| Sidecars.AttemptsCountFailures | src/daemon/submit.rs:628-645 | after k transient failures the sidecar records min(k, 2^32-1) attempts, the last error and time, and the same envelope |
| Outbox.Store.Locate | src/daemon/submit.rs:1787-1814 | new before cur, bare name before a flagged one, none only if no file has the name |
| Outbox.Store.MoveToFailed | src/daemon/submit.rs:1349-1380 | performs exactly the listed writes for how far the disk lets it get |
| Outbox.Store.HandleSubmitAttempt | src/daemon/submit.rs:592-677 | performs exactly the listed actions of the attempt, a file it cannot read included, and says whether to queue again; what they amount to is said by the next six |
| OutboxAttempts.UnreadAttempt | src/daemon/submit.rs:605-611 | no file, or none that can be read: the sidecar goes, nothing else |
| OutboxAttempts.ResultIff | src/daemon/submit.rs:684-708 | a sidecar with a sender, a recipient and no bad send time gets the server's answer, any other a permanent failure |
| OutboxAttempts.MarkedWhenOffered | src/daemon/submit.rs:614-620 | when the message is offered the sidecar on disk is marked as in flight already, if the disk lets it |
| OutboxAttempts.AcceptedAttempt | src/daemon/submit.rs:622-627 | success: file and sidecar go, as far as the disk lets them |
| OutboxAttempts.DeferredAttempt | src/daemon/submit.rs:628-645 | put off: the file stays, and the sidecar has one attempt more up to 2^32-1, the time of the next, the reason, no mark, and the same envelope and send time |
| OutboxAttempts.EndedAttempt | src/daemon/submit.rs:655-676 | ended: Failed has the message under the reason, the Outbox file and the sidecar go, as far as the disk lets them |
| OutboxSafety.AttemptKeepsBytes | src/daemon/submit.rs:592-677 | for every message, after any prefix of an attempt: accepted, or its file unchanged, or its bytes under the three headers in Failed; and no other file changed |
| OutboxSafety.NoMailLost | src/daemon/submit.rs:592-677 | at every step boundary an unaccepted message has a copy, and its Outbox file goes only after acceptance or once the Failed copy is in place |
| OutboxSafety.RunKeepsSafe | src/daemon/submit.rs:1349-1380 | the same over every run of attempts, crashes, moves, drag-backs and new messages, whatever the messages hold |
| OutboxSafety.FilesHaveContent | src/daemon/submit.rs:1203-1282 | and over every run each file of a message that survives gives the message's content when stripped |
| OutboxSafety.OffersIff | src/daemon/submit.rs:605-720 | an attempt offers the message to the server exactly when it finds and reads the file and there is a sidecar whose sender and some recipient hold a printed character and whose send time, if any, is a timestamp |
| OutboxSafety.RemovesSidecarIff | src/daemon/submit.rs:605-676 | a completed attempt removes the sidecar exactly when it does not put the message off |
| OutboxSafety.PermanentLosesEnvelope | src/daemon/submit.rs:655-675 | a permanent failure leaves the name without an envelope |
| OutboxSafety.UnreadLosesEnvelope | src/daemon/submit.rs:605-611 | a failed read leaves the name without an envelope and the file in place |
| OutboxSafety.OfferedAfterRunIff | src/daemon/submit.rs:1530-1591 | after any run an attempt offers the message exactly when its last usable sidecar was left alone |
| OutboxSafety.DragBackReachesIff | src/daemon/submit.rs:655-720 | after a permanent failure a drag-back reaches the server exactly when a usable sidecar was written since and left alone |
| OutboxSafety.DragBackIsFutile | src/daemon/submit.rs:1530-1591 | without an envelope no attempt of any later run offers the message to the server, until a usable one is written |
| Handshake.StatusesAgreeIff | src/daemon/submit.rs:510-537 | bare status and problem document of an error status are classed alike exactly unless it is 408 |
| HandshakeOutcomes.RequestErrorClass | src/daemon/submit.rs:510-583 | a failed request is put off exactly when it had no status, one outside 400-499 or 429, a problem document with 408, 429 or 500 and above, a method error serverUnavailable, serverFail or serverPartialFail, or failed otherwise than by a set error; else it is permanent |
| Handshake.ReadFirst | src/daemon/submit.rs:785-856 | the response loop computes the specified verdict |
| Handshake.ScanSuccessIff | src/daemon/submit.rs:785-863 | success exactly when every response is a creation or of another kind |
| Handshake.CascadeIgnored | src/daemon/submit.rs:785-860 | after alreadyExists, errors and submission responses never decide the outcome |
| HandshakeOutcomes.FirstFaultDecides | src/daemon/submit.rs:785-856 | the first response that is not fine decides: a passing method error puts the message off, any other method error, refused import or refused create ends it |
| HandshakeOutcomes.LastFaultDecides | src/daemon/submit.rs:1051-1070 | the same of the request after alreadyExists |
| Handshake.SubmissionServer.SubmitOne | src/daemon/submit.rs:679-863 | the running attempt computes the specified state and outcome; what these are is said by the next two |
| HandshakeOutcomes.OutcomeIff | src/daemon/submit.rs:510-1071 | an attempt succeeds exactly when nothing it depended on failed; it is put off exactly when what it ended on is a request worth a retry or one of the three passing method errors; any other failure and every refusal ends it |
| HandshakeOutcomes.RecordMadeIff | src/daemon/submit.rs:679-1071 | a record is made exactly when an import and a create, or a create for the email the server had and that is not in Sent, reached the server and were taken, whatever became of the answer; an attempt that reached it with neither changes nothing |
| Handshake.SubmissionServer.ReconcileAfterImport | src/daemon/submit.rs:883-990 | queries, decides and executes as specified |
| HandshakeTheorems.SuccessMeans | src/daemon/submit.rs:383-863 | success means a record made by this attempt and its email filed, out of Drafts, in the Scheduled mailbox if it is timed and there is one and in Sent otherwise; or the email found in Sent |
| HandshakeTheorems.SuccessIff | src/daemon/submit.rs:883-990 | with every call answered, success holds exactly in those two cases |
| HandshakeTheorems.CancelLeavesOneIff | src/daemon/submit.rs:998-1071 | a successful cancel-and-resubmit leaves the refused pending records and the new one; one exactly when all destroys are accepted |
| HandshakeTheorems.RunKeepsAtMostOne | src/daemon/submit.rs:1490-1508 | however often a message is tried, with requests and answers lost, a careful server holds one record for it at most |
| HandshakeTheorems.SentAgainIff | src/daemon/submit.rs:1496-1508 | a try answered throughout, of an email the server has already, makes another record exactly when the email is not in Sent |
| HandshakeTheorems.SentElsewhereIsSentAgain | src/daemon/submit.rs:1496-1508 | a final submission filed outside Sent gets a second record on the next try |
| SendPath.AttemptLeavesOthers | src/daemon/submit.rs:679-1071 | an attempt changes neither mailboxes nor records of emails with other bytes |
| SendPath.TryKeepsBytes | src/daemon/submit.rs:592-863 | after one attempt at any message: its file, or the annotated copy, or an email with its very bytes in Sent or with a record |
| SendPath.NoMessageLost | src/daemon/submit.rs:592-677 | over every run with crashes, lost answers and refusals, each message composed has a record or a Sent copy on the server, or a copy on disk |
| SendLimits.NeverLostIff | src/daemon/submit.rs:679-1071 | no move from any state of folders and server loses a message, exactly when only messages alike have a copy in common |
| SendLimits.FoldedLinesAreLost | src/daemon/submit.rs:1203-1282 | two messages of one folded line each have the empty copy in common, so one of them can be lost |
| SendPath.SurvivingAreCompatible | src/daemon/submit.rs:1203-1282 | messages that survive are told apart by their copies, so the theorem holds for any number of them |
| MailboxTree.ResolvePath | src/sync/mailbox.rs:167-207 | succeeds exactly when a root is reached; then splitting the path at its slashes gives the names from the root down, each as configured or else as it is, with _ for a slash; an error names a mailbox on the way that is so |
| MailboxTree.RootPath | src/sync/mailbox.rs:182-207 | a mailbox without parent has its configured or own name for a path, with _ for a slash |
| MailboxTree.ResolvedPath | src/sync/mailbox.rs:167-207 | the same as a law of the path function |
| MailboxTree.ErrorBlames | src/sync/mailbox.rs:176-196 | no id, met again, no name, or unknown parent: so of a mailbox on the way up |
| MailboxTree.ResolveOkIff | src/sync/mailbox.rs:167-200 | resolves exactly when climbing reaches a root past named mailboxes, to those names |
| MailboxTree.CycleFails | src/sync/mailbox.rs:176-181 | a mailbox met again on the way up means failure |
| MailboxTree.ChildPath | src/sync/mailbox.rs:182-207 | a child's path is its parent's, a slash, and one segment without a slash |
| MailboxTree.BuildTargetSet | src/sync/mailbox.rs:100-165 | succeeds exactly when every listed mailbox resolves; then the targets are exactly the kept ones, each with its configured or own name, its parent, role and sort order as listed, and its path |
| MailboxTree.TargetPath | src/sync/mailbox.rs:117-162 | a target's path is made of the names from its root down |
| MailboxTree.BuiltIsRanked | src/sync/mailbox.rs:100-165 | the parents of a built target set form no cycle |
| MailboxOrder.TopoSort | src/sync/mailbox.rs:285-328 | emits round by round; the fallback is used exactly when some targets all wait for each other |
| MailboxOrder.TopoOrderIsSound | src/sync/mailbox.rs:285-328 | each id once, every parent not yet local before its children, no use for the fallback |
| MailboxOrder.BuiltOrderIsSound | src/sync/mailbox.rs:261-264 | so for every built target set and whatever is local |
| MailboxOrder.AllParentsFirstIff | src/sync/mailbox.rs:293-305 | every order the program may take has all parents first exactly when no target's parent is local |
| MailboxOrder.ChildMayComeFirst | src/sync/mailbox.rs:293-305 | a child whose parent is local is first in some order |
| MailboxDeletes.DeletesOkIff | src/sync/mailbox.rs:237-257 | deletes in any order go through exactly when no row that stays has a parent that goes, no email a primary that goes, children come before their parents, and no directory still there at its turn cannot be removed |
| MailboxDeletes.AllDeletesOkIff | src/sync/mailbox.rs:237-257 | read off the table: longest path first goes through however ties are broken, exactly when nothing hangs on what goes and every child that goes has a longer path than its parent |
| MailboxDeletes.ShorterChildBlocks | src/sync/mailbox.rs:253-254 | a child with a shorter path than its parent makes the deletes fail in every such order |
| MailboxDeletes.DeepestIsChildrenFirst | src/sync/mailbox.rs:253-254 | when paths nest, longest path first deletes children before parents |
| MailboxPasses.OnePassMatches | src/sync/mailbox.rs:228-283 | after one pass the keyed rows are the targets and the excluded leftovers, with ids kept |
| MailboxPasses.TwoPassesConverge | src/sync/mailbox.rs:228-396 | rows match after the first pass, parent links are right after the second, a third changes nothing |
| MailboxPasses.OnePassParentsIff | src/sync/mailbox.rs:330-396 | after one pass a target's parent link is right exactly when it was not moved under a new mailbox, nor left under a deleted one |
| MailboxFailures.LinkRightIff | src/sync/mailbox.rs:330-396 | with fresh ids the second cannot happen in a pass that goes through, so the first alone costs a link |
| MailboxPasses.BuiltIsNested | src/sync/mailbox.rs:182-207 | in a built target set every child's path goes on from its parent's |
| MailboxPasses.OnePassNestedIff | src/sync/mailbox.rs:253-254 | so after a pass that went through the table's paths nest exactly when those of its excluded leftovers do |
| MailboxFailures.PassOkIff | src/sync/mailbox.rs:228-283 | a pass goes through exactly when its deletes do, every directory operation does, and no target's parent was just deleted: the tables refuse nothing else |
| MailboxFailures.ChildFirstBlocks | src/sync/mailbox.rs:420-440 | a child moved before its renamed parent leaves a directory that blocks the parent's rename |
| MailboxFailures.BlockedForGood | src/sync/mailbox.rs:228-283 | from there every pass on that target fails, whatever each plans |
| MailboxFailures.HalfRenamed | src/sync/mailbox.rs:293-440 | at an input: a settled tree, a rename on the server, and an order the program may take, after which the child is moved and the parent not |
| MailboxFailures.HalfRenamedCannotGo | src/sync/mailbox.rs:237-257 | if both are then dropped, every plan is refused, although no row that stays and no email hangs on them |
| MailboxPasses.ReparentedLosesParent | src/sync/mailbox.rs:369-396 | a mailbox moved under one created in the same pass ends it without a parent |
| MailboxFailures.PrimaryBlocksDelete | src/sync/mailbox.rs:444-466 | deleting an email's primary mailbox removes the directory, fails, and leaves the rows |
| MailboxFailures.PrimaryBlocksPass | src/sync/mailbox.rs:228-257 | and every later pass fails |
| MailboxFailures.FilteredParentBlocksPass | src/sync/mailbox.rs:237-257 | a kept child whose parent falls out of the target blocks every pass |
| MailboxSync.Mailboxes.ApplyDiff | src/sync/mailbox.rs:228-283 | the running pass computes the specified pass for an allowed plan |
| MailboxSync.Mailboxes.CreateMailbox | src/sync/mailbox.rs:330-367 | directory first, then the row with the parent from the snapshot or the table |
| MailboxSync.Mailboxes.UpdateMailbox | src/sync/mailbox.rs:398-442 | directory moved or made first, onto an empty one if there is one, then the row |
| MailboxDirs.RelocatedIs | src/sync/mailbox.rs:398-442 | relocating onto itself does nothing; a directory that is there is renamed with everything below it and no mail lost, one that is not is made; if it cannot be renamed nothing but parent directories changes |
| MailboxDirs.CanRenameIff | src/sync/mailbox.rs:420-440 | it can exactly when the new place is not within the old one and holds nothing |
| MailboxSync.Mailboxes.DeleteMailbox | src/sync/mailbox.rs:444-466 | directory removed first, then the row |
| MailboxDirs.RemovedIff | src/sync/mailbox.rs:455-460 | removing a directory takes exactly what is at or below it |
| MailboxDirs.PathLengthIs | src/sync/mailbox.rs:253-254 | the length deletes are ordered by is that of the UTF-8 text |
| MailboxSync.CleanupOrphanedEmails | src/sync/mailbox.rs:481-524 | exactly the rows without memberships go, each with the file at its stored path |
| Orphans.CleanupSays | src/sync/mailbox.rs:481-524 | a row stays exactly when some mailbox has it, its memberships with it; a file goes exactly when it is at the stored path of a row that goes |
| MailboxMail.RenameQueuesDestroys | src/sync/mailbox.rs:420-440 | after a rename the next tick asks to destroy, besides what it would have, exactly the emails filed under the old path |

## Left out

- HTTP, TLS, event streams, wire types and JSON text: the server is a state with accept and refuse choices; stored
  keywords are a map, not text.
- Dry runs, counters of the mailbox sync, logging, desktop notifications and network waiting.
- The wording of the reasons the daemon makes up itself, the keywords a submission sets on its email, the identity and
  the hold-until parameter: a reason says only what kind of failure it is, the server's reasons are arbitrary.
- inotify, channels, debouncing and cancellation: `SubmitLoop` starts from the events that reach the handler, and time is
  a number.
- Supervision, locking, configuration and argument parsing, URLs, globs, generation of ids, host name and clock: globs
  are an arbitrary predicate, ids and times are parameters.
- SQLite itself: tables are maps; the columns jmap_state, message_id, size, last_sync and is_dirty carry nothing here, and
  email rows without a server id are not modelled. `set_primary_mailbox` is not used by the sync.
- Files without a flag suffix, the new/ directory of a synced mailbox, and writes under tmp that never get their name.
- `sync_mode`: the sync code never reads it, so write-back runs in every mode here too.
- Liveness of the submit loop: a transient failure waits inline and comes back as due at once, so nothing is claimed for
  the others.
- EmailCrash.CrashHeals: covers insert and in-place update; `EmailMoveCrash` says which crashes of a move are healed.
- EmailLaws.AgreedIsFixed: requires distinct role, sort order and name among synced mailboxes; `Primary.OrderFreeIff` shows why.
- EmailMoveCrash.MoveCrashHealsIff: about the next answer alone; a row that the crash left without any membership goes to
  the orphan cleanup before, with its file, and comes back as a new row.
- MailboxFailures.BlockedForGood: nothing but the passes changes tables and directories in between.
- EmailRefusals.FirstAcceptedTickConverges: nothing but the ticks changes server and files in between.
- OutboxSafety.RunKeepsSafe: one message per base name, and the user deletes no file. A copy is what failures and
  drag-backs make of the message; that the message can be had back from it holds for those that survive
  (`OutboxSafety.FilesHaveContent`, `MessageCopies.CopiesAgreeIff`), and is false of the others.
- SendPath.NoMessageLost: the same, and on the server only these attempts and scheduled releases change emails and records.
  Messages that are not alike must have no copy in common, for the server knows an email by its bytes. That condition is
  exact (`SendLimits.NeverLostIff`); a single attempt keeps every message (`SendPath.TryKeepsBytes`).
- HandshakeTheorems.RunKeepsAtMostOne: counts submission records, not deliveries, under a server that recognises bytes it has imported.
- Backoff.JitterBounds: over real numbers; the rounding of the floating-point product is not modelled.
- MailboxTree.BuildTargetSet: the server lists each id once.
- MailboxDiff.Deletes: the order is by bytes of UTF-8, as the program's; ties are broken arbitrarily.
