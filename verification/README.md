# Verification model of the mail server

A Dafny model of the state the mail server keeps and of the operations that change it, with proofs of
what those operations promise over every run.

`dafny verify dfyconfig.toml` checks everything.

## What is modelled

**The message store.** The SQLite index of messages and folders, the Maildir files with the flags in
their names, and the IMAP counters `uid_next` and `highest_modseq`.

- `MaildirNames` - flags in file names, safe names.
- `StoreModel`, `MaildirScan` - the store as a value, and every operation as a function from one store
  to the next: insert, flag change, move, rewrite, delete, folder delete, UID backfill, the sync of one
  file, a whole pass, the backfill of rows to files, the cleanup.
- `MailStore` - the same store as an object. Its methods update counters, rows and files step by step,
  in the order the server does, and end in the state the function names.
- `StoreEffects` - what each operation on one message leaves of rows and files: which columns, which file,
  in which directory and under which name, told without the functions of `StoreModel`.
- `StoreInvariants`, `StoreSteps`, `FolderOps` - what every store satisfies, what every step promises
  about the store before and after it, and that each operation keeps both.
- `StoreRuns` - any sequence of operations, with other programs changing files in between.
- `Reconcile`, `ReconcilePass` - what looking at one file, and at all files, achieves. `Takeover` - which row
  takes a file over, and all that the sync of one file can come to.
- `Rescan`, `WholePass`, `SecondPass` - a second look at the files; scan, backfill and cleanup together;
  and exactly when a second whole pass has nothing to do. `RefusedCopy` - one that has.
- `OrderBy`, `Common` - `ORDER BY key,id`, and what several modules share.

Each store operation is one atomic step. Times are integers.

**Smaller protocols**, one module each, with no dependence on the store: `Forwarding` (loop header),
`Keyset` (list pages), `SlidingWindow` (rate limits), `Idempotency` (send keys), `ScheduledSend`,
`Permissions` (effective limits), `ExternalSync` (import of remote IMAP folders), `LoginNames`
(migration), `AiLimiter`, `EnvFile` (the manager's `.env` editor). In `Idempotency`, `ScheduledSend` and
`ExternalSync` the steps of any number of requests and workers interleave, one SQL statement, one send
or fetch, or one transaction at a time, so that what a step has read may be out of date when the next one
acts on it. Whether a fetched message's id is in the local folder already is an input of its transaction,
for all other operations change that.

## What the proofs found

Where a natural property fails, the code is modelled as it is; a lemma gives the exact condition or a
failing input.

- A move that renames the message's file does not tell the folder it leaves: the code has already
  overwritten the folder id it later compares with (maildir_write.go:193 and 236-240). Moves without a
  Maildir, moves that write a new file, folder deletion and the sync do tell it.
- A second pass over unchanged files may remove one: of two new copies of a message, the first is refused
  for its size and the second imported; then the first one's message is known, and the next pass removes
  it (maildir_sync.go:359-366 and 515-535). Only files that failed before can go this way, and the
  message keeps its other file.
- A custom folder named `.` has no directory of its own: the dot is taken for the leading one, and its files
  lie with those of Inbox (maildir_sync.go:324-331; the name is allowed by mail_handlers.go:2093-2110).
- A message that is neither read nor starred gets its file in `new`, in every folder
  (maildir_write.go:569-573).
- A backfilled message that is neither read nor starred, outside Inbox, comes back as read at the next
  pass (maildir_sync.go:609).
- A file whose foreign flags spell a separator (the characters `:`, `2`, `,` in this order) gets another
  base name when flags are written.
- A cancelled scheduled send may still be sent, because the status is read and written in two statements.
- An idempotency key can be freed, and its recorded send replaced, by a request that takes more than a
  day: neither statement asks whose row it changes. A different request is then answered with that send.
- A message whose import from a remote folder fails is not tried again, since the last UID moves past it;
  nor are messages below the last UID after a change of UIDVALIDITY, nor those a full batch left out
  below its highest UID.
- The check of an assignment does not look at the target's mailbox override.
- `.env` lines that end in a carriage return of their own lose it when the file is written, and with it
  values that end in one.

## Model

| member | source | states |
|---|---|---|
| `MaildirNames.FlagsReadBack` | apps/api/internal/app/maildir_write.go:566-592 | for every name and folder: when a flag is written or the name has a foreign one, reading the flags of the name just written gives the written ones |
| `MaildirNames.RoundTripExactly` | apps/api/internal/app/maildir_sync.go:595-610 | flags survive writing and reading back if and only if the folder is Inbox, a flag was set, or a foreign flag is in the name |
| `MaildirNames.AnyNameReads` | apps/api/internal/app/maildir_sync.go:595-610 | of any name: the flags after the last `:2,` are read, those after the last `!2,` only where there is no `:2,`, and a name without either is unread exactly in Inbox |
| `MaildirNames.UnreadOutsideInboxReadsBackRead` | apps/api/internal/app/maildir_sync.go:608-610 | a concrete name: written unread and unstarred, read outside Inbox as read |
| `MaildirNames.WithFlagsKeepsTheRest` | apps/api/internal/app/maildir_write.go:566-603 | for every name whose base holds no separator, the base survives a flag write if and only if the foreign flags do not spell a separator; then the foreign flags survive too and only managed ones are added |
| `MaildirNames.ForeignFlagsSpellSeparator` | apps/api/internal/app/maildir_write.go:566-603 | a concrete name whose foreign flags do, and whose base a flag write changes |
| `MaildirNames.LastWriteWins` | apps/api/internal/app/maildir_write.go:566-592 | for every name whose base holds no separator, of two flag writes only the last one counts, unless the foreign flags end in a separator and the second write sets no flag |
| `MaildirNames.PreserveMaildirFlags` | apps/api/internal/app/maildir_write.go:594-603 | the loop keeps exactly the foreign flags, in order |
| `MaildirNames.SafeMaildirName` | apps/api/internal/app/maildir_write.go:533-554 | a made-up name is the first 120 characters of the sanitised value without the cut characters at its ends, or a default for an empty one; it is never empty, holds safe characters only and does not start with a cut one |
| `MaildirNames.TrimmedExactlyWhen` | apps/api/internal/app/maildir_write.go:533-554 | trimming gives the one middle part that begins and ends outside the cut characters and leaves only these outside; there is no other |
| `MaildirNames.SafeNamesHaveNoFlags` | apps/api/internal/app/maildir_write.go:525-554 | a made-up name contains no flag separator, so no flag is read from it before one is written |
| `StoreSteps.BumpRaisesExactlyWhen` | apps/api/internal/app/imap_metadata.go:210-233 | a bump raises the highest mod-sequence if and only if it stands at least two below the largest int64 |
| `StoreSteps.PlaceKeeps` | apps/api/internal/app/imap_metadata.go:180-204 | giving a row a place under a fresh UID keeps the invariant and the two-state promises, also when the unique index refuses the row |
| `StoreSteps.StampKeeps` | apps/api/internal/app/imap_metadata.go:235-274 | rewriting a row under a new mod-sequence keeps the invariant and the two-state promises |
| `StoreInvariants.EvolvesTransitive` | apps/api/internal/app/imap_metadata.go:180-233 | the promises about the state before and after one step (counters grow, UIDs keep their meaning, changes are stamped) compose over any number of steps |
| `MailStore.MailStore.NextIMAPMetadata` | apps/api/internal/app/imap_metadata.go:180-204 | in-place counter update, equal to the specification state, and the values handed out |
| `MailStore.MailStore.BumpFolderModSeq` | apps/api/internal/app/imap_metadata.go:210-233 | in-place counter update with int64 wrap and saturation, 0 for an absent folder |
| `MailStore.MailStore.InsertMessage` | apps/api/internal/app/mail_handlers.go:2343-2385 | the whole new state of an insert, with and without folder, quota and unique index |
| `MailStore.MailStore.UpdateMessageMaildirFlags` | apps/api/internal/app/maildir_write.go:286-337 | the whole new state: renamed file, new path, new mod-sequence; an error exactly when the path is taken |
| `MailStore.MailStore.MarkRead` | apps/api/internal/app/mail_handlers.go:1987-2016 | the whole new state; and, told of the rows: the message has `read` as asked and `starred` as before, with only path, mod-sequence and update time changed besides, and no other row changes; if another row has the new path no row changes |
| `MailStore.MailStore.Star` | apps/api/internal/app/mail_handlers.go:2018-2047 | the same for the star, with `read` as before |
| `MailStore.MailStore.WriteMessageToNewMaildirFolder` | apps/api/internal/app/maildir_write.go:249-276 | new file, old file removed, source folder bumped, row placed |
| `MailStore.MailStore.RewriteMessageMaildir` | apps/api/internal/app/maildir_write.go:39-68 | new file in the message's own folder, UID kept, new mod-sequence |
| `MailStore.MailStore.MoveMessageMaildir` | apps/api/internal/app/maildir_write.go:168-247 | all four paths of a move: no Maildir, no mailbox, file missing, file renamed |
| `MailStore.MailStore.DeleteMessage` | apps/api/internal/app/mail_handlers.go:2678-2687 | file and row gone, folder bumped |
| `MailStore.MailStore.DeleteMailFolder` | apps/api/internal/app/mail_handlers.go:327-380 | the loop over the folder's messages, the cascade and the final bump, in place |
| `MailStore.MailStore.BackfillFolderIMAPUIDs` | apps/api/internal/app/imap_metadata.go:134-170 | the numbering loop and the final raise of both counters, in place |
| `MailStore.MailStore.CleanupMissingMaildirMessages` | apps/api/internal/app/maildir_sync.go:537-593 | exactly the rows that are old enough and whose file is gone are deleted, each bumping its folder |
| `MailStore.MailStore.SyncExistingMaildirMessageState` | apps/api/internal/app/maildir_sync.go:428-526 | row by path, else first usable candidate by message id, else duplicate removal; whole new state |
| `MailStore.MailStore.SyncMaildirFile` | apps/api/internal/app/maildir_sync.go:333-381 | the whole new state and the outcome for one file |
| `MailStore.MailStore.SyncMaildirOnce` | apps/api/internal/app/maildir_sync.go:102-164 | the file loops in place: state, failed files and import count of the specified pass |
| `MailStore.MailStore.BackfillSQLiteMessagesToMaildir` | apps/api/internal/app/maildir_write.go:356-394 | the oldest hundred rows without a file get one, in order |
| `StoreEffects.DirRuleExactlyWhen` | apps/api/internal/app/maildir_sync.go:324-331 | a folder's directory is the root for Inbox in any case, and else a dot and the trimmed name without its leading dot, or the root if nothing is left; exactly one directory satisfies the rule |
| `StoreEffects.FoldersApart` | apps/api/internal/app/maildir_sync.go:324-331 | no path lies in the directories of two folders whose directories differ |
| `StoreEffects.NewFileLies` | apps/api/internal/app/maildir_write.go:117-129 | a file made for a message lies in the directory of its folder, in `new` exactly when the message is neither read nor starred, with the made-up base name and no flags but those of the message; its name reads back as the message's flags exactly in Inbox or when one is set |
| `StoreEffects.InsertStores` | apps/api/internal/app/mail_handlers.go:2343-2385 | a refused quota adds nothing; otherwise one new row holds exactly the given content under the next UID of its folder, or no UID without a folder, unless the path is taken; no other row and no file changes |
| `StoreEffects.DeleteRemoves` | apps/api/internal/app/mail_handlers.go:2678-2687 | the row is gone and its file too if it lies below the root; all other rows and files stay |
| `StoreEffects.FlagsWithoutFile` | apps/api/internal/app/mail_handlers.go:1987-2047 | a message without a file gets exactly the flags given; no file and no other row changes |
| `StoreEffects.FlagsWithFile` | apps/api/internal/app/maildir_write.go:286-337 | a message with a file gets the flags and the file, with its content, the path that says so; the old path is gone if it differs, no other file or row changes; if another row carries that path no row changes |
| `StoreEffects.ReflaggedTells` | apps/api/internal/app/maildir_write.go:566-592 | the path a flag change gives keeps directory, base name and foreign flags, and reads back as the flags set under the condition of `RoundTripExactly` |
| `StoreEffects.MoveWithoutMaildir` | apps/api/internal/app/maildir_write.go:168-185 | without a Maildir a move changes folder, UID, mod-sequence and update time of the one row, and neither its path nor any file |
| `StoreEffects.MoveTakesTheFile` | apps/api/internal/app/maildir_write.go:186-247 | a message whose file is there takes it along: its content lies in the target's directory under the same base name, the old path is gone unless it is the new one, all other files are as before, and the row differs only in folder, path, UID, mod-sequence and update time; if another row carries the path no row changes |
| `StoreEffects.MoveMakesAFile` | apps/api/internal/app/maildir_write.go:186-247 | a message whose file is missing gets a new one in the target's directory, holding its message; the row differs in the same columns |
| `StoreEffects.MoveOfUnowned` | apps/api/internal/app/maildir_write.go:168-247 | with a Maildir, a message without a mailbox, or one that is not there, is not moved |
| `StoreEffects.WriteMakesAFile` | apps/api/internal/app/maildir_write.go:78-166 | a message written to a folder has a new file in that folder's directory, holding its message; the old file is gone, and all other files and rows stay |
| `StoreEffects.RewriteMakesAFile` | apps/api/internal/app/maildir_write.go:39-76 | the same in the message's own folder, with UID and folder kept |
| `StoreEffects.FolderIsThere` | apps/api/internal/app/admin_handlers.go:1589-1608 | afterwards the mailbox has a folder of this name in some case; if it had one nothing changes, and else one folder with both counters at 1 is new |
| `StoreSteps.InsertKeeps` | apps/api/internal/app/mail_handlers.go:2343-2385 | an insert keeps the invariant and the two-state promises |
| `StoreSteps.SetFlagsKeeps` | apps/api/internal/app/mail_handlers.go:1987-2047 | a flag change keeps them |
| `StoreSteps.MoveKeeps` | apps/api/internal/app/maildir_write.go:168-247 | a move keeps them; every folder but the source of a rename is told what left it |
| `StoreSteps.RenameMoveIsSilent` | apps/api/internal/app/maildir_write.go:186-240 | on the rename path the source folder's counters do not change at all |
| `StoreSteps.SilentMoveHappens` | apps/api/internal/app/maildir_write.go:186-240 | a concrete consistent store in which a renaming move takes a message out of Inbox and Inbox's highest mod-sequence stays |
| `StoreSteps.MoveAnnouncedExactlyWhen` | apps/api/internal/app/maildir_write.go:168-247 | a move that takes a message out of a folder raises that folder's highest mod-sequence if and only if it does not go by renaming the file |
| `StoreSteps.DeleteKeeps` | apps/api/internal/app/mail_handlers.go:2678-2687 | a deletion keeps the invariant and announces itself to the folder |
| `StoreSteps.CleanupKeeps` | apps/api/internal/app/maildir_sync.go:537-593 | the cleanup keeps them and announces every row it deletes |
| `FolderOps.DeletionConservesMail` | apps/api/internal/app/mail_handlers.go:327-380 | in a consistent store deleting a folder loses no message: exactly its messages move to Inbox under fresh UIDs ascending in (received_at,id) order, all other rows and folders are as before |
| `FolderOps.DeletionLosesExactly` | apps/api/internal/app/app.go:375-377 | in any store the cascade takes exactly the folder's messages that belong to another mailbox |
| `FolderOps.DeleteFolderKeeps` | apps/api/internal/app/mail_handlers.go:327-380 | deleting a folder keeps the invariant and the two-state promises for all folders |
| `FolderOps.BackfillNumbersInOrder` | apps/api/internal/app/imap_metadata.go:134-170 | no message of the folder stays at UID 0, they are numbered from uid_next in (created_at,id) order, and both counters end above every message |
| `FolderOps.BackfillUniqueExactlyWhen` | apps/api/internal/app/imap_metadata.go:134-170 | of any store, the numbering is unique if and only if no message already holds one of the numbers about to be given out |
| `FolderOps.BackfillUniqueInPractice` | apps/api/internal/app/imap_metadata.go:15-45 | on what the migration and the server leave, where each UID is 0 or below uid_next, the numbering is always unique |
| `FolderOps.BackfillOnLowCounter` | apps/api/internal/app/imap_metadata.go:134-170 | a concrete store, with uid_next at a UID in use, on which it is not |
| `FolderOps.BackfillKeeps` | apps/api/internal/app/imap_metadata.go:134-170 | in a consistent store the backfill keeps the invariant and the two-state promises |
| `StoreRuns.StepKeeps` | apps/api/internal/app/imap_metadata.go:180-233 | every operation keeps the invariant and the promises, and tells each folder what left it, a renaming move alone excepted |
| `StoreRuns.RunFromNewDatabase` | apps/api/internal/app/imap_metadata.go:15-45 | every run from an empty database is one of the runs the following results speak of |
| `StoreRuns.UidNeverReused` | apps/api/internal/app/imap_metadata.go:180-204 | over every run a positive UID of a folder means one message for ever (section 2.3.1.1 of RFC 9051) |
| `StoreRuns.LaterMeansLarger` | apps/api/internal/app/imap_metadata.go:180-204 | over every run a message placed later has a larger UID than all messages of the folder before it |
| `StoreRuns.ChangedSinceIsComplete` | apps/api/internal/app/imap_metadata.go:206-274 | over every run, below saturation, a message that is new or changed since some state stands above that state's highest mod-sequence (section 3.1 of RFC 7162) |
| `StoreRuns.ChangeRaisesHighest` | apps/api/internal/app/imap_metadata.go:206-233 | over every run without silent moves out of a folder, any visible change of it, departures included, raises its highest mod-sequence |
| `Reconcile.SyncFileStep` | apps/api/internal/app/maildir_sync.go:333-381 | one file: failure without a trace, or exactly one row that says what the file says, or removal as a duplicate of a row whose own file is on disk |
| `Reconcile.UnsettledIsDuplicate` | apps/api/internal/app/maildir_sync.go:515-535 | when no row can take the file over, it is removed exactly when the folder knows the message already, and another live file of that message is indexed |
| `Takeover.WhoKeepsTheFile` | apps/api/internal/app/maildir_sync.go:428-455 | a row that carries a file's path follows the file: in its own folder it keeps its UID, and its mod-sequence too when the flags are the same; else it moves to the file's folder under the next UID; no other row changes |
| `Takeover.WhoTakesTheFile` | apps/api/internal/app/maildir_sync.go:456-526 | when no row carries the path, a row takes the file exactly when one fits; it is the one that goes before all others that fit, rows of the file's folder before others and each kind in (created_at,id) order; so long as a row of that folder fits, no row of another folder changes |
| `Takeover.SyncFileAnswers` | apps/api/internal/app/maildir_sync.go:333-381 | for every readable file, which of these happens and when: its row follows it, the rightful row takes it over, it is removed as known, it is refused for its size, or it is imported with its flags and date under the next UID |
| `Takeover.ScanCountsImports` | apps/api/internal/app/maildir_sync.go:102-164 | a pass deletes no row and its import count is the number of rows it adds |
| `Rescan.FailsExactlyWhen` | apps/api/internal/app/maildir_sync.go:333-381 | a file is counted as an error if and only if, before the call, it is gone, unreadable, or over quota with no row that could take it over and a message its folder does not know |
| `ReconcilePass.ScanReconciles` | apps/api/internal/app/maildir_sync.go:129-164 | after a pass every listed file that is still there and not counted as an error has its row with its folder and flags; a removed file's message lives elsewhere; no live row lost its file; no file outside the list is touched |
| `Rescan.PassIsQuietExactlyWhen` | apps/api/internal/app/maildir_sync.go:129-174 | a pass over any consistent store changes nothing if and only if each listed file has to be refused or has its row, with its folder and flags, already; both can be seen before the pass |
| `Rescan.SecondPassChangesNothing` | apps/api/internal/app/maildir_sync.go:333-381 | whatever failed in a pass, the next one changes no row's folder, path, flags, UID or mod-sequence, removes no file and imports nothing, if and only if every file that failed has, in the state the first pass leaves, to be refused again or its row |
| `Rescan.SecondPassRemovesOnlyFailures` | apps/api/internal/app/maildir_sync.go:515-535 | whatever the next pass imports or refuses, a file it removes is one that failed before, and its message has another file with a row |
| `Rescan.UnfailedFilesStay` | apps/api/internal/app/maildir_sync.go:361-373 | looking again at files that did not fail changes nothing, and none of them that can be read is an error |
| `RefusedCopy.RefusedCopyIsRemovedNext` | apps/api/internal/app/maildir_sync.go:359-376 | a concrete Inbox with two copies of a message, the first over quota: the first pass refuses it and imports the other, the second pass over the same files removes it |
| `WholePass.BackfilledFileRescan` | apps/api/internal/app/maildir_write.go:356-394 | the sync of a file the backfill has just written leaves its row alone if and only if the folder is Inbox or the message is read or starred |
| `WholePass.BackfillReaches` | apps/api/internal/app/maildir_write.go:356-394 | after the backfill every row of the batch has a file of its own and is otherwise as before, no other row or file changed, and every file that had a row still has it |
| `WholePass.BackfillMakesFiles` | apps/api/internal/app/maildir_write.go:356-394 | the backfill makes one file for each row of its batch and no other; each lies in the directory of its row's folder and holds its message, all of them differ, and all other rows and files are as before |
| `WholePass.BatchIsOldest` | apps/api/internal/app/maildir_write.go:356-394 | the batch holds only rows without a file, in (created_at,id) order, and every such row that is not in it comes after a full hundred that are |
| `WholePass.CleanupRemoves` | apps/api/internal/app/maildir_sync.go:537-593 | the cleanup deletes exactly the rows whose file below the root is gone and which are older than the cutoff; no other row and no file changes |
| `WholePass.CleanupCompletesExactlyWhen` | apps/api/internal/app/maildir_sync.go:537-593 | after the cleanup every row with a path has its file if and only if every row whose file was gone was older than the cutoff |
| `WholePass.FullPassCorresponds` | apps/api/internal/app/maildir_sync.go:102-176 | after scan, backfill and cleanup, whatever failed: every file that was listed and did not fail, or that the backfill wrote, has exactly one row; and every row with a path has its file under the same if-and-only-if |
| `SecondPass.FullPassQuietExactlyWhen` | apps/api/internal/app/maildir_sync.go:102-176 | scan, backfill and cleanup over any consistent store change nothing if and only if every listed file has to be refused or has its row, no row waits for a file, and no row whose file is gone is older than the cutoff; all of it can be seen before the pass |
| `SecondPass.BackfilledIsListed` | apps/api/internal/app/maildir_sync.go:129-149 | a file the backfill made is where a listing of its row's folder finds it |
| `SecondPass.SecondFullPass` | apps/api/internal/app/maildir_sync.go:102-176 | a second whole pass changes nothing if and only if, in the state the first one leaves, what failed has to be refused again or has its row, every message the first pass wrote a file for is in Inbox, read or starred, no row waits for a file, and no row whose file is gone has crossed the cutoff |
| `Forwarding.ForwardedIsRecognised` | apps/api/internal/app/forwarding_delivery.go:207-239 | every forwarded copy carries a header the guard finds, for all messages and in all three branches |
| `Forwarding.RecognisedExactlyWhen` | apps/api/internal/app/forwarding_delivery.go:207-215 | a message counts as forwarded if and only if the header name, in letters of either case, stands before every blank line; a CRLF blank line goes before any of bare LF |
| `Forwarding.BlockSays` | apps/api/internal/app/forwarding_delivery.go:217-239 | the inserted block is the two header lines with host and address, ended as the message ends its lines, and a blank line after them for a message without one |
| `Forwarding.OnlyInserts` | apps/api/internal/app/forwarding_delivery.go:217-239 | taking the inserted block out again gives the original message, headers and body unchanged |
| `Forwarding.BlankLineKept` | apps/api/internal/app/forwarding_delivery.go:217-239 | the blank line that ends the headers is still there |
| `Forwarding.FilterTargets` | apps/api/internal/app/forwarding_delivery.go:25-36 | the mailbox itself and repeated targets are left out, all others kept in the order of first mention |
| `Forwarding.Deliver` | apps/api/internal/app/forwarding_delivery.go:16-73 | for every forwarding graph, cycles included, delivery ends, and after the first arrival each listed target but the mailbox itself receives one marked copy, in the order of first mention, and no other mailbox any; taking the block out of a copy gives the original; a marked message causes none |
| `Forwarding.CopiesAreFinal` | apps/api/internal/app/forwarding_delivery.go:44-48 | no copy is forwarded again, in whatever graph it arrives |
| `Keyset.PageSize` | apps/api/internal/app/open_api_handlers.go:934-943 | the page size is between 1 and the maximum, and what was asked for when that is in range |
| `Keyset.ListPage` | apps/api/internal/app/open_api_handlers.go:33-52 | the row loop returns the longest prefix that fits, with a next cursor exactly when rows are left over |
| `Keyset.PageIsComplete` | apps/api/internal/app/open_api_extended.go:187-226 | a page is ordered, lies beyond its cursor and leaves out no row of the table up to its own end |
| `Keyset.WalkIsExact` | apps/api/internal/app/open_api_handlers.go:544-582 | whatever is inserted or deleted between pages, no row repeats, rows come in order, and a row present throughout is shown |
| `Keyset.StillWalk` | apps/api/internal/app/mail_handlers.go:1505-1541 | over an unchanged table n pages show exactly the first rows of the sorted list, and the walk is at its end exactly when all are shown |
| `Keyset.StillWalkEnds` | apps/api/internal/app/open_api_handlers.go:27-53 | following the cursors of an unchanged table ends after as many requests as there are pages, with the whole sorted list |
| `SlidingWindow.EventTable.CheckAndRecord` | apps/api/internal/app/mail_handlers.go:1220-1256 | decision and new table of one request |
| `SlidingWindow.EventTable.CleanupStaleEvents` | apps/api/internal/app/mail_handlers.go:1893-1903 | a row is there afterwards if and only if it was before and is not older than a day; the rows keep their order |
| `SlidingWindow.SinceKeepsExactly` | apps/api/internal/app/mail_handlers.go:1893-1903 | the rows kept stood at exactly the places whose time is at or after the cutoff, in increasing order |
| `SlidingWindow.SinceKeepsMultiplicity` | apps/api/internal/app/mail_handlers.go:1893-1903 | each row is kept as often as it was there |
| `SlidingWindow.LimitsHold` | apps/api/internal/app/mail_handlers.go:1082-1126 | over every run no closed 24 hours holds more than the daily limit of a user's accepted events, no closed 60 seconds more than the minute limit |
| `SlidingWindow.HistoryIsWhatWasRecorded` | apps/api/internal/app/mail_handlers.go:1220-1256 | the accepted events the bounds speak of are exactly those of the requests that were recorded, one each, in their order |
| `SlidingWindow.RefusedExactlyWhenFull` | apps/api/internal/app/mail_handlers.go:1232-1250 | a request that is not exempt is refused if and only if accepting it would break one of the two bounds for the interval ending now, by the daily one first; it passes unrecorded if and only if it is exempt or has no limit |
| `SlidingWindow.CleanupChangesNoDecision` | apps/api/internal/app/mail_handlers.go:1893-1903 | wherever the worker runs, every request gets the answer it would get without the worker |
| `Idempotency.KeyTable.Reserve` | apps/api/internal/app/open_api_handlers.go:668-694 | answer and new table of an undisturbed reservation; the row cannot be gone then |
| `Idempotency.KeyTable.SendMail` | apps/api/internal/app/open_api_handlers.go:442-483 | one undisturbed request: a failed send leaves the key free, a successful one leaves its message under the key, no other unexpired key changes |
| `Idempotency.HoldsExactlyWhen` | apps/api/internal/app/open_api_handlers.go:445-483 | over every run, late requests included, an attempt holds its key's row if and only if since its reservation no purge came more than a day after it and no failed attempt of the key found the row unrecorded |
| `Idempotency.RowWasPut` | apps/api/internal/app/open_api_handlers.go:668-694 | over every run, late requests included, a key has a row if and only if some reservation put it there and nothing took it since, and the row carries that request's hash and time |
| `Idempotency.FreesAnotherExactlyWhen` | apps/api/internal/app/open_api_handlers.go:463-469 | a failed attempt deletes the row another request's reservation put there if and only if the key was reserved again since and that row is unrecorded; in time it never does |
| `Idempotency.AnswersAnotherExactlyWhen` | apps/api/internal/app/open_api_handlers.go:479-481 | recording a send makes it the answer to a different request if and only if a different request has reserved the key since and has its row; in time it never does |
| `Idempotency.CloseReservationsNeedAFree` | apps/api/internal/app/open_api_handlers.go:463-469 | two reservations of a key are more than a day apart unless a failed attempt of the key found the row unrecorded in between |
| `Idempotency.ReplayIsOfTheSameKey` | apps/api/internal/app/open_api_handlers.go:677-693 | over every run, late requests included, a replay names a send recorded under its user and key |
| `Idempotency.SendsADayApart` | apps/api/internal/app/open_api_handlers.go:445-483 | over every interleaving of requests that finish within a day, two successful sends with one user and key were reserved more than 24 hours apart |
| `Idempotency.FreesOnlyItsOwn` | apps/api/internal/app/open_api_handlers.go:463-469 | in time, a failed attempt deletes its own row and no other; all other live attempts of the key are over a day old |
| `Idempotency.ReplayIsOfTheSameRequest` | apps/api/internal/app/open_api_handlers.go:677-693 | a replay answers only the same request and names the send recorded for it |
| `Idempotency.RecordedSendAnswers` | apps/api/internal/app/open_api_handlers.go:668-694 | within a day of a recorded send the same request is replayed, another one refused, and neither reserves the key |
| `Idempotency.LateFailureFreesAnother` | apps/api/internal/app/open_api_handlers.go:463-469 | a concrete run, each step enabled: an attempt that fails after more than a day frees a later attempt's key, and two sends are reserved one tick apart |
| `Idempotency.LateRecordAnswersAnother` | apps/api/internal/app/open_api_handlers.go:479-481 | a concrete run: an attempt that records after more than a day makes its send the answer to a later, different request |
| `ScheduledSend.Schedule.Process` | apps/api/internal/app/mail_handlers.go:1932-1969 | one undisturbed worker run: what is started, deleted and written in each case |
| `ScheduledSend.Schedule.Cancel` | apps/api/internal/app/mail_handlers.go:1842-1859 | one undisturbed cancellation succeeds exactly for pending and failed rows |
| `ScheduledSend.StartsAtMostOnce` | apps/api/internal/app/mail_handlers.go:1932-1963 | over every interleaving of workers, cancel requests and crashes a row's send starts at most once and not before its time |
| `ScheduledSend.DraftDeletedOnlyAfterSend` | apps/api/internal/app/mail_handlers.go:1958-1964 | a draft is deleted only after its message was sent |
| `ScheduledSend.StatusIsOutcome` | apps/api/internal/app/mail_handlers.go:1932-1969 | over every interleaving a row that reads as sent had a send that went through, one that reads as failed had one that failed or was rejected, never both, and a deleted draft belongs to a send that went through |
| `ScheduledSend.CancelledBeforeClaimIsNeverSent` | apps/api/internal/app/mail_handlers.go:1842-1859 | a row cancelled before any claim is never sent |
| `ScheduledSend.CancelStopsExactlyWhenNotOpen` | apps/api/internal/app/mail_handlers.go:1846-1858 | after a cancellation is written the message was or can still be sent if and only if its send has begun or a worker that claimed the row has yet to begin it |
| `ScheduledSend.CancelledYetSent` | apps/api/internal/app/mail_handlers.go:1846-1858 | a concrete run in which a successful cancellation comes after the send |
| `Permissions.MergeIsJoin` | apps/api/internal/app/permissions.go:218-276 | merging limits is a join with 0 on top and 1 at the bottom, and an actor may grant exactly what lies below the actor's own limits in its order |
| `Permissions.CleanIdList` | apps/api/internal/app/settings_handlers.go:623-635 | the ids are what the items say without surrounding white space, blanks left out, each once and in the order of first mention |
| `Permissions.LimitsForUser` | apps/api/internal/app/permissions.go:694-727 | the loop over the assigned groups computes the specified fold |
| `Permissions.LimitsForGroupIds` | apps/api/internal/app/permissions.go:978-1001 | the merge, or the first id that is not assignable or not found |
| `Permissions.RowsAreJoin` | apps/api/internal/app/permissions.go:694-727 | the limits of a user are the least bound of the regular group, or the defaults where it has no row, and of the assigned groups other than the built-in ones |
| `Permissions.LimitsAgree` | apps/api/internal/app/permissions.go:789-802 | the limits checked before an assignment equal those looked up after it, for any row order and repetitions |
| `Permissions.PermissionsAgree` | apps/api/internal/app/permissions.go:768-787 | the same for permissions |
| `Permissions.Rights.SetUserPermissionGroups` | apps/api/internal/app/permissions.go:1003-1043 | the assignment is replaced exactly when all checks pass, and untouched otherwise |
| `Permissions.AssignmentAnswers` | apps/api/internal/app/permissions.go:1003-1043 | what an assignment answers, told group by group: the first id that is not assignable, else the first that is unknown, else permissions and then limits of the regular group or a listed one that the actor lacks, else success |
| `Permissions.AssignedIsWithinActor` | apps/api/internal/app/permissions.go:1003-1043 | after a successful assignment by a non-administrator the groups give the target nothing beyond the actor's limits and permissions |
| `Permissions.RefusedOnlyWhenAbove` | apps/api/internal/app/permissions.go:789-802 | the limit check passes if and only if the regular group and every listed group are within the actor's limits |
| `Permissions.AttachedWithinExactlyWhen` | apps/api/internal/app/permissions.go:645-647 | with a mailbox override, the limits attached at sign-in are within the actor's if and only if the actor could grant the override |
| `Permissions.OverridePassesTheCheck` | apps/api/internal/app/permissions.go:645-647 | a concrete actor, target and override for which the assignment passes and the attached limits exceed the actor's |
| `ExternalSync.Importer.SyncFolder` | apps/api/internal/app/external_imap.go:1141-1196 | new state of a pass; imported, skipped and failed are the numbers of messages with each outcome and add up to the batch, and imports are local inserts |
| `ExternalSync.InsertedAtMostOnce` | apps/api/internal/app/external_imap.go:1141-1244 | over any interleaving of checks and import transactions, stale checks included, a key yields at most one local message, records stay and the last UID never goes back |
| `ExternalSync.InsertedExactlyWhen` | apps/api/internal/app/external_imap.go:1208-1244 | over any interleaving a message is recorded if and only if it was or some import settles it, and inserted if and only if it was, or it was not recorded and the first import that settles it does not find it in the local folder |
| `ExternalSync.OutcomeIs` | apps/api/internal/app/external_imap.go:1153-1188 | of each message of a batch under a stable UIDVALIDITY: it fails if and only if it is not recorded and cannot be read or inserted; it is imported if and only if it is neither recorded, listed twice nor in the local folder, and readable and insertable |
| `ExternalSync.StaleCheckInsertsNothing` | apps/api/internal/app/external_imap.go:1208-1230 | two workers that both found a message unknown: the second import inserts nothing |
| `ExternalSync.RecordsExactlyWhatWorks` | apps/api/internal/app/external_imap.go:1141-1196 | under a stable UIDVALIDITY, for any order of delivery and messages coming and going, exactly the messages recorded before or listed by a pass and imported without failure are recorded |
| `ExternalSync.ListedNextExactlyWhen` | apps/api/internal/app/external_imap.go:1741-1764 | a message left out of a full batch is listed by the next pass if and only if its UID exceeds all of the batch |
| `ExternalSync.NothingPassedOverExactlyWhen` | apps/api/internal/app/external_imap.go:1741-1764 | for any order of delivery a pass passes nothing over if and only if its batch is closed under smaller UIDs |
| `ExternalSync.CaughtUpExactlyWhenClosed` | apps/api/internal/app/external_imap.go:1141-1196 | over any number of passes, from any last UID, every message up to the last UID has been listed after each pass if and only if every batch was closed |
| `ExternalSync.AscendingIsClosed` | apps/api/internal/app/external_imap.go:1741-1764 | ascending delivery gives closed batches |
| `ExternalSync.QuietMailboxIsDone` | apps/api/internal/app/external_imap.go:1741-1764 | once nothing new arrives and batches are closed, one pass per started hundred of messages lists them all |
| `ExternalSync.AscendingMailboxIsDone` | apps/api/internal/app/external_imap.go:1741-1764 | the same for ascending delivery |
| `ExternalSync.NeverListedAgain` | apps/api/internal/app/external_imap.go:1741-1764 | a message at or below the last UID is never listed again, failed or not, whatever UIDVALIDITY comes later |
| `ExternalSync.FailedImportIsNotTriedAgain` | apps/api/internal/app/external_imap.go:1741-1764 | a concrete mailbox whose one message cannot be imported: the next pass does not list it |
| `ExternalSync.NewMailboxIsNotListed` | apps/api/internal/app/external_imap.go:1741-1764 | a concrete mailbox that comes back under another UIDVALIDITY: its message is never listed |
| `ExternalSync.DescendingDeliveryLosesOne` | apps/api/internal/app/external_imap.go:1741-1764 | a concrete mailbox of 101 messages delivered newest first, whose batch is not closed, loses its oldest message |
| `LoginNames.FirstFree` | apps/api/internal/app/app.go:1372-1375 | the suffix loop ends within one more step than there are names in use, at the first free candidate |
| `LoginNames.CandidatesDiffer` | apps/api/internal/app/app.go:1372-1375 | different suffixes give different names |
| `LoginNames.PreferredName` | apps/api/internal/app/app.go:1362-1371 | the preferred name is the part of the address before the first at sign when no other user has the same and it is not in use, or else the address, and the id in place of an empty name |
| `LoginNames.MigrateUserLoginNames` | apps/api/internal/app/app.go:1331-1380 | existing names are kept; every other user gets the first free candidate of the preferred base |
| `LoginNames.AllNamed` | apps/api/internal/app/app.go:1358-1380 | no user ends without a name |
| `LoginNames.DistinctExactlyWhen` | apps/api/internal/app/app.go:1331-1382 | all names end pairwise distinct, so the unique index can be created, if and only if the existing names were distinct |
| `AiLimiter.Limiter.DoAcquire` | apps/api/internal/app/ai_mail.go:170-192 | decision and new state, with every window of a minute or older removed |
| `AiLimiter.LimiterIsSound` | apps/api/internal/app/ai_mail.go:170-192 | over every run active equals the outstanding grants and is at most 4, no window holds more than 10 grants, and right after a request every kept window is younger than a minute |
| `AiLimiter.RefusedOnlyWhenFull` | apps/api/internal/app/ai_mail.go:180-183 | a request is refused if and only if 4 are active or the user has had 10 in a window younger than a minute |
| `AiLimiter.MinuteBound` | apps/api/internal/app/ai_mail.go:170-192 | any closed 60 seconds hold at most 20 grants of a user |
| `EnvFile.RenderText` | apps/manager/src/envfile.rs:25-62 | both loops of the writer produce the specified text, or the first validation error |
| `EnvFile.WritesExactlyWhenValid` | apps/manager/src/envfile.rs:64-80 | a text is produced if and only if every key and value is valid; the error is that of the first entry that is not, of its key before its value |
| `EnvFile.WrittenReadsBack` | apps/manager/src/envfile.rs:7-62 | for every file, the value written for a key, the last one if several are given, is the value read back |
| `EnvFile.OtherKeysKept` | apps/manager/src/envfile.rs:7-62 | every other key reads as before if and only if its value does not end in a carriage return, which it otherwise loses |
| `EnvFile.OtherLinesStay` | apps/manager/src/envfile.rs:25-62 | every line of another key, and every other line, is at its place, the same if and only if it does not end in a carriage return; only written entries are added, at the end |
| `EnvFile.IdempotentExactlyWhen` | apps/manager/src/envfile.rs:25-62 | writing twice equals writing once if and only if no key is given twice and no line that stays ends in a carriage return |
| `EnvFile.CrFreeLaws` | apps/manager/src/envfile.rs:7-62 | for files without carriage returns every other key reads as before, and writing twice equals writing once if and only if no key is given twice |
| `EnvFile.CarriageReturnsWearOff` | apps/manager/src/envfile.rs:25-62 | a file whose line ends in two carriage returns loses one with every write, of no entries even |
| `EnvFile.ValueLosesCarriageReturn` | apps/manager/src/envfile.rs:7-62 | a value that ends in a carriage return is read without it after a write of no entries |

## Left out

- The send queue, webhooks, inbound rules, login challenges, and everything behind `sendMailNow`: their outcome is a parameter.
- MIME, HTML and charset parsing, base64 and JSON: a message is its message id, its dates and opaque content; cursors are the pair they encode, and the legacy offset cursors are not modelled.
- Mailboxes without a registered user (maildir_sync.go:226-305), the repair of text encodings, file ownership, the health tracker, draft editing.
- Failing system calls other than those that stop the sync of a single file (unreadable, unparsable, over quota): renames, writes and removals of files succeed. SQL statements fail only for the unique index on the raw path.
- The interleaving of statements inside one store operation: `nextIMAPMetadata` is a read followed by a write, and the model takes it as one step.
- UIDs are unbounded integers. The wrap and saturation of the int64 mod-sequence are modelled.
- Case folding and trimming are those of ASCII. Rows with equal times are ordered by id where a query leaves their order open.
- Two folders of one mailbox whose names share a directory (`X` and `.X`, `.` and Inbox): a pass lists each file once.
- The flag separator is the one written on systems other than Windows; both are read.
- The page queries' filters are the choice of the table that is walked; lists sorted newest first are the same list with the signs of both columns turned round.
- Forwarding.Deliver: addresses and host names come in normalised, and a send that cannot be queued causes no copy; neither is part of this model.
- Timestamps as text: comparisons are those of the times meant.
- Keeping the total message size of a mailbox below its quota: draft updates do not check it.
- ExternalSync.NeverListedAgain: does not model the wrap of a UID at the largest uint32.
- WholePass.FullPassCorresponds: one pass backfills at most a hundred rows, as the code does; rows without a path beyond these wait for the next pass and are no part of the correspondence.
- ScheduledSend.DraftDeletedOnlyAfterSend: the draft id of a row does not change; the database clears it when the draft is deleted, which only removes later deletions.
- SecondPass.SecondFullPass: the names made up for backfilled files are none of those listed; they begin with the time of writing in nanoseconds.
- LoginNames.DistinctExactlyWhen: names and addresses come in normalised; the normalisation itself is not part of this model.
- Permissions.AssignedIsWithinActor: is about what the groups give; the override is the subject of Permissions.AttachedWithinExactlyWhen.
