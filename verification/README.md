# Proofs about the tamper evidence, the quarantine and the one-time artefacts

FENRIR keeps evidence for incident response. Its promises rest on a few small protocols: an audit log
whose rows are chained by SHA-256 and re-checked by a monitor, a quarantine that is migrated from
plaintext to ciphertext while it is in use, case notes that are only ever appended to, downloads that
work once, and two parsers that turn captures into findings. This project models those protocols and
proves what they keep, over all inputs and all runs.

`dafny verify dfyconfig.toml` checks everything.

## How it is built

| files | what they model |
|---|---|
| `Json`, `StringOrder`, `AuditRow`, `UserAgent` | the canonical JSON text, the three payload versions, the row hash, the sanitised user agent |
| `AuditChain`, `AuditMonitor`, `AuditTamper` | `write_audit`, the walk, the anchors, interleaved appends and ticks, deletion of rows |
| `AuditExport`, `ExportToken` | the JSONL slice and the offline recipe; the one-time download as a protocol of many requests |
| `QuarantineStore`, `QuarantineRun`, `QuarantineProtocol`, `QuarantineLives` | one migration and a whole `--apply` run; the same effects interleaved with uploads, deletes and crashes; one artifact from upload to delete |
| `CaseNotes`, `CaseNoteEdits`, `CasePaging`, `CaseNoteHash`, `Utf8` | the recursive query, concurrent edits under the unique index, keyset paging, the content hash |
| `CollectionRaces`, `CollectionRetention` | one package under racing requests with stale rows; the sweep, the effective status and the cap |
| `Pcap`, `DnsMerge` | the two loops of the analysis worker |
| `Insertion`, `Joining`, `FirstSeen`, `FiniteSets`, `Octets`, `Optional` | what several of them share |

Where the source changes things in place (`write_audit`, `run_anchor`, `migrate_one`, the sweep, the
capture reader, the DNS merge) the model has a class or a method with a loop, proved equal to a
function; the lemmas are about that function. Protocols of several parties are state machines over
events: an event that is not possible, or that would have to wait, changes nothing, and a theorem is
about every sequence of events.

## What is assumed

- SHA-256 is a parameter `h`. Results that need it assume a digest of 64 characters and no collision on
  the finite set of inputs at hand (`CollisionFree`), never injectivity on all texts, which no function
  with digests of one length has.
- A Dafny character is a Unicode scalar value; a Python string with a lone surrogate is outside. UUIDs
  are their canonical text. `prev_hash` is ASCII, as the source assumes when it encodes it.
- Clocks, random ids and nonces, the result of a disk write, and whether an unlink works are
  parameters. The monitor's anchors are taken in the order they were written (its own clock does not
  go back); the clock of `write_audit` may do anything, and the theorems say what happens when it
  repeats or goes back.
- One migration process runs at a time. Ids are never reused. Stored names begin with the 36
  characters of their artifact's id, as `store.stored_name` and the older names do (`Owned`); this is
  what keeps uploads, deletes and the migration off each other's files, and under it the outcome
  `target_named` cannot occur, though the model has the branch.
- Raw container bytes under a plaintext row count as bytes other than the recorded ones.
- A commit either happens or not. One request on the event loop runs undisturbed from one `await` to
  the next.

Where documentation and code differ, the code is modelled: the export's README calls every filtered
slice non-contiguous, but a slice filtered by dates alone is a contiguous stretch of the log
(`AuditExport.DateSliceWalks`).

## Model

| member | source | states |
|---|---|---|
| Json.ParsePrint | backend/audit/service.py:37-38 | the canonical text, in the escaped and in the raw form, is undone by a parser for every value of null, booleans, integers, strings, lists and string-keyed objects |
| Json.PrintInjective | backend/audit/service.py:37-42 | so two values with one canonical text are the same value |
| Json.PrintPlain | backend/audit_export/bundle.py:153-175 | the escaped text is printable ASCII: no line feed, whatever the strings hold |
| Json.StringText | backend/audit/service.py:37-38 | a string is written in quotes, each character as itself where it may be, else by its two-character escape, else as `\u` and four lower-case hex digits, twice beyond the basic plane |
| Json.UnescapedText | backend/audit/service.py:37-38 | a string of printable characters other than quote and backslash is written as it is, in the raw form also beyond ASCII |
| Json.IntText | backend/audit/service.py:37-38 | an integer is written in decimal, with a minus sign exactly when negative and no leading zero |
| Json.ArrayText | backend/audit/service.py:37-38 | a list is its items between brackets with commas alone between them |
| Json.ObjectText | backend/audit/service.py:37-38 | an object is its members between braces, each once, the names in increasing order, with colons and commas alone |
| StringOrder.LessIs | backend/audit/service.py:37-38 | the order of the names: the first differing character decides, a proper front comes first |
| AuditRow.IsoFormatInjective | backend/audit/service.py:45-56 | the time stamp in a payload fixes the time, though its fraction is left out at zero |
| AuditRow.IsoFormatText | backend/audit/service.py:45-56 | that text, position by position: date, T, time of day, and six more digits exactly when the microseconds are not zero |
| AuditRow.TickOrders | backend/audit/service.py:135-137 | the order of time stamps used everywhere is the one that compares year, month, day and so on in turn |
| AuditRow.PayloadMembers | backend/audit/service.py:197-220 | a stored row has a payload exactly when its version is known, an empty one being version 1; which member of it holds which field, for each version, and that there are no other members |
| AuditRow.OrEmptyIs | backend/audit/service.py:54 | details that Python takes for false are written as an empty object, all others as they are |
| AuditRow.VersionsDiffer | backend/audit/service.py:45-88 | payloads of different versions are never equal, whatever the rows hold |
| AuditRow.PayloadFixesFields | backend/audit/service.py:197-220 | two rows have one payload exactly when their versions and every field that version hashes agree |
| AuditRow.HashInputInjective | backend/audit/service.py:41-42 | the text hashed determines both the previous hash and the payload, with no separator between them |
| AuditRow.RowHashBinds | backend/audit/service.py:223-228 | two verified rows with one row hash chain to one hash and agree on every hashed field |
| AuditRow.AlteredRowDetected | backend/audit/service.py:197-228 | a change to a verified row passes exactly when no hashed field changed; relabelling it to another version never passes |
| UserAgent.SanitizedClean | backend/audit/context.py:17-30 | the result has no control character, no leading, trailing or doubled white space and at most 512 characters, wherever the cut falls |
| UserAgent.CleanUnchanged | backend/audit/context.py:23-30 | a string that is clean already is returned as it is |
| UserAgent.SanitizeIdempotent | backend/audit/context.py:23-30 | sanitising twice is sanitising once |
| UserAgent.SanitizeKeepsWords | backend/audit/context.py:23-30 | what is stored is none exactly when the value holds no word, else its words with single blanks between them, all of them within the limit, and a front of that text of 511 or 512 characters beyond it |
| UserAgent.SplitWoven | backend/audit/context.py:29 | the words of a text are found whatever white space stands before, between and behind them |
| UserAgent.SplitCovers | backend/audit/context.py:29 | and a text holds nothing but its words and such white space |
| UserAgent.SanitizeWoven | backend/audit/context.py:23-30 | so of words among white space and control characters exactly the words are stored, joined by single blanks |
| AuditChain.VerifyWalk | backend/audit_monitor/anchor.py:37-52 | the walk accepts exactly a chained segment, and of any other names the first faulty row and its fault |
| AuditChain.FindsOne | backend/audit_monitor/anchor.py:37-52 | of every segment there is exactly one thing to report |
| AuditChain.WalkSplits | backend/audit_monitor/anchor.py:37-52 | a walk accepts the whole exactly when it accepts the front, and the rest from the front's last hash |
| AuditChain.SegmentChained | backend/audit_monitor/anchor.py:37-52 | any stretch of a clean log is clean from its own first link |
| AuditChain.RowHashesDistinct | backend/audit_monitor/anchor.py:37-52 | no row hash occurs twice in a clean log and none is the genesis value |
| AuditChain.HeadFixesHistory | backend/audit_monitor/anchor.py:37-52 | two clean logs with one head hash have one length and agree row by row on both hashes, the payload and every hashed field |
| AuditChain.NewRowVerifies | backend/audit/service.py:134-179 | the row written verifies, names the head it chained to, and carries a 64-character hash |
| AuditChain.NewRowCarries | backend/audit/service.py:128-174 | the row carries the event field by field, its user agent sanitised and falsy details empty; its payload holds each of the seventeen members from the field it belongs to, and its hash is taken of the previous hash and that payload |
| AuditChain.RunRecords | backend/audit/service.py:91-194 | over any run the log holds one row for every event and no other, each carrying its event; a user agent is stored only clean, and one that came clean is stored as it came |
| AuditChain.AuditLog.WriteAudit | backend/audit/service.py:91-194 | the log gains exactly the new row, which carries the event and verifies, chained to the row that sorted last, at its place in the key order |
| AuditChain.PlaceKeepsOrder | backend/audit/service.py:134-154 | the log stays in (timestamp, id) order wherever the new key falls |
| AuditChain.InOrderAppendsChain | backend/audit/service.py:131-179 | appends above the head, over any run, leave a clean log |
| AuditChain.BelowHeadBreaks | backend/audit/service.py:134-154 | an append that lands below the head it chained to breaks the log for good, whatever is appended later |
| AuditChain.WalkCleanIffKeysRise | backend/audit/service.py:134-154 | for every run of appends the whole-log walk is clean if and only if each key was above the key of the head it chained to |
| AuditMonitor.AnchorTable.RunAnchor | backend/audit_monitor/anchor.py:55-115 | the anchor recorded, with its verdict and the fault and drop it names, from a count, a head and a segment each read from its own view of the log; none when there is no head |
| AuditMonitor.SegmentIsRest | backend/audit_monitor/anchor.py:73-79 | the segment query returns exactly the rows behind the anchored one |
| AuditMonitor.TickStart | backend/audit_monitor/anchor.py:66-91 | where a tick starts: over from genesis exactly when there is no earlier anchor or it lacks an id or a proper hash, else with the rows above the earlier head in (timestamp, id) order, its hash and its count |
| AuditMonitor.IncrementalSplitsFull | backend/audit_monitor/anchor.py:66-84 | what the incremental walk leaves out: the whole log is clean if and only if the front up to the anchored row is and the segment walks clean |
| AuditMonitor.OkAnchorsCertify | backend/audit_monitor/anchor.py:55-105 | whatever was written or altered above the anchored heads between the ticks and between their reads: if every anchor so far is ok, the log each tick walked was clean from genesis |
| AuditMonitor.NextTickDecidesAll | backend/audit_monitor/anchor.py:66-91 | after ok anchors on unchanged rows the next tick's incremental verdict is the verdict of a full walk, with the count test |
| AuditMonitor.TickCompletes | backend/audit_monitor/anchor.py:55-105 | a tick that has read its head can finish whatever it reads next, and records exactly one anchor, the one `run_anchor` records of those reads |
| AuditMonitor.TickAlone | backend/audit_monitor/anchor.py:55-105 | a tick with nothing between its reads anchors the newest row and counts every row |
| AuditMonitor.HonestRunsStayClean | backend/audit_monitor/anchor.py:55-105 | over every interleaving of honest appends with the three reads of any number of ticks: no tick reports tampering, each anchored head is a row of the log, each count at most the rows up to it, each walk over a stretch of the log that begins right behind the head anchored before, and together the walks cover every row from genesis to the newest anchored head |
| AuditTamper.FullWalkAfterDeletion | backend/audit_monitor/anchor.py:37-52 | after any set of rows is deleted and others are appended, the full walk is clean exactly when the deleted rows were the top ones |
| AuditTamper.TickAfterDeletion | backend/audit_monitor/anchor.py:66-91 | a clean log is anchored at any of its rows, any rows are deleted and others appended above the anchored key: the next tick reports a drop exactly when fewer rows are left than were counted, and a fault exactly when above the anchored row something other than a top part is gone, or the anchored row and all above it are gone and something came |
| AuditTamper.TickAfterExactAnchor | backend/audit_monitor/anchor.py:66-91 | with an exact anchor of the head: the count test trips exactly when more rows are gone than came, a broken link shows exactly when the head is gone and a row came, and the alarm is raised exactly when more are gone than came or the head is among them |
| AuditExport.RenderJsonl | backend/audit_export/bundle.py:164-175 | the file is one terminated record line per row, in order |
| AuditExport.RecordMembers | backend/audit_export/bundle.py:153-161 | which of the five members of a record holds what of its row |
| AuditExport.SplitRendered | backend/audit_export/bundle.py:164-175 | splitting the file on line feeds gives back exactly one record per row, in order |
| AuditExport.RecipeAgrees | backend/audit_export/bundle.py:118-126 | the offline recipe says OK for a record exactly when the in-app check accepts its row; for an unknown version, which the app refuses, it checks the hash over null |
| AuditExport.RecipeReportAgrees | backend/audit_export/bundle.py:104-126 | run over the whole file it reports, row by row, what the in-app check says |
| AuditExport.RenderFixesRows | backend/audit_export/bundle.py:153-175 | the signed text fixes the slice: the number of rows and of each its id, version, hashes and payload |
| AuditExport.DateSliceContiguous | backend/audit_export/routes.py:73-101 | with no filter or only date bounds the slice is a contiguous stretch of the log: the rows neither before the first bound nor after the second |
| AuditExport.DateSliceWalks | backend/audit_export/routes.py:73-101 | and it walks clean from its own first link when the log is clean |
| AuditExport.SliceExact | backend/audit_export/routes.py:67-107 | any slice holds exactly the rows within both bounds that the other filters let through, in key order, and is refused only above 50 000 |
| ExportToken.EveryRun | backend/audit_export/download.py:46-145 | over every interleaving of any number of requests, with failures anywhere: one holder of the row at a time, consumed and purged are final, audit rows are only added |
| ExportToken.TokenOnce | backend/audit_export/download.py:80-132 | at most one request is served, and the status is consumed exactly when one is, with exactly one success row |
| ExportToken.AuditsTell | backend/audit_export/download.py:46-132 | over every interleaving the audit log holds, of each kind, as many rows as requests ended with one; the token is purged exactly when one request found the bundle missing |
| ExportToken.LoserGone | backend/audit_export/download.py:80-93 | a request that gets the row only after another used the token up is answered 410 and leaves no audit row |
| ExportToken.FailureTakesNothing | backend/audit_export/download.py:113-132 | a failed open, audit write or commit, or a lost request, leaves status, audit rows and file as they were and gives up the row |
| ExportToken.StillUsable | backend/audit_export/download.py:46-132 | however many requests failed before, a token not used up, not held and not expired serves the next undisturbed request |
| ExportToken.RequestEnds | backend/audit_export/download.py:46-145 | how one undisturbed request ends, for every combination of state and failure |
| ExportToken.TokenRow.Download | backend/audit_export/download.py:46-145 | the route on its own changes row and audit log as that request does |
| QuarantineStore.Quarantine.MigrateOne | backend/artifacts/encrypt_quarantine.py:87-141 | one artifact, dry or for real: outcome and new store in every case, refusals and failures included |
| QuarantineStore.Quarantine.Leftovers | backend/artifacts/encrypt_quarantine.py:144-168 | the sweep over encrypted rows, dry or for real, removes exactly the verified leftovers and counts what it removed, would remove or kept |
| QuarantineStore.Quarantine.Run | backend/artifacts/encrypt_quarantine.py:194-214 | the run, dry or for real: every row that was plaintext, then the leftovers, with the counters and the exit code |
| QuarantineRun.TargetFree | backend/artifacts/encrypt_quarantine.py:105-112 | no row names another row's target: an orphan container never blocks, and removing it hurts nobody |
| QuarantineRun.LeftoverFree | backend/artifacts/encrypt_quarantine.py:144-168 | nor the plaintext file beside a container |
| QuarantineRun.MigrateExact | backend/artifacts/encrypt_quarantine.py:87-141 | on every disk, whatever the names: the exact cause of each outcome, verify_failed and plaintext_left included |
| QuarantineRun.MigrateLeaves | backend/artifacts/encrypt_quarantine.py:87-141 | and what each outcome leaves: a row is changed and audited only when it was switched, its plaintext gone only if it could be removed; otherwise nothing is gone but an old file at the target name |
| QuarantineRun.MigrateFrame | backend/artifacts/encrypt_quarantine.py:87-141 | migrating one artifact touches no row, audit count or file of another |
| QuarantineRun.MigrateEffect | backend/artifacts/encrypt_quarantine.py:105-141 | on a healthy disk an intact plaintext artifact ends encrypted, readable, its plaintext gone, one audit row more; any other keeps its row and its readability |
| QuarantineRun.ApplyRunCompletes | backend/artifacts/encrypt_quarantine.py:194-214 | from any store a crash may leave, one run does that for every artifact and leaves nothing to do, with no other audit row written |
| QuarantineRun.SecondRunIdle | backend/artifacts/encrypt_quarantine.py:194-214 | a second run changes nothing, even on a failing disk |
| QuarantineRun.StrangersUntouched | backend/artifacts/encrypt_quarantine.py:87-168 | a file that belongs to no row is never touched |
| QuarantineRun.DryRunPredicts | backend/artifacts/encrypt_quarantine.py:98-104 | the dry run reports, row by row, what a following real run answers when it reaches that row |
| QuarantineRun.ExitTells | backend/artifacts/encrypt_quarantine.py:194-214 | a run, dry or real, on whatever disk, exits with 0 exactly when every plaintext row was intact, every leftover lay beside a container that verifies, and in a real run every container was written as it should and every plaintext removed |
| QuarantineRun.CountsTell | backend/artifacts/encrypt_quarantine.py:203-209 | on every disk each plaintext row is counted once, and as many audit rows are written as rows were encrypted, with or without their plaintext left |
| QuarantineRun.LeftoversTell | backend/artifacts/encrypt_quarantine.py:144-168 | a real sweep counts exactly the files that go, and a dry one what a real one would remove and keep |
| QuarantineProtocol.StepSafe | backend/artifacts/encrypt_quarantine.py:87-168 | every effect of upload, delete, crash or tool keeps the invariant, overwrites no file, removes only files nobody needs, and plaintext only beside a container its row names and that verifies, or once its row is gone |
| QuarantineProtocol.FreshPath | backend/artifacts/routes.py:195-200 | a fresh upload's file lies where no file was, and no row or tool step names it |
| QuarantineProtocol.BooksSafe | backend/artifacts/routes.py:202-241 | a commit turns the upload into its row, an abort forgets it, a delete takes the row unless the tool holds it, a crash the uploads under way; none of them changes a file or makes a row unreadable |
| QuarantineProtocol.UnlinkSafe | backend/artifacts/routes.py:356-367 | the unlink a delete or a failed upload still owes removes nothing any row needs |
| QuarantineProtocol.StartHolds | backend/artifacts/encrypt_quarantine.py:194-214 | a quarantine before the tool ever ran satisfies the invariant |
| QuarantineProtocol.RunKeeps | backend/artifacts/store.py:111-139 | over every interleaving with crashes anywhere, a row that could be read and was not deleted can be read under its recorded hash and size, from the moment its upload wrote the file; it is switched at most once and audited exactly then |
| QuarantineProtocol.RunKeepsBytes | backend/artifacts/store.py:111-139 | and it yields the very bytes it yielded, unless the hash collides on the two contents |
| QuarantineProtocol.CrashThenApply | backend/artifacts/encrypt_quarantine.py:87-214 | after any run cut short anywhere, one undisturbed run leaves every artifact that was intact plaintext at the start encrypted, readable, with exactly one audit row and no plaintext file; a further run changes nothing |
| QuarantineProtocol.MigrateIsARun | backend/artifacts/encrypt_quarantine.py:87-141 | the undisturbed effects of one migration amount to the function that specifies it |
| QuarantineProtocol.ApplyIsARun | backend/artifacts/encrypt_quarantine.py:194-214 | a whole undisturbed run is one of the interleavings, one with the tool's effects alone |
| QuarantineLives.UndeletedKept | backend/artifacts/routes.py:356-367 | over every interleaving with crashes anywhere, an artifact nobody deletes keeps its row, and an upload that does not fail stays under way or is committed; switched at most once, audited exactly then, readable if it was |
| QuarantineLives.UploadCommits | backend/artifacts/routes.py:195-240 | an upload whose commit is reached ends as its committed row, and until somebody deletes it that row yields the very bytes uploaded, whatever else happens |
| QuarantineLives.DeleteIsFinal | backend/artifacts/routes.py:356-367 | a deleted artifact, and one whose upload failed, never comes back; once the unlink owed for it was made without a crash before, its file is gone for good |
| CaseNotes.LevelIs | backend/case_notes/chain.py:14-23 | round k of the recursive query yields exactly the entries of revision k + 1, once each, with root and root author |
| CaseNotes.RoundsEnd | backend/case_notes/chain.py:14-23 | the recursion ends within as many rounds as there are entries |
| CaseNotes.ChainExact | backend/case_notes/chain.py:14-23 | the query yields every entry of the incident exactly once and nothing else, with the root, revision and root author its links lead to |
| CaseNotes.RevisionMetaExact | backend/case_notes/chain.py:26-34 | the dictionary knows exactly the entries of the incident, and tells of each its root, revision and root author |
| CaseNoteEdits.OneEntryPerRevision | backend/models.py:1469-1470 | no two entries are the same revision of one note |
| CaseNoteEdits.NoGaps | backend/case_notes/chain.py:14-23 | every revision below an entry's own exists |
| CaseNoteEdits.NoteIsLinear | backend/case_notes/chain.py:14-23 | a note has exactly one current revision, and exactly the revisions 1 to that one's number, each once |
| CaseNoteEdits.GrowthKeepsChains | backend/case_notes/routes.py:268-280 | as entries are added none changes its note or its number |
| CaseNoteEdits.CheckExact | backend/case_notes/routes.py:237-254 | a new note may always proceed; an edit exactly when it names a current revision of its incident and comes from the note's author or an admin; each refusal has its own cause |
| CaseNoteEdits.StepKeeps | backend/case_notes/routes.py:237-280 | a check, an insert or a failure of any request keeps the table well formed, its authors allowed, and only appends |
| CaseNoteEdits.OneWinner | backend/case_notes/routes.py:273-280 | of any number of edits of one revision, over any run, at most one is answered with a new entry |
| CaseNoteEdits.RaceDecided | backend/case_notes/routes.py:273-280 | once one of them reaches the insert exactly one entry corrects that revision, with the next number in its note; whoever came first succeeds and the others get already_corrected |
| CaseNoteEdits.SaveDecides | backend/case_notes/routes.py:268-280 | whoever reaches the insert is answered: with the entry asked for, now a current revision with the next number of its note or the first of a new one, unless it edits a revision that is no longer current |
| CaseNoteEdits.RequestAlone | backend/case_notes/routes.py:237-280 | undisturbed among any other requests, one is answered as its check decides; one that adds a note always gets its entry |
| CaseNoteEdits.EveryRun | backend/case_notes/routes.py:203-280 | from an empty table, over every interleaving: disjoint chains, every later revision by the note's author or an admin, and the lookup after the insert finds its entry |
| CaseNoteEdits.CaseNoteTable.Create | backend/case_notes/routes.py:237-280 | one undisturbed request adds its entry exactly when the check lets it proceed, a new note always; the entry is what was asked for, a current revision with its place in its note; otherwise the answer is the refusal and nothing is added |
| CasePaging.CurrentExact | backend/case_notes/routes.py:128-134 | the list holds each note of the incident once, as its current revision, in the order the notes were begun |
| CasePaging.FetchIs | backend/case_notes/routes.py:137-147 | a page holds the items past its cursor up to its next cursor, in order, at most `limit`; it has a next cursor, the key of its last item, exactly when more than `limit` lie past its own |
| CasePaging.PagesFull | backend/case_notes/routes.py:143-147 | over a whole walk every page but the last is full |
| CasePaging.PagingEnds | backend/case_notes/routes.py:137-147 | and the walk ends: however many notes come meanwhile, within as many reads as pages that would hold every entry of the last view, and one |
| CasePaging.WalkAscends | backend/case_notes/routes.py:137-147 | over all pages the keys rise: nothing is shown twice, whatever is edited or added between the reads |
| CasePaging.PagesCurrent | backend/case_notes/routes.py:128-147 | every item of the k-th page is its note's current revision in the table the k-th page was read from |
| CasePaging.PagingExact | backend/case_notes/routes.py:128-147 | paged to the end while notes are added and edited, every note of the first read is shown exactly once, in root order, each item current when its page was read |
| CaseNoteHash.SortCanonical | backend/case_notes/hashing.py:29 | sorted link lists are equal exactly when the same ids are linked, in whatever order |
| CaseNoteHash.CreatedAtIs | backend/case_notes/hashing.py:11-13 | the time as hashed, position by position, with six digits of fraction and a Z |
| CaseNoteHash.DocumentMembers | backend/case_notes/hashing.py:16-32 | which member of the hashed document holds which field, the linked ids sorted, in either version, and that there are no others |
| CaseNoteHash.ShapesDiffer | backend/case_notes/hashing.py:16-32 | a version 1 document is never a version 2 document |
| CaseNoteHash.DocumentFixesContent | backend/case_notes/hashing.py:16-32 | two documents are equal exactly when version, hashed fields and linked ids are |
| CaseNoteHash.HashFixesContent | backend/case_notes/hashing.py:16-34 | without a collision on the two contents, equal content hashes mean equal content and the other way round |
| Utf8.EncodeInjective | backend/case_notes/hashing.py:33-34 | texts with the same UTF-8 bytes are the same text |
| Utf8.EncodeCharIs | backend/case_notes/hashing.py:33-34 | a character becomes the shortest well-formed bytes of RFC 3629 that stand for its code point |
| Utf8.EncodeConcat | backend/case_notes/hashing.py:33-34 | a text is encoded character by character |
| Utf8.AsciiAsIs | backend/audit/service.py:37-38 | ASCII text, such as the escaped canonical form, is its own bytes |
| CollectionRaces.StepConserves | backend/collectors/routes.py:502-529 | reads of the ZIP, removals and the ZIP still there add up to the one there was, plus failed unlinks, at every step |
| CollectionRaces.EveryRun | backend/collectors/routes.py:317-529 | over every interleaving at await points of downloads, deletes, ingests and sweeps on stale rows that accounting holds, nothing writes generated, and the bytes are answered only after consumed was committed |
| CollectionRaces.ServedOnce | backend/collectors/routes.py:480-543 | a package's bytes are served at most once as long as no unlink after a read fails |
| CollectionRaces.ServedBound | backend/collectors/routes.py:521-526 | in general at most once more than unlinks failed |
| CollectionRaces.BoundReached | backend/collectors/routes.py:502-529 | and for every number of failed unlinks a run reaches that bound |
| CollectionRaces.NeverGeneratedAgain | backend/collectors/retention.py:97-113 | a package that left generated never returns to it |
| CollectionRaces.ConsumedFinal | backend/collectors/routes.py:480-529 | a committed consumed stays for good, as long as no delete or ingest starts, if and only if every request in flight is harmless: no download holds a copy that can still be found live from the given instant on, no sweep one it can turn, no delete or ingest is under way, and whoever is to commit writes nothing or consumed |
| CollectionRaces.ConsumedFinalOfRun | backend/collectors/routes.py:480-529 | the same condition for every package any run has consumed |
| CollectionRaces.LoserOverwrites | backend/collectors/routes.py:502-519 | a run in which it fails: the final status is expired although the bytes were served |
| CollectionRaces.DownloadAlone | backend/collectors/routes.py:480-529 | undisturbed, a download is answered with the bytes exactly when the package is effectively generated and its file can be read; the row then says consumed and the file is gone if it could be removed; a live package that cannot be read becomes expired |
| CollectionRaces.DeleteAlone | backend/collectors/routes.py:317-326 | undisturbed, a delete ends in deleted and removes a file its row knows of |
| CollectionRaces.IngestAlone | backend/collectors/routes.py:368-407 | undisturbed, an ingest is refused after an ingest or a delete, else ends in ingested and keeps the file |
| CollectionRetention.Collections.Unlink | backend/collectors/retention.py:44-60 | the file goes and the row forgets it together, or neither does; a missing file only clears the row |
| CollectionRetention.Collections.SweepOne | backend/collectors/retention.py:97-113 | what one turn of the sweep's loop does to row, files and counters |
| CollectionRetention.Collections.Sweep | backend/collectors/retention.py:88-120 | the loop over all rows, with its four counts |
| CollectionRetention.SweepShowsEffective | backend/collectors/retention.py:74-113 | the sweep sets every row's status to what effective_status said before, and changes nothing else but the path |
| CollectionRetention.SweepCounts | backend/collectors/retention.py:94-120 | the counts reported are the numbers of packages that turned expired, that turned superseded, and whose rows lost their path |
| CollectionRetention.SweepKeepsActive | backend/collectors/retention.py:88-131 | no incident gains or loses an active package by a sweep |
| CollectionRetention.SweepFilesExact | backend/collectors/retention.py:107-113 | a file is gone after the sweep exactly when its own row is reclaimable and it could be removed; no other file changes and none appears |
| CollectionRetention.SweepConservesBytes | backend/collectors/retention.py:107-120 | the bytes reported as reclaimed are exactly the bytes gone from the disk |
| CollectionRetention.SweepIdempotent | backend/collectors/retention.py:88-120 | at one instant a second sweep finds nothing to do, whatever could not be removed |
| CollectionRetention.SweepLeaves | backend/collectors/retention.py:34-113 | of each package: row and file keep each other exactly when it is live generated or ingested, or its file cannot be removed; without I/O errors nothing else keeps a file its row knows of |
| CollectionRetention.SweepAloneAgrees | backend/collectors/retention.py:97-113 | the sweep as one of the racing requests, undisturbed, does to a package what the sweep of the table does to its row |
| CollectionRetention.StaleIs | backend/collectors/retention.py:63-84 | stale is exactly: a version is configured and the package was built with another or with none; and active is exactly effectively generated |
| CollectionRetention.ActiveCountIs | backend/collectors/retention.py:123-131 | the count is the number of the incident's packages that are generated, not run out and not stale |
| CollectionRetention.GenerateExact | backend/collectors/routes.py:148-206 | a generate is refused exactly when the incident has as many active packages as the cap allows, else adds its package, active until its token runs out, with its file; either way the table is swept first |
| CollectionRetention.CapHolds | backend/collectors/routes.py:148-206 | with one request at a time and fixed settings no incident ever exceeds the cap, over any run and any time |
| Pcap.AnalyzeRawPcap | analysis-worker/worker.py:424-455 | the loop's result is the tally and the number of the packets visited, nothing for another magic number |
| Pcap.ReadsWhatWasWritten | analysis-worker/worker.py:429-445 | from a capture written in either byte order exactly its packets are visited, in order, up to 5000 |
| Pcap.CutVisitsPrefix | analysis-worker/worker.py:433-445 | of any file cut short a prefix of the packets is visited |
| Pcap.TruncationExact | analysis-worker/worker.py:433-445 | packet k of a truncated capture is visited if and only if the header and the first k records fit |
| Pcap.ByteOrder | analysis-worker/worker.py:429-436 | the two byte orders, pinned by the magic number read in its own order |
| Pcap.FrameAddresses | analysis-worker/worker.py:445-449 | of a frame built from its parts, source and destination are counted in this order exactly when it has the IPv4 type and something behind the addresses |
| Pcap.AddressesConcat | analysis-worker/worker.py:446-450 | and packet after packet |
| Pcap.CountsSumToTwice | analysis-worker/worker.py:446-450 | the counts add up to twice the IPv4 packets visited |
| Pcap.TallyCounts | analysis-worker/worker.py:446-450 | each address is counted as often as it occurs |
| Pcap.TallyKeys | analysis-worker/worker.py:446-450 | the addresses stand in the order they were first seen |
| Pcap.TopTalkersExact | analysis-worker/worker.py:451-454 | the result is the twenty busiest addresses with their true counts, ties in first-seen order, and no address left out is ahead of one listed |
| DnsMerge.RowsOfWritten | analysis-worker/worker.py:213-214 | records printed one to a line with tabs between the fields are split into what they were |
| DnsMerge.SplitFirstLine | analysis-worker/worker.py:213 | a line ends at each of the ten line ends of `str.splitlines` and nowhere else, CR LF counting as one |
| DnsMerge.AcceptedAre | analysis-worker/worker.py:215-217 | exactly the lines with four fields and a name count |
| DnsMerge.MergeRecords | analysis-worker/worker.py:213-245 | from the printed output, one entry per name in the order the names first came, each made of all the records of its name; cut at 200 |
| DnsMerge.EntryFilled | analysis-worker/worker.py:217-242 | an entry's address is the first record's if non-empty, else the first non-empty one among later answers; alias and answered name come from the first record or the answers merged until one resolved; the rest is the first record's |
| DnsMerge.EntryColumns | analysis-worker/worker.py:216-242 | an entry's time, source, query, type, answer flag, epoch and checks are those columns of its first record; its name is the query, or the answered name where there is none |
| DnsMerge.AnswerIs | analysis-worker/worker.py:218-219 | a record is an answer exactly when its eighth field, white space aside, is 1 or true in whatever case |
| DnsMerge.StripIs | analysis-worker/worker.py:219-232 | white space is taken off both ends and nowhere else |
| FirstSeen.DistinctIs | analysis-worker/worker.py:446-450 | a dictionary's keys: every item once, in the order of first occurrence |

## Left out

- HTTP routing, schemas, PDF, ZIP and signature building, Velociraptor, tshark and the other tools: I/O or libraries.
- The container codec and its staging writer are not part of this model: a container is a nonce with its bytes, or corrupt; staging files are not listed.
- Sessions, tokens of the API, incident gates, recovery and stakeholder state machines: not touched by these protocols.
- Floats, integer-keyed dictionaries and values that reach `default=str` in the canonical JSON; the parser knows no white space and no fractions.
- `write_audit`'s fall-through to the request context is folded into the event handed over, and syslog forwarding is left out.
- The list of case notes is modelled without its author and link filters, and only in its `current=true` order; the checks of links, closed incidents and scratchpads before the insert are left out, as are the bodies in `CaseNotes`.
- CaseNoteHash.HashFixesContent: years are four digits, as `strftime` writes them from the year 1000 on.
- Pcap.AnalyzeRawPcap: addresses stay the four bytes that `inet_ntoa` would write as text.
- DnsMerge.MergeRecords: `_epoch_ok` and `_suspicious_domain` are parameters; what they answer is kept in the entry.
- CollectionRaces.EveryRun: a sweep is seen through one package at a time; the cap under concurrent generates does not hold and is not claimed.
- CollectionRetention.CapHolds: covers requests one after another; building the ZIP takes no time.
- QuarantineStore.Quarantine.Leftovers: an unlink that fails there ends the run with an error; the protocol has such runs as runs cut short.
- QuarantineProtocol.RunKeeps: a reader that holds an older copy of a row across a migration is not covered.
- ExportToken.TokenOnce: the stream after the commit is not modelled; served means that the response was produced.
- A commit that happened but was reported as failed is not modelled anywhere.
