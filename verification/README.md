# Verified models of yarilo's mail tooling

Dafny 4.11 models of the parts of yarilo that move, index and edit users' mail state, with the
properties those parts are relied on for. `dafny verify dfyconfig.toml` checks the whole project.

Nothing here was executed against the Go program: every statement is a theorem about the model, and
the model follows the cited lines.

## What is modelled

**Threading sidecar.** `ThreadPlacement` is the placement of one message (hits on the identities it
answers, the subject as a fallback, merges recorded as aliases). `Conversations` gives the meaning of
a whole delivery history: an independent graph relation, the theorem that sharing a thread is being
connected in it, and what the order of the messages does to it. `SidecarLog`, `SidecarStore` and `SidecarTorn` are the append-only file: its
lines, what a reader folds from it, appends that fail half-way and appends behind the torn line they
leave, the cached state beside it, and compaction. `SidecarRebuild` is the migration tool that
rebuilds a sidecar (determinism, crash safety, the tool's loops and counters) and `SidecarProtocol`
is the same rebuild as a step system, interleaved with deliveries, IMAP moves (store, list in the new
folder, drop from the old one) and expunges under the account lock.

**Reference-store import.** `StoreImport` says what a walk over an mdbox store delivers, in order;
`StoreWalk` is the walk itself with its maps, counters and refusing visitor; `StoreExactlyOnce`
counts deliveries per stored record and `StoreOutcome` says when the walk succeeds and in which order
it delivers. `FolderLog` is the index each folder is read through: a transaction log folded over a
base that may have absorbed part of it already. `ImportWriter` is the writing side: folders, UIDs,
flags.

**ACLs.** `Acl` (rights, identifiers, the admin wire), `AclEdits` (collapsing, the three modify modes,
owner entries), `AclFile` (one folder's list as a file), `AclIndex` and `AclList` (the namespace index
as rows and as text, for every mailbox name), `AclRebuild` (what rewriting the index leaves for a
reader), `AclDrift` (the dry-run report), `AclAdmin` (set, apply, rebuild and dry run as operations on
a store) and `AclRace` (writes and any number of rebuilds interleaved, each with its folder list and
its look for the folders).

**The rest.** `UserdbClient` (the lazily dialled auth client as an interleaving system), `CliFlags`
(the argument rearranger in front of a flag parser), `ImapLines` (a response read line by line and
joined), `Envelope` and `EnvelopeStrings` (reading fields back out of an IMAP ENVELOPE in it, section
7.4.2 of RFC 3501), `DictBatch` (transaction batches and two dictionary drivers), `CommentRatchet`
(the comment census guard). `Basics`, `Order`, `Text` and `Numbers` are shared: optional values, a
stable sort, splitting, decimal and 64-bit numbers.

## Where the code does less than its documentation or its callers expect

Each of these is stated as a theorem, with the exact condition unless the line says otherwise; most
stand next to a concrete instance.

- A sidecar rebuild loses a recorded placement when an IMAP move and the walk miss each other, since a
  move takes no thread lock: the message goes behind the walk, or the walk overtakes it before its new
  folder lists it (`StepKeepsInvIff`, `MissLosesIff`, `StrayMoveLosesPlacement`,
  `OvertakenMoveLosesPlacement`).
- A rebuild places folder by folder, not in the order of delivery, so a conversation can come out in
  pieces (`SameConversationsIff`, `RebuildSeparatesReply`).
- The sidecar's reader gives up on a line of a mebibyte, which one long header value makes; no
  delivery finds a state after that (`AppendLegibleIff`, `LongSubjectUnreadable`).
- A cycle of aliases is documented as answering with the id it started from; it does so exactly when
  the bound on the steps is a whole number of laps (`CycleAnswersItselfIff`, `TwoCycleAnswersTheOther`).
- An append behind the torn line of a failed one loses its first record to that line. That record is
  the first merge, if there is one, so the membership can outlive it, which the order of the records
  is there to prevent (`AppendParses`, `MembershipShowsMergesIff`); the cached state does not notice
  (`AppendInStepIff`).
- A header value with a TAB or line break is flattened in the file but not in memory, so the two part
  (`AppendInStepIff`, `RebuiltFileInStepIff`, `CompactedInStepIff`); a record cut inside its value is
  read as a whole record (`TornMergeIsMisread`); a merged thread id dangles after compaction
  (`CompactionForgetsMergedIds`), and a message that starts a conversation under such an id is placed
  differently (`NextInvisibleIff`).
- A map entry whose offset starts no record is skipped by the store scan while the import reports
  success (`ExactlyOnce`, `DanglingEntryIsSkipped`).
- A folder log re-read over its base can reorder a message's keywords, and changes nothing else
  (`OverlapIsHarmless`, `EditTwiceReorders`); beside a base, a log that cannot be read is passed over
  and the folder read as it was (`ReadGivesFolder`).
- `acl set` with the same identifier twice writes the collapsed list to the file but the whole list
  to the index; the dry run then reports in sync while a rebuild still rewrites rows (`ReportExact`,
  `WriteShadowsIff`, `InSyncYetRebuildWritesIff`).
- The index format carries neither tabs nor line breaks in a mailbox name, nor a leading `#`. Rows of
  such a mailbox are hidden, make the index unreadable, or read back as rows of other mailboxes
  (`WriteLoads`, `ForgedRow`), so writes, reports and rebuilds mean what they should exactly for the
  other names (`UpdatedInStepIff`, `InSyncAfterRebuild`, `AllRebuildIsCompleteIff`), and a rebuild of
  named folders stays within them exactly when nothing it writes reads back outside them
  (`ScopeIsolation`, `ForgedGrant`).
- A rebuild that read an ACL file before a write and commits after it puts the old rows back
  (`EveryRace`, `LateWriteKeptIff`, `SlowRebuildOverwrites`); a rebuild of everything drops the rows of a
  folder created after it listed the namespace (`NewFolderDropped`).
- A value flag with its value missing takes the first positional (`MeansTheSameIff`,
  `TrailingFlagSwallowsUser`); a subcommand flag whose value names a global flag loses it
  (`TwoPassIsOnePassIff`).
- A lookup reaches its retry without a client exactly when another lookup's failed redial left none
  (`EveryInterleaving`, `RetryWithoutClient`), and calls a closed one exactly when that is no longer the
  published one, or is being redialled.
- The in-memory dictionary commits in place, so a refused batch can be half applied
  (`FailedInPlaceUnchangedIff`, `HalfAppliedInPlace`); the file dictionary is atomic.
- The comment baseline is documented as only ever going down; a package standing at the last whole
  thousandth of its entry or above raises it every round (`NextWrite`, `RatchetClimbs`), and an entry set
  by hand below the threshold is forgotten (`StricterEntryForgotten`).
- A mailbox counter at its 32-bit end starts over, and hands out UIDs in use exactly when it comes past
  them again (`NewUidsAscendIff`, `UidsStayDistinctIff`).
- The message-id reader does not know where a literal ends, and a quote in one can hide the id
  (`QuoteInLiteralHidesId`, `LiteralSkippedIff`). A literal with a line break loses a character to the
  joining of the lines, and takes one from what follows (`ReadsBackIff`, `BrokenLiteralReads`).

## Model

| member | source | states |
|---|---|---|
| `ThreadPlacement.ResolveAlias` | internal/userstate/threads/threads.go:169-178 | the bounded alias loop computes the function every other statement uses |
| `ThreadPlacement.ResolveSettles` | internal/userstate/threads/threads.go:169-178 | in an acyclic alias map following aliases ends at an id that is itself not an alias |
| `ThreadPlacement.CycleAnswersItselfIff` | internal/userstate/threads/threads.go:164-178 | an id on a cycle of any length is answered with itself iff the bound on the steps is a whole number of laps |
| `ThreadPlacement.TwoCycleAnswersTheOther` | internal/userstate/threads/threads.go:164-178 | two ids swallowed by each other are answered with each other |
| `ThreadPlacement.CycleKeepsApart` | internal/userstate/threads/threads.go:164-178 | the ids of a cycle are answered differently, as many answers as ids |
| `ThreadPlacement.MergeResolves` | internal/userstate/threads/threads.go:326-343 | recording a merge keeps the alias map acyclic, redirects exactly the merged threads to the survivor and moves no other id |
| `ThreadPlacement.HitsMembers` | internal/threading/thread.go:59-68 | a thread is hit exactly when some answered identity is known in it |
| `ThreadPlacement.HitsDistinct` | internal/threading/thread.go:59-68 | no thread is hit twice, however many references name it |
| `ThreadPlacement.Place` | internal/threading/thread.go:55-109 | the resolution loop with its seen-set gives the placement function |
| `ThreadPlacement.FirstKnownDecides` | internal/threading/thread.go:59-104 | of the identities a message answers the first known one decides its thread, In-Reply-To before References, its own and empty ones passed over |
| `ThreadPlacement.OtherwiseSubject` | internal/threading/thread.go:79-90 | with none known the subject decides, with no such subject the message starts a thread; neither merges anything |
| `ThreadPlacement.PlacementMergeable` | internal/userstate/threads/deliver.go:65-89 | every placement names a thread, merges only settled threads and never the survivor itself |
| `ThreadPlacement.DeliverKeepsSound` | internal/userstate/threads/deliver.go:42-56 | every delivery keeps the sidecar invariant: acyclic aliases, no empty thread names |
| `ThreadPlacement.DeliverMergesExactly` | internal/userstate/threads/deliver.go:65-89 | two thread ids come to name one conversation iff they already did or the message answers both |
| `ThreadPlacement.DeliverJoinsAnswered` | internal/threading/thread.go:70-77 | the new message lands in the conversation of every known message it answers |
| `Conversations.AfterByMessage` | internal/userstate/threads/threads.go:181-189 | after any history the state knows a Message-ID iff a message bore it, and maps it to the last bearer's thread |
| `Conversations.AfterBySubject` | internal/userstate/threads/threads.go:192-200 | the same for subjects |
| `Conversations.OldThreadsStep` | internal/threading/thread.go:55-91 | a delivery merges two earlier conversations iff the new message attaches to both |
| `Conversations.NewThreadStep` | internal/threading/thread.go:55-91 | the new message is in an earlier message's conversation iff it attaches to something in it |
| `Conversations.ConversationsAreComponents` | internal/threading/thread.go:55-109 | after any delivery history two messages share a thread iff a chain of answers and subject fallbacks connects them |
| `Conversations.SameConversationsIff` | internal/userstate/threads/deliver.go:31-39 | the same messages placed in another order fall into the same conversations iff the same pairs are connected in it |
| `Conversations.SameJoinsSameConversations` | app/yarilo-migrate/threadbackfill.go:248-284 | which holds when every message joins the same ones in both orders |
| `Conversations.ReplyMetFirst` | internal/threading/thread.go:55-109 | a reply and what it answers share a thread in that order and not in the other, unless that answers the reply or has its subject |
| `Conversations.ReplyJoinsOriginal` | internal/threading/thread.go:55-77 | in any history a reply behind the only message that bears an identity it answers is in its conversation |
| `SidecarLog.FlattenFlat` | internal/userstate/threads/threads.go:371-373 | flattening changes a value iff it holds a TAB, CR or LF |
| `SidecarLog.AppendParses` | internal/userstate/threads/threads.go:123-162 | what a reader finds after an append to any file: its whole lines, one line made of a torn tail and the first new record, and the other new records; every line is short enough for it iff those were and the new ones are |
| `SidecarLog.GluedIs` | internal/userstate/threads/threads.go:123-162 | that line is the first record itself in a complete file, a record of an unknown type behind a tail without a tab, and nothing behind one with |
| `SidecarLog.RenderParses` | internal/userstate/threads/threads.go:349-373 | a run of records appended to a complete file is found in order, flattened, and leaves the file complete, and fit to read iff no record is too long |
| `SidecarLog.FoldPlacement` | internal/userstate/threads/threads.go:123-162 | folding a placement's records is applying the placement |
| `SidecarLog.PlacementText` | internal/userstate/threads/threads.go:273-309 | the text of a placement, character by character: the merges, then Message-ID, subject and identity, tab-separated and LF-terminated |
| `SidecarLog.NothingLoads` | internal/userstate/threads/threads.go:123-162 | an empty file is an empty state |
| `SidecarLog.ReturnIsDropped` | internal/userstate/threads/threads.go:134-140 | a carriage return at the end of a line is not part of it |
| `Text.LineLegibleIff` | internal/userstate/threads/threads.go:134-135 | a line can be read iff it has at most 1048575 characters |
| `SidecarStore.LoadAfterAppend` | internal/userstate/threads/threads.go:273-343 | a fresh reader of a complete file appended to sees the old state with the flattened placement applied, and the records counted, or fails if a new line does not fit its buffer |
| `SidecarStore.LoadAfterTornAppend` | internal/userstate/threads/threads.go:273-343 | behind an unterminated line it sees the state of the whole lines with the placement less its first record, or fails likewise |
| `SidecarStore.AppendLegibleIff` | internal/userstate/threads/threads.go:134-159 | a file that can be read can be read after an append iff every line the append makes fits the buffer |
| `SidecarStore.LongSubjectUnreadable` | internal/userstate/threads/threads.go:134-159 | a subject of a mebibyte leaves a file no reader gets through |
| `SidecarStore.LoadFile` | internal/userstate/threads/threads.go:123-162 | the loop folds exactly the records of the file, or fails at a line its buffer cannot hold |
| `SidecarStore.ScanLines` | internal/userstate/threads/threads.go:134-156 | the scanning loop folds the lines before the first one that is too long, all of them iff there is none |
| `SidecarStore.AppendInStepIff` | internal/userstate/threads/threads.go:273-343 | memory and file agree after an append to any file iff no field of the placement holds a separator, every new line fits the reader, and the file was complete, or its torn line has no tab and the lost first record was known already |
| `SidecarStore.CompactionInvisible` | internal/userstate/threads/threads.go:385-457 | of a sound state, compaction changes no answer about a message, subject or identity, now or after any later run in which no message starts a conversation under a swallowed id |
| `SidecarStore.NextInvisibleIff` | internal/userstate/threads/threads.go:385-457 | and after one delivery iff that delivery does not |
| `SidecarStore.CompactionBreaksCycles` | internal/userstate/threads/threads.go:164-168 | of any state, cycles included, compaction keeps every answer and leaves no cycle |
| `SidecarStore.CompactionForgetsMergedIds` | internal/userstate/threads/threads.go:385-457 | a merged thread id resolved to its conversation before compaction and to itself after it |
| `SidecarStore.CompactedFileLoads` | internal/userstate/threads/threads.go:385-457 | the compacted file folds back to exactly the compacted state and its generation, or cannot be read if an entry is too long |
| `SidecarStore.CompactedInStepIff` | internal/userstate/threads/threads.go:385-457 | file and memory agree after a compaction iff nothing memory holds carries a separator and every entry fits the reader |
| `SidecarStore.CompactedInStep` | internal/userstate/threads/threads.go:385-457 | compacting any sound state without separators leaves a complete file in step with it iff every entry fits the reader |
| `SidecarStore.TableRecords` | internal/userstate/threads/threads.go:388-397 | one record per key, its value resolved, whatever order the map is walked in |
| `SidecarStore.CompactRecords` | internal/userstate/threads/threads.go:388-404 | the records spell exactly the compacted tables, sorted by their lines |
| `SidecarStore.LinesInOrder` | internal/userstate/threads/threads.go:385-404 | of two lines the one that is smaller as a string stands first |
| `SidecarStore.Sidecar.constructor` | internal/userstate/threads/threads.go:113-120 | an empty sidecar is in step with an empty file |
| `SidecarStore.Sidecar.Get` | internal/userstate/threads/cache.go:79-119 | the cached state while the file looks unchanged, a fresh fold otherwise; it fails iff that file cannot be read |
| `SidecarStore.Sidecar.Append` | internal/userstate/threads/threads.go:273-343 | file first, memory after; a failed write leaves any part of itself in the file and memory alone |
| `SidecarStore.Sidecar.Record` | internal/userstate/threads/deliver.go:42-56 | a delivery places from the current fold and appends exactly that placement, or fails with the file untouched when that cannot be read; memory and file stay in step exactly as `AppendInStepIff` says; after a failure the next delivery refolds if anything was written |
| `SidecarStore.Sidecar.Compact` | internal/userstate/threads/threads.go:385-457 | resolved maps under the next generation, in step iff nothing carries a separator and every entry fits; a failure changes nothing |
| `SidecarTorn.TornAppendParses` | internal/userstate/threads/threads.go:277-309 | an append cut at any byte, behind any file: its whole lines, the glued first line, the whole new lines, and what is left of the one the cut fell in; and exactly when every line of that fits the reader |
| `SidecarTorn.TornAppendKeepsMerges` | internal/userstate/threads/threads.go:277-309 | in a complete file, if a torn append shows the message at all, it shows every merge the message caused |
| `SidecarTorn.MembershipShowsMergesIff` | internal/userstate/threads/threads.go:290-309 | behind any file, at every cut that shows the membership, all merges are shown iff the file was complete, there are none, or the first is written twice |
| `SidecarTorn.MembershipShownIff` | internal/userstate/threads/threads.go:290-309 | and those cuts are exactly the ones at which a reader of a file complete before finds the membership |
| `SidecarTorn.TornMergeIsMisread` | internal/userstate/threads/threads.go:277-309 | an alias record cut inside its value is accepted as a record, with the wrong thread |
| `SidecarRebuild.RebuildDeterministic` | app/yarilo-migrate/threadbackfill.go:238-287 | permuting the folder list and the rows of folders with distinct UIDs gives the same placements, state and file |
| `SidecarRebuild.LowerUidWalkedFirst` | app/yarilo-migrate/threadbackfill.go:248-283 | of two messages of a folder the one with the lower UID is placed first, however the index lists them |
| `SidecarRebuild.EarlierFolderWalkedFirst` | app/yarilo-migrate/threadbackfill.go:238-248 | of two messages in different folders the one whose folder's name comes first as a string |
| `SidecarRebuild.TranscriptInStepIff` | app/yarilo-migrate/threadbackfill.go:238-287 | a reader of the file of any run of placements finds the state they built iff no header had to be flattened and no line is too long |
| `SidecarRebuild.RebuiltFileInStepIff` | app/yarilo-migrate/threadbackfill.go:238-287 | the same of every account that can be read |
| `SidecarRebuild.RebuildSeparatesReply` | app/yarilo-migrate/threadbackfill.go:248-284 | for any reply filed in a folder that sorts before that of what it answers: one conversation when delivered, two after a rebuild |
| `SidecarRebuild.RebuildKeepsReply` | app/yarilo-migrate/threadbackfill.go:248-284 | in any account a reply filed behind its original, in the same folder, is in its conversation after a rebuild, if no other message bears the original's Message-ID |
| `SidecarRebuild.RebuildEnds` | app/yarilo-migrate/threadbackfill.go:208-227 | a finished run installs the complete fold and leaves no working file; a dry run leaves the live file and no working file |
| `SidecarRebuild.CrashSafe` | app/yarilo-migrate/threadbackfill.go:208-227 | after any prefix of the steps the live file is the old one or the complete new one |
| `SidecarRebuild.RerunAfterCrash` | app/yarilo-migrate/threadbackfill.go:242-244 | a rerun ends the same whatever working file a crash left behind |
| `SidecarRebuild.RowCountSorted` | app/yarilo-migrate/threadbackfill.go:238-287 | sorting the folders loses and doubles no row |
| `SidecarRebuild.Backfill.ThreadRow` | app/yarilo-migrate/threadbackfill.go:273-283 | one readable row placed and appended, or a part of a failed append left |
| `SidecarRebuild.Backfill.ThreadFolder` | app/yarilo-migrate/threadbackfill.go:256-284 | one folder's loop appends its readable rows in order and counts every row once |
| `SidecarRebuild.Backfill.ThreadFolders` | app/yarilo-migrate/threadbackfill.go:238-287 | the folder loop follows the walk; it fails on an unreadable folder or a failed append |
| `SidecarRebuild.Backfill.BuildSidecar` | app/yarilo-migrate/threadbackfill.go:238-287 | a successful build is the walk of the account; placed plus unreadable equals all rows |
| `SidecarRebuild.Backfill.Finish` | app/yarilo-migrate/threadbackfill.go:208-227 | install, or removal of the working file on a dry run; with nothing placed the install fails |
| `SidecarRebuild.Backfill.ThreadUser` | app/yarilo-migrate/threadbackfill.go:151-227 | skip, build, dry run or failure, with what each leaves on disk and in all six counters; a failed run leaves the live file alone |
| `SidecarProtocol.StepKeepsInv` | app/yarilo-migrate/threadbackfill.go:151-227 | every step but a miss keeps: the live sidecar covers the owed messages, and the walk has or will reach each of them |
| `SidecarProtocol.StepKeepsInvIff` | internal/imap/server.go:4060-4145 | of all steps exactly those break that invariant by which walk and move miss each other: an owed, uncollected message is taken where the walk will not look again, or the walk opens the folder it lies in, for the last time, before it is listed there |
| `SidecarProtocol.NoLostPlacement` | app/yarilo-migrate/threadbackfill.go:117-227 | in every interleaving without such a step the live sidecar covers every recorded, stored, readable message |
| `SidecarProtocol.WithoutMovesCovered` | app/yarilo-migrate/threadbackfill.go:117-227 | with nothing moved, in every interleaving of deliveries, expunges and rebuilds under the lock |
| `SidecarProtocol.UndisturbedRebuild` | app/yarilo-migrate/threadbackfill.go:208-287 | a rebuild nothing interferes with installs exactly the readable messages listed where their files lie, or changes nothing if there are none |
| `SidecarProtocol.WalkNeverStuck` | app/yarilo-migrate/threadbackfill.go:238-287 | a walk can always go on |
| `SidecarProtocol.OnlyRecordsWait` | internal/lmtp/server.go:860-880 | only recording a placement and beginning a walk wait for the lock |
| `SidecarProtocol.MissedUntilRecovered` | app/yarilo-migrate/threadbackfill.go:238-287 | while the walk lasts a missed message stays so until exactly the step that moves it back before the walk, or expunges it |
| `SidecarProtocol.MissLosesIff` | app/yarilo-migrate/threadbackfill.go:117-227 | after every miss and any continuation without such a step, the install drops the message iff it has anything to install |
| `SidecarProtocol.StrayMoveLosesPlacement` | app/yarilo-migrate/threadbackfill.go:238-287 | a run with one stray move after which a recorded message is missing |
| `SidecarProtocol.OvertakenMoveLosesPlacement` | internal/imap/server.go:4077-4142 | a run in which the walk passes between storing a message in its new folder and listing it there |
| `SidecarProtocol.UnlockedDeliveryLosesPlacement` | internal/lmtp/server.go:870-877 | without a lock service a delivery recorded during the walk is overwritten |
| `FolderLog.ApplyLog` | internal/storage/mailbox/dboxindex/log.go:374-449 | the loop with its position map and its set of expunged uids computes the fold |
| `FolderLog.EditTwice` | internal/storage/mailbox/dboxindex/log.go:399-431 | any run of flag, keyword and extension changes read a second time over its own result leaves the message the same |
| `FolderLog.EditTwiceReorders` | internal/storage/mailbox/dboxindex/log.go:408-415 | except for the order of its keywords |
| `FolderLog.MaskReads` | internal/storage/mailbox/dboxindex/ext.go:144-163 | a mask names exactly the keywords whose bits are set, lowest bit first, in the order of the table, for every choice of bits |
| `FolderLog.MailHas` | internal/storage/mailbox/dboxindex/log.go:386-398 | a message is in the folder iff it was appended and not expunged |
| `FolderLog.MessageIs` | internal/storage/mailbox/dboxindex/log.go:386-431 | of every message there: each flag as the last change that touched it left it, or as appended; each keyword likewise, starting unset; the other data as last set |
| `FolderLog.MailInOrder` | internal/storage/mailbox/dboxindex/log.go:386-398 | messages stand in the order they were appended |
| `FolderLog.ApplyIsMail` | app/yarilo-migrate/source_dboxref.go:357-372 | a log folded from its start gives the folder its history made |
| `FolderLog.OverlapIsHarmless` | internal/storage/mailbox/dboxindex/log.go:370-449 | a base that absorbed any prefix of the history, keywords listed in any order, and a log re-read from any earlier point give the same folder but for that order |
| `FolderLog.ReadGivesFolder` | app/yarilo-migrate/source_dboxref.go:301-348 | base and log, or the log alone, read as the folder is now; a base without a readable log as it was; no index iff there is neither; and exactly which unreadable or corrupt files break the folder |
| `FolderLog.BaseMakesNoDifference` | app/yarilo-migrate/source_dboxref.go:290-296 | with no keyword set by mask a folder reads the same before and after its first base is written |
| `StoreImport.FlagNames` | app/yarilo-migrate/source_dboxref.go:72-80 | the loop lists the names of the set bits in table order; of the system table, exactly the flags the byte is the sum of |
| `StoreImport.NamesInTable` | app/yarilo-migrate/source_dboxref.go:61-80 | a flag name is reported iff its bit is set, and nothing else is reported |
| `StoreImport.FlagByteReads` | app/yarilo-migrate/source_dboxref.go:61-80 | for every choice of the five flags, and anything in the upper bits, the byte that carries them names exactly them, in this order |
| `StoreImport.ListingIsUnique` | app/yarilo-migrate/source_dboxref.go:193-197 | a set of file ids has one ascending listing, so the scan order is a function of the store |
| `StoreWalk.CollectWanted` | app/yarilo-migrate/source_dboxref.go:176-188 | whatever order the map is walked in, the wanted locations are those of the live entries no index named |
| `StoreWalk.SortedIds` | app/yarilo-migrate/source_dboxref.go:193-197 | keys gathered in any order come out as the one ascending listing |
| `StoreWalk.BuildTable` | app/yarilo-migrate/source_dboxref.go:104-107 | the map table holds the last entry of each map uid |
| `StoreWalk.Walker.BuildMessage` | app/yarilo-migrate/source_dboxref.go:374-423 | the message an index entry stands for, also from behind a damaged stretch, or a failure for a missing field, entry, file or record |
| `StoreWalk.Walker.ReadIndex` | app/yarilo-migrate/source_dboxref.go:144-154 | an index is delivered entry by entry up to the first failure; the named uids are noted and the counter follows |
| `StoreWalk.Walker.ReadFolders` | app/yarilo-migrate/source_dboxref.go:128-155 | the index branch over all folders, with both folder counters |
| `StoreWalk.Walker.ScanFile` | app/yarilo-migrate/source_dboxref.go:210-234 | a file scan delivers the wanted records in offset order, refusing one without a usable folder; a refused visit is still counted |
| `StoreWalk.Walker.ScanOne` | app/yarilo-migrate/source_dboxref.go:199-239 | a missing file or a damaged one fails, the latter after the records before the damage |
| `StoreWalk.Walker.ScanStore` | app/yarilo-migrate/source_dboxref.go:172-241 | the delivered sequence of the scan is a function of the store, the map table and the named uids alone |
| `StoreWalk.Walker.Walk` | app/yarilo-migrate/source_dboxref.go:96-158 | the walk runs its plan up to the first failure or refused visit and succeeds iff there is none; on success the counters equal the plan's totals |
| `StoreWalk.FoldersCounted` | app/yarilo-migrate/source_dboxref.go:128-142 | the two folder counters are the numbers of folders read by an index and without one |
| `StoreExactlyOnce.ExactlyOnce` | app/yarilo-migrate/source_dboxref.go:96-241 | an entry named k times is delivered k times, all by the index; unnamed and live, once by the scan iff a record starts there; unnamed and dead, never |
| `StoreExactlyOnce.IndexCounted` | app/yarilo-migrate/source_dboxref.go:144-154 | deliveries of a record by the index equal the index entries naming it |
| `StoreExactlyOnce.ScanCounted` | app/yarilo-migrate/source_dboxref.go:199-239 | the scan delivers a location once iff it is wanted and a record starts there |
| `StoreExactlyOnce.IndexTotal` | app/yarilo-migrate/source_dboxref.go:144-154 | the index counter's total is the number of index entries |
| `StoreExactlyOnce.ScanTotal` | app/yarilo-migrate/source_dboxref.go:227-227 | the record counter's total is the number of wanted locations with a record |
| `StoreExactlyOnce.NothingInvented` | app/yarilo-migrate/source_dboxref.go:214-233 | every delivered message, also of a failed walk, is a stored record with the body, folder, flags, date and GUID its index entry or record gives, the flags being those its byte is the sum of |
| `StoreExactlyOnce.DanglingEntryIsSkipped` | app/yarilo-migrate/source_dboxref.go:210-213 | a live entry at an offset no record starts at is passed over and the walk succeeds |
| `StoreOutcome.SucceedsIff` | app/yarilo-migrate/source_dboxref.go:96-241 | for every store: the walk succeeds iff no folder's index is broken, every index entry is backed by a record, and every file with a live, unnamed record is there, undamaged, and says where each such record belongs |
| `StoreOutcome.DeliveredUpTo` | app/yarilo-migrate/source_dboxref.go:144-158 | the visitor gets the deliveries before the first failure, and none past the one it refuses |
| `StoreOutcome.IndexInOrder` | app/yarilo-migrate/source_dboxref.go:128-155 | the index branch takes the folders one after the other, each entry by entry |
| `StoreOutcome.ScanInOrder` | app/yarilo-migrate/source_dboxref.go:193-239 | the scan delivers by file number and then by offset |
| `StoreOutcome.LastEntryCounts` | app/yarilo-migrate/source_dboxref.go:104-107 | of several map entries for a uid the last one counts |
| `StoreOutcome.FindIff` | app/yarilo-migrate/source_dboxref.go:374-423 | a location is found iff its file is there and a record starts there, before a break or behind it |
| `ImportWriter.SplitFlags` | app/yarilo-migrate/main.go:379-388 | the loop separates system flags from keywords, each in order |
| `ImportWriter.SplitLosesNothing` | app/yarilo-migrate/main.go:374-388 | the two lists together are the source list |
| `ImportWriter.FolderReceives` | app/yarilo-migrate/main.go:327-357 | per folder, a run appends its messages in source order under the UIDs the folder's 32-bit counter hands out one after another, and touches nothing else |
| `ImportWriter.MessageArrives` | app/yarilo-migrate/main.go:327-388 | every message of a run ends up in its folder with body, date and GUID unaltered, its flags split by their leading backslash, behind what was there and the run's earlier ones, under the next UID, from one in a new folder |
| `ImportWriter.NewUidsAscendIff` | internal/storage/index/file/folder.go:1033-1048 | of any box: every new UID is above every earlier one of its folder iff there are no new ones, or the counter is above those in use and has room |
| `ImportWriter.UidsStayDistinctIff` | internal/storage/index/file/folder.go:1033-1048 | of any box: no UID is in use twice iff none was, and the counter neither comes full circle nor past one that a message holds |
| `ImportWriter.Migration.CreateFolder` | app/yarilo-migrate/main.go:305-310 | a folder is created at most once per run and INBOX never; it fails iff the backend call does |
| `ImportWriter.Migration.OpenFolder` | app/yarilo-migrate/main.go:311-319 | opening a folder changes no mail; it fails iff the backend call does |
| `ImportWriter.Migration.AllocateUID` | internal/storage/index/file/folder.go:1033-1048 | the assigned UID and the stepped, wrapping counter |
| `ImportWriter.Migration.Write` | app/yarilo-migrate/main.go:327-355 | allocate, save, name, append: the message is appended, or only a UID is spent |
| `ImportWriter.Migration.Visit` | app/yarilo-migrate/main.go:298-358 | one message written, or only counted on a dry run; each folder opened once; it fails iff one of its backend calls does, and then adds no mail |
| `ImportWriter.Migration.CreateListed` | app/yarilo-migrate/main.go:278-296 | every listed folder is created and opened, empty ones too |
| `ImportWriter.Migration.VisitAll` | app/yarilo-migrate/main.go:298-363 | a run leaves the mail of exactly its first `migrated` messages and fails iff a backend call does; a dry run leaves every box and allocates nothing |
| `ImportWriter.Migration.Run` | app/yarilo-migrate/main.go:260-363 | both phases together, for every outcome; it succeeds iff the walk did and no backend call failed |
| `Acl.ParseRights` | pkg/mailbox/acl.go:80-103 | the loops give the canonical form, or refuse an unknown letter |
| `Acl.NormalIsCanonical` | pkg/mailbox/acl.go:64-103 | parsing parsed rights changes nothing |
| `Acl.NormalLetters` | pkg/mailbox/acl.go:80-103 | canonical rights hold exactly the letters the input stands for, none obsolete |
| `Acl.RightsLetters` | pkg/mailbox/acl.go:64-103 | the eleven letters by themselves, what the two obsolete ones stand for, and every other refused |
| `Acl.NormalInOrder` | pkg/mailbox/acl.go:80-103 | canonical rights stand in one order, none twice |
| `Acl.ParseText` | pkg/mailbox/acl.go:199-249 | an identifier reads back from its text iff it is valid |
| `Acl.ParseIsValid` | pkg/mailbox/acl.go:199-228 | whatever parses is valid, and is its own text but for the `anonymous` spelling |
| `Acl.ValidUserIff` | pkg/mailbox/acl.go:171-196 | a user name is valid iff it has 1 to 1019 characters, none of them a control |
| `Acl.ParseAdminText` | internal/backendapi/acl.go:740-756 | the admin reader takes back exactly the valid identifiers |
| `Acl.BareNameIsUser` | internal/backendapi/acl.go:740-756 | a bare name that is no keyword and has no prefix is the user of that name, if valid |
| `Acl.ToWire` | internal/backendapi/acl.go:695-709 | the encoding loop |
| `Acl.FromWire` | internal/backendapi/acl.go:711-735 | the decoding loop with its sign handling and its errors |
| `Acl.WireRoundTrip` | internal/backendapi/acl.go:695-756 | decoding the encoding gives the same ACL, negatives included, iff every entry is valid |
| `Acl.SignEitherWay` | internal/backendapi/acl.go:711-735 | an entry is negative if the wire says so or its identifier is signed |
| `Acl.DecodeIsValid` | internal/backendapi/acl.go:711-735 | whatever decodes is a valid ACL |
| `AclEdits.Collapse` | pkg/mailbox/acl.go:420-440 | one entry per key: the first one's position, the last one's rights |
| `AclEdits.CollapseKeepsLookup` | pkg/mailbox/acl.go:396-440 | collapsing changes what no key is granted |
| `AclEdits.CollapseStable` | pkg/mailbox/acl.go:420-440 | a list without duplicates is left as it is |
| `AclFile.Unquote` | pkg/mailbox/acl.go:316-342 | the unquoting loop with its escapes and its three errors |
| `AclFile.LineReadsBackIff` | pkg/mailbox/acl.go:267-359 | an entry reads back from its line, with its sign, blanks, quotes and backslashes in its name and with no rights, iff it is valid |
| `AclFile.ReadIsValid` | pkg/mailbox/acl.go:267-309 | whatever a line gives is a valid entry |
| `AclFile.Read` | pkg/mailbox/acl.go:374-396 | the reading loop: comments skipped, the first bad or overlong line fatal, duplicates collapsed |
| `AclFile.ReadsBackCollapsed` | pkg/mailbox/acl.go:374-461 | any valid list written line by line reads back collapsed |
| `AclFile.EntriesInOrder` | pkg/mailbox/acl.go:649-666 | entries are written by kind, then by name, the positive before the negative |
| `AclFile.CommentReads` | pkg/mailbox/acl.go:267-271 | white space and comments say nothing |
| `AclFile.BadQuotesRefused` | pkg/mailbox/acl.go:316-342 | an unclosed quote, a bare backslash at the end, and anything but a blank behind the quote are refused |
| `AclFile.BadFieldsRefused` | pkg/mailbox/acl.go:292-303 | a third field and a missing identifier are refused |
| `AclFile.FirstFieldIs` | pkg/mailbox/acl.go:348-359 | a name is quoted iff it holds a blank, a quote or a backslash |
| `AclFile.StoredReadsBackIff` | internal/userstate/acl/acl.go:485-517 | a stored list reads back sorted, one entry per key, granting every key what the caller's list did, iff the entries that count are valid |
| `AclEdits.ApplyEntry` | pkg/mailbox/aclmodify.go:29-66 | the named key changes as its mode says, every other key keeps its rights, and no duplicates arise |
| `AclEdits.AcceptedApplies` | pkg/mailbox/aclmodify.go:29-66 | what every accepted request comes to, letter by letter and from its mode word: add, remove, replace; when the entry is gone; and no other key changed |
| `AclEdits.UnionLetters` | pkg/mailbox/acl.go:129-133 | adding gives canonical rights with the letters of both |
| `AclEdits.MinusMembers` | pkg/mailbox/acl.go:135-145 | removing leaves the letters not removed |
| `AclEdits.MinusCanonical` | pkg/mailbox/acl.go:135-145 | and canonical rights stay canonical |
| `AclEdits.StepNeverGains` | internal/backendapi/acl.go:136-235 | no set or apply request adds an entry naming the owner or widens one |
| `AclEdits.OwnerImmutable` | internal/backendapi/acl.go:136-235 | the same over every run of requests, from any ACL |
| `AclEdits.OwnerRefused` | internal/backendapi/acl.go:189-207 | who the owner is, by keyword and by name, signed or not; which requests are refused for it and which are not |
| `AclEdits.SetAcceptedIff` | internal/backendapi/acl.go:136-163 | a list is accepted iff no entry of it names the owner |
| `AclEdits.OwnerCanBeCleared` | internal/backendapi/acl.go:198-207 | replace-with-nothing, and removal of at least its rights, are accepted and clear an owner entry |
| `AclRebuild.CollectedRights` | internal/userstate/acl/acllist.go:220-237 | the collected rows grant what the files of the named folders grant, and nothing elsewhere |
| `AclRebuild.DueIs` | internal/backendapi/acl.go:282-300 | the root, and a folder that is there, count with what their file says; one that is gone, or has no file, with nothing |
| `AclRebuild.CollectFailsIff` | internal/userstate/acl/acllist.go:220-237 | collecting fails iff the root or a folder that is there has a corrupt file |
| `AclRebuild.RebuiltFailsIff` | internal/userstate/acl/acllist.go:178-216 | a rebuild fails iff that does, or, for named folders, the index cannot be read |
| `AclRebuild.RebuiltRights` | internal/userstate/acl/acllist.go:178-216 | wherever the collected rows read back as themselves: inside its scope a rebuilt index grants what the files do, outside it what it did |
| `AclRebuild.RebuiltReadable` | internal/userstate/acl/acllist.go:178-216 | a rebuilt index can be read iff every row collected can be read back |
| `AclList.LineReadsBack` | internal/userstate/acl/acllist.go:264-298 | a row's line reads back as the row, is skipped under a name starting with `#`, and is malformed under a name with a tab |
| `AclList.LineFits` | internal/userstate/acl/acllist.go:263-264 | under a name a path can hold, a row's line is far shorter than the reader's buffer |
| `AclList.RenderReads` | internal/userstate/acl/acllist.go:252-300 | for any rows, names with line breaks included, loading the text gives what each row reads back as, in order, or fails if one does |
| `AclList.ReadsBackIffClean` | internal/userstate/acl/acllist.go:264-298 | a row reads back as itself iff its name is shown and holds no tab and no line break |
| `AclList.ReadsBackNothingIff` | internal/userstate/acl/acllist.go:264-298 | and as nothing iff every line its name makes is blank or a comment |
| `AclList.LoadedClean` | internal/userstate/acl/acllist.go:252-300 | whatever a file holds, every row loaded from it has a name the format carries |
| `AclList.WriteLoads` | internal/userstate/acl/acllist.go:252-365 | for any names: loading a written index gives its shown rows in sorted order iff each name is carried, or hidden and silent |
| `AclList.RowsInOrder` | internal/userstate/acl/acllist.go:307-320 | rows are written by mailbox, then by identifier, the positive before the negative |
| `AclList.ForgedRow` | internal/userstate/acl/acllist.go:252-365 | a name that spells another row's line reads back as that row |
| `AclList.SameRowsSameFile` | internal/userstate/acl/acllist.go:303-320 | writing the same rows in any order gives byte-identical files, if no key is granted twice differently |
| `AclDrift.PatchRepairs` | internal/backendapi/acl.go:401-441 | the reported rows applied to the present rows give the due rows |
| `AclDrift.ListsDisjoint` | internal/backendapi/acl.go:402-420 | no identifier is in two of the three lists |
| `AclDrift.InSyncIff` | internal/backendapi/acl.go:338-447 | the report is in sync iff index and files grant the same everywhere in scope |
| `AclDrift.InSyncAsFiled` | internal/backendapi/acl.go:338-447 | told by the files alone: a report on named folders is in sync iff the index grants each what its file does, the root included; one on everything iff, besides, no other mailbox has a row that counts |
| `AclDrift.ReportPatchesToRebuilt` | internal/backendapi/acl.go:253-447 | patching every mailbox in scope with its report gives exactly its rows after the rebuild iff the format carries every name the rebuild reads |
| `AclDrift.ReportExact` | internal/backendapi/acl.go:253-447 | the report is in sync and no row in scope is shadowed by a later one of its key iff the rebuild can write every folder it reads and changes no row |
| `AclDrift.InSyncAfterRebuild` | internal/backendapi/acl.go:253-447 | right after a rebuild the report is in sync iff the format carries the name of every folder it read an ACL from |
| `AclDrift.ReportFailsWithRebuild` | internal/backendapi/acl.go:354-365 | the report fails on exactly the files the rebuild fails on |
| `AclAdmin.UpdatedInStepIff` | internal/userstate/acl/acl.go:422-466 | after a write the index can be read, file and index grant the same for the folder and no other mailbox changed iff nothing was written or the format carries the name |
| `AclAdmin.WriteShadowsIff` | internal/userstate/acl/acllist.go:105-122 | a write leaves shadowed rows iff its list grants one key twice, differently, under a name that is carried |
| `AclAdmin.InSyncYetRebuildWritesIff` | internal/backendapi/acl.go:136-163 | the report is in sync and the rebuild still changes rows after exactly such a write |
| `AclAdmin.SubsetRebuildIsolatedIff` | internal/userstate/acl/acllist.go:178-201 | a named-subset rebuild keeps every row and right of another mailbox iff nothing it writes reads back as one of its rows |
| `AclAdmin.ScopeIsolation` | internal/backendapi/acl.go:282-313 | the same over every sequence of such rebuilds |
| `AclAdmin.WritableIsQuiet` | internal/backendapi/acl.go:282-313 | which every rebuild of folders with carried names meets |
| `AclAdmin.ForgedGrant` | internal/backendapi/acl.go:282-313 | a folder name that spells another mailbox's row puts that row into the index |
| `AclAdmin.AllRebuildIsCompleteIff` | internal/backendapi/acl.go:544-590 | an all-rebuild leaves rows for the root and the enumerated folders only, each granted what its file grants, iff the format carries every name it reads an ACL from |
| `AclAdmin.Namespace.Update` | internal/userstate/acl/acl.go:422-466 | file collapsed, index given the list as it came; an unreadable index fails the call after the file is written |
| `AclAdmin.Namespace.Set` | internal/backendapi/acl.go:136-163 | refused iff it does not decode or names an owner, changing nothing; stored iff accepted and the index can be read |
| `AclAdmin.Modify` | internal/backendapi/acl.go:165-219 | a request refused or applied: exactly when, and letter by letter what it leaves |
| `AclAdmin.Namespace.Apply` | internal/backendapi/acl.go:165-219 | refused under exactly the documented conditions; otherwise each letter of the named key as its mode word says and no other key changed; a corrupt file counts as empty; files stay valid and without duplicates; stored iff the index can be read |
| `AclAdmin.Namespace.CollectRows` | internal/userstate/acl/acllist.go:220-237 | the rows of the folders in order, or nothing when a file is unreadable |
| `AclAdmin.Namespace.Rebuild` | internal/backendapi/acl.go:253-331 | both or neither of names and `all` is refused; `all` is the root and every listed folder, and leaves an index complete iff the format carries their names; names are merged; an unreadable file or an unreadable index to merge into leave the index alone |
| `AclAdmin.ReadDue` | internal/backendapi/acl.go:351-370 | the table of what the files grant, folder by folder |
| `AclAdmin.ReadIndex` | internal/backendapi/acl.go:372-387 | the table of what the index grants in scope |
| `AclAdmin.Compare` | internal/backendapi/acl.go:402-420 | the three lists of one folder, whatever order the maps are walked in |
| `AclAdmin.DryRun` | internal/backendapi/acl.go:338-447 | the loops compute exactly the report the statements above are about, failing on an unreadable file or index |
| `AclRace.StepKeepsInv` | internal/userstate/acl/acllist.go:178-201 | what every step of writes and any number of rebuilds side by side keeps: index and file of a folder part exactly at the stale ones |
| `AclRace.StaleOnlyIfChanged` | internal/backendapi/acl.go:544-590 | a folder goes stale only by the commit of a rebuild that covers it and began before its file was last written: read too early, looked for before it was there, or not there to be listed |
| `AclRace.RebuildProceedsIff` | internal/userstate/acl/acl.go:518-536 | a rebuild goes on iff it has looked for every folder and the next one it found is not being written |
| `AclRace.AbandonLosesNothing` | internal/userstate/acl/acllist.go:178-182 | a rebuild can be given up at any time, and nothing but itself is gone |
| `AclRace.EveryRace` | internal/userstate/acl/acl.go:422-466 | after any interleaving, index and file of a folder grant the same iff the last to put down its rows was no rebuild that had otherwise for it |
| `AclRace.LateWriteKeptIff` | internal/userstate/acl/acllist.go:178-216 | for every state, rebuild and folder it covers: a write between its last read and its commit is kept in the index iff it grants what the rebuild has |
| `AclRace.NewFolderDropped` | internal/backendapi/acl.go:544-590 | so a folder created after a rebuild of everything listed the namespace, or after one by name looked for it, loses its rows at the commit, unless it has none |
| `AclRace.SlowRebuildOverwrites` | internal/userstate/acl/acllist.go:178-201 | for every folder and list, a write between a rebuild's read and its commit is undone in the index, unless it granted nothing new |
| `UserdbClient.StepKeepsInv` | internal/backend/backend.go:1085-1125 | what every step of every lookup keeps |
| `UserdbClient.EveryInterleaving` | internal/backend/backend.go:1085-1125 | mutex free means open clients are the published one or none; no double close; at most two dials per lookup; every call is to the client published last when the lookup took it; a lookup calls a closed client iff that is no longer the published one, or is being redialled; a retry never uses the failed client, and lacks one iff another lookup's failed redial was the last thing to happen to the shared client since it took its own |
| `UserdbClient.SuccessEnds` | internal/backend/backend.go:1100-1123 | in every run a call that succeeds ends its lookup, leaves mutex, published client, closed clients and dials as they were, and the lookup has dialled at most once, then and for good |
| `UserdbClient.SuccessClosesNothing` | internal/backend/backend.go:1101-1122 | and such a lookup closes and redials nothing, before or after |
| `UserdbClient.OnlyAfterFailure` | internal/backend/backend.go:1101-1122 | in every run a lookup reviews, closes, redials or retries only after its own first call failed |
| `UserdbClient.NeverStuck` | internal/backend/backend.go:1085-1125 | no lookup waits but for the mutex, and every dial and call may turn out either way |
| `UserdbClient.HolderInside` | internal/backend/backend.go:1089-1120 | and whoever holds the mutex is not done, so can go on |
| `UserdbClient.EveryLookupEnds` | internal/backend/backend.go:1085-1125 | no lookup takes more than seven steps |
| `UserdbClient.RetryWithoutClient` | internal/backend/backend.go:1099-1117 | a run of two lookups that reaches a retry with no client |
| `CliFlags.Rearrange` | app/yarctl/flags.go:17-40 | the index loop computes the scan: flags with their values, and the rest |
| `CliFlags.FlagTokens` | app/yarctl/flags.go:74-91 | a registered flag, with one dash or two, alone and with a value attached, as scan and parser see it |
| `CliFlags.OtherTokens` | app/yarctl/flags.go:74-91 | a token without a dash, a lone dash and an unregistered name are no flags |
| `CliFlags.AnywhereOnTheLine` | app/yarctl/flags.go:17-40 | a flag with its value between two arguments is set and the arguments left in order, with all behind a terminator |
| `CliFlags.Permutes` | app/yarctl/flags.go:17-69 | the rearranged line is a permutation of the line |
| `CliFlags.NothingLeftToTake` | app/yarctl/flags.go:51-69 | a second extraction from what was left finds nothing |
| `CliFlags.TokenFits` | app/yarctl/flags.go:74-91 | for every flag set of non-empty names registration allows, scan and parser see the same flag in a token |
| `CliFlags.AlwaysCompatible` | app/yarctl/flags.go:74-91 | the same for all tokens at once |
| `CliFlags.RearrangedMeansTheSame` | app/yarctl/flags.go:17-40 | with no value missing, parsing the rearranged line gives the interleaved reading: the same settings in order, the other tokens in order, the same refusals |
| `CliFlags.MissingValueTakesPositional` | app/yarctl/flags.go:27-35 | with a value missing, the flag reads the first positional in its place |
| `CliFlags.IdealRefusedIff` | app/yarctl/flags.go:17-40 | the interleaved reading is refused iff one of its flags is unknown, lacks its value or is given one it does not accept |
| `CliFlags.ParseRefusedIff` | app/yarctl/flags.go:39-39 | the same of a line read by the standard parser |
| `CliFlags.MeansTheSameIff` | app/yarctl/flags.go:17-40 | the two readings agree iff no value is missing, or a flag is bad anyway: one of the line, or one read once the value is taken from the positionals |
| `CliFlags.TwoPassIsOnePassIff` | app/yarctl/flags.go:42-69 | pulling the global flags out first and the subcommand's after gives the left-to-right reading iff no value of a subcommand flag names a global flag |
| `CliFlags.RegistriesDisjoint` | app/yarctl/flags.go:46-50 | which holds of any two registries that share no name |
| `CliFlags.TrailingFlagSwallowsUser` | app/yarctl/flags.go:17-40 | `u1 --ns` sets the flag to `u1` and leaves no positional |
| `ImapLines.ReadReply` | app/smoketest/sieve.go:235-266 | the loop returns the lines before the first tagged one, with the answer if that is not OK, or fails iff there is none |
| `ImapLines.ReplyIsWholeIff` | app/smoketest/sieve.go:252-265 | the whole response is read iff none of its lines passes for the answer |
| `ImapLines.TaggedIs` | app/smoketest/sieve.go:257-262 | a tag and a space make the answer, whatever follows |
| `ImapLines.JoinedIsLined` | app/smoketest/sieve.go:252-265 | reading a response line by line and joining is a character-by-character map of it |
| `Envelope.FindEnd` | app/smoketest/consistency_messageid.go:109-135 | the byte loop with depth and quotes computes the scan |
| `Envelope.SkippedIffNeutral` | app/smoketest/consistency_messageid.go:116-135 | the scan passes over a text, whatever follows it, iff the text on its own brings it back, unstopped, to the depth it had and out of quotes |
| `Envelope.LiteralSkippedIff` | app/smoketest/consistency_messageid.go:98-135 | for a literal: iff its text as the joined lines show it does |
| `Envelope.SkipNode` | app/smoketest/consistency_messageid.go:98-135 | over any rendered field, however nested, whose literals are neutral, the scan neither stops nor changes depth |
| `Envelope.LiteralFreeTame` | app/smoketest/consistency_messageid.go:98-135 | which every field without literals is, whatever its strings hold |
| `Envelope.ScanStopsAtOwnParen` | app/smoketest/consistency_messageid.go:102-135 | the scan stops at the envelope's own closing parenthesis |
| `Envelope.MessageID` | app/smoketest/consistency_messageid.go:109-145 | the reader is the scan, the last field and the trimming, empty when there is no envelope |
| `Text.SpacesAre` | app/smoketest/consistency_messageid.go:138-138 | the characters that separate fields, one by one |
| `Envelope.MessageIdReadsBackIff` | app/smoketest/consistency_messageid.go:109-145 | a quoted id comes back iff it has no white space, quote or backslash |
| `Envelope.LiteralIdReadsBackIff` | app/smoketest/consistency_messageid.go:136-145 | an id sent as a literal comes back iff it is not empty and has no white space and no quote at either end |
| `Envelope.SeenAsShown` | app/smoketest/sieve.go:252-265 | what is sent is seen, through the joined lines, as the form the statements above are about |
| `Envelope.IdFromWire` | app/smoketest/consistency_messageid.go:109-145 | so the id read from a response is the one read from that form |
| `Envelope.NilIdReadsNil` | app/smoketest/consistency_messageid.go:142-144 | an absent id reads as NIL |
| `Envelope.QuoteInLiteralHidesId` | app/smoketest/consistency_messageid.go:116-135 | a lone quote in a literal takes the scan past the envelope, and no id is read |
| `Envelope.RestOfResponse` | app/smoketest/consistency_messageid.go:110-114 | the scan starts right behind the first opening, whatever comes before it |
| `Envelope.IndexOfIs` | app/smoketest/consistency_messageid.go:110-114 | the search finds the first occurrence, or nothing iff there is none |
| `EnvelopeStrings.ReadQuoted` | app/smoketest/consistency_identity.go:259-275 | the unescaping loop |
| `EnvelopeStrings.QuotedReads` | app/smoketest/consistency_identity.go:256-275 | a quoted string gives back its text and the remainder, as the joined lines have them |
| `EnvelopeStrings.LiteralReads` | app/smoketest/consistency_identity.go:241-255 | a literal, whatever it holds, is cut from the joined lines by its announced length |
| `EnvelopeStrings.ReadsBackIff` | app/smoketest/consistency_identity.go:236-275 | for every string, form and remainder: reading gives back both exactly iff the text holds no line feed |
| `EnvelopeStrings.BrokenLiteralReads` | app/smoketest/consistency_identity.go:246-252 | a literal with a line break reads with a space for it and a character of what follows |
| `EnvelopeStrings.RemainderAfter` | app/smoketest/consistency_identity.go:236-275 | what any string leaves for the next reader: the remainder, less the characters its line breaks lost |
| `EnvelopeStrings.SubjectIsSecondFieldIff` | app/smoketest/consistency_identity.go:217-227 | the subject reader returns the second field iff that holds no line feed, whatever the date holds that costs no more than the separator |
| `EnvelopeStrings.SubjectReadLate` | app/smoketest/consistency_identity.go:217-227 | behind any other date the reader starts that much later |
| `EnvelopeStrings.UnclosedReads` | app/smoketest/consistency_identity.go:256-275 | a quoted string that is not closed runs to the end |
| `EnvelopeStrings.NoStringReads` | app/smoketest/consistency_identity.go:253-258 | what starts like no string gives nothing and is left as it is |
| `EnvelopeStrings.BadLiteralReads` | app/smoketest/consistency_identity.go:241-255 | so does a brace that is not closed or holds no number |
| `EnvelopeStrings.ShortLiteralReads` | app/smoketest/consistency_identity.go:246-252 | a literal that promises more than there is gives what there is |
| `DictBatch.KeysAreIndependent` | pkg/dict/file/file.go:378-400 | what a batch leaves under a key is what the operations on that key alone make of it |
| `DictBatch.IncrementReadsBack` | pkg/dict/memory/memory.go:267-280 | an increment leaves a number that reads back as the wrapping 64-bit sum |
| `Numbers.RangeEnds` | pkg/dict/memory/memory.go:267-280 | the ends of the 64-bit range, the sums one step past them, and signs |
| `DictBatch.Dict.CommitInPlace` | pkg/dict/memory/memory.go:240-284 | the rows reached when it stops; OK iff every operation applied |
| `DictBatch.Dict.CommitCopy` | pkg/dict/file/file.go:354-410 | all operations or none, also when the file cannot be loaded or the flush fails |
| `DictBatch.NetIs` | pkg/dict/memory/memory.go:260-284 | what a key's operations leave: its last set or unset and the wrapped 64-bit sum of the increments behind it |
| `DictBatch.NetOn` | pkg/dict/memory/memory.go:260-284 | of any batch that applied, every key holds the net effect of its own operations |
| `DictBatch.AppliesIff` | pkg/dict/memory/memory.go:260-284 | a batch applies iff every increment in it finds a number in the net effect before it |
| `DictBatch.FailureIs` | pkg/dict/memory/memory.go:267-280 | the first increment that does not decides the answer: nothing there, or no number |
| `DictBatch.FailedInPlaceUnchangedIff` | pkg/dict/memory/memory.go:260-284 | any refused batch leaves the rows alone iff the net effect on each key of the operations before the failing one is what was there |
| `DictBatch.HalfAppliedInPlace` | pkg/dict/memory/memory.go:260-284 | a refused batch that leaves its first write |
| `DictBatch.Tx.Add` | pkg/dict/memory/memory.go:209-231 | operations are buffered until the transaction is finalised |
| `DictBatch.Tx.Rollback` | pkg/dict/memory/memory.go:233-237 | finalises once, dropping the buffer |
| `DictBatch.Tx.Commit` | pkg/dict/memory/memory.go:239-284 | finalises once, with the driver's outcome |
| `DictBatch.ReadAllIff` | internal/backendapi/dict.go:334-370 | a batch is read as these operations iff it spells them, in any case, each with a key and its value or delta; otherwise it is refused |
| `DictBatch.CommitBatch` | internal/backendapi/dict.go:312-380 | every begun transaction ends exactly once; an unreadable batch changes nothing; a committed one is its operations applied left to right |
| `DictBatch.RunSingle` | internal/backendapi/dict.go:248-267 | one operation applied or nothing changed, on either driver, with the transaction ended exactly once |
| `CommentRatchet.Check` | hack/commentcensus/main.go:334-362 | passes iff of every package with code no more lines are in blocks than its limit and the tolerance allow of its lines |
| `CommentRatchet.WriteBaseline` | hack/commentcensus/main.go:381-395 | the loop writes the packages over the threshold, rounded up |
| `CommentRatchet.EntryIs` | hack/commentcensus/main.go:315-399 | a package has an entry iff more than the threshold of its lines is in blocks, and the entry is the next whole thousandth above its share |
| `CommentRatchet.RoundUpBounds` | hack/commentcensus/main.go:397-399 | rounding up adds something, and at most a thousandth |
| `CommentRatchet.WriteThenCheckPasses` | hack/commentcensus/main.go:334-399 | checking the census a baseline was written from passes |
| `CommentRatchet.NextWrite` | hack/commentcensus/main.go:322-399 | after a passing check the next write admits no package beyond the tolerance; an entry, whole thousandths or not, rises iff its package stands at its last whole thousandth or above, by at most a thousandth and the tolerance, and by exactly a thousandth if it is whole |
| `CommentRatchet.RatchetBound` | hack/commentcensus/main.go:322-399 | from any baseline with no entry under the threshold, over n rounds no limit rises by more than n thousandths and tolerances |
| `CommentRatchet.RoundUpPastIff` | hack/commentcensus/main.go:397-399 | a share rounds up past an entry iff it reaches the entry's last whole thousandth |
| `CommentRatchet.StricterEntryForgotten` | hack/commentcensus/main.go:381-395 | an entry under the threshold is dropped by the next write, and its package's limit is the threshold again |
| `CommentRatchet.RatchetClimbs` | hack/commentcensus/main.go:322-332 | n rounds that raise an entry by exactly n thousandths |

## Left out

- SidecarProtocol.NoLostPlacement: holds of runs in which walk and moves do not miss each other; with a miss it is false, `StepKeepsInvIff` says which steps those are and `MissLosesIff` what each costs.
- SidecarProtocol.StepKeepsInv: the lock is mutual exclusion; its time to live, renewal and timeouts are not modelled, nor folder renames and deletions other than as moves and expunges, nor the undoing of a move whose listing fails.
- StoreExactlyOnce.ExactlyOnce: assumes that no two map entries share a location and that a file's records stand in offset order, as the store format has it.
- StoreWalk.Walker.Walk: the counters are always asked for, and the cache of open storage files is left out, as it changes no result.
- FolderLog.OverlapIsHarmless: for histories in which a uid is new when a message is appended under it, as section 2.3.1.1 of RFC 3501 demands; the byte formats of index, log and map are not modelled, nor the header values the log carries.
- FolderLog.BaseMakesNoDifference: one way; keywords set by mask resolve against the base's table of names only.
- ImportWriter.Migration.Run: a GUID the driver would mint, stored file names and sizes are not modelled; Unicode normalisation is any function; a failing backend call changes nothing.
- SidecarStore.Sidecar.Record: the in-step clause is for files whose fields hold no carriage return, which no writer produces; modification times are a parameter.
- SidecarStore.CompactionInvisible: for sound states and runs in which no message starts a conversation under a swallowed id; one way for runs, and `NextInvisibleIff` both ways for one delivery.
- SidecarStore.Sidecar.Compact: the changes-since query over positions and generations is not modelled.
- SidecarRebuild.RebuildDeterministic: for folders whose UIDs are distinct, as the index guarantees.
- Acl.ParseText: identifiers are byte strings; UTF-8 validity is not modelled.
- AclAdmin.Namespace.Set: the ACL file is a value here, in the order of its collapsed list; `AclFile` has its text and its order. The read cache and the owner registry are not modelled; folder locks are the subject of `AclRace`.
- AclList.WriteLoads: the reader also refuses a line of a mebibyte; no folder name makes one, being a path on disk (`LineFits`).
- AclDrift.ReportExact: rows are compared as a set, so the number of identical rows is not part of it.
- AclRace.EveryRace: for folder names the index format carries and files that can be read; folders are created but not deleted or renamed.
- DictBatch.CommitBatch: contexts, the clock, lookups, the SQL and Redis drivers are not modelled.
- Envelope.SkipNode: for literals that are neutral; `SkippedIffNeutral` says exactly which are, for whatever follows.
- EnvelopeStrings.SubjectIsSecondFieldIff: for dates whose line breaks cost at most one character; `SubjectReadLate` says what is read behind the others.
- EnvelopeStrings.LiteralReads: the range of a literal's announced length is unbounded.
- CommentRatchet.NextWrite: shares are exact reals; floating-point rounding is not modelled.
- CommentRatchet.RatchetBound: for baselines with no entry under the threshold, as every write leaves them; `StricterEntryForgotten` is the other case.
- CliFlags.Rearrange: the help flag is a refusal like any other unknown one, and flag values are accepted or refused by an arbitrary predicate.
- UserdbClient.EveryInterleaving: what a lookup returns, contexts and logging are not modelled.
- Subject normalisation and header parsing: a message arrives with its identities and subject key.
- HTTP decoding, status codes, JSON, metrics and logging of every handler.
- Rights evaluation (effective rights, inheritance, listing by right), ACL rename and remove.
- Daemons, listeners, TLS, login, director and lock services, and the remaining command-line clients: wiring around the logic above.
