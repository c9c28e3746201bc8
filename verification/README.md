# A verification model of the htmllelujah deck editor

The editor keeps one deck document consistent in four places at once: between the peers of a
collaboration session, between the undo history and the recovery files of a document session,
between the processes that write one shared file, and between the parts of the document itself.
This project models that logic in Dafny and proves what it promises.

* **Collaboration host** (`Access`, `AccessKeys`, `HostLog`, `HostTheorems`, `HostIndex`, `Host`). The host is a
  class over a bounded tail, a pruned index of last writes and a bounded idempotency window. A ghost field holds
  the full commit log; `Valid()` ties every bounded structure to it, and `Submit` is proved to decide what
  the full log calls for. Over the log: an identical request is never committed twice, first committer wins,
  resync converges.
* **Rebase** (`LocalEdits`, `ParsedDeck`, `Rebase`, `HostRebase`). The in-place commands are executed on the
  element tree, and an accepted stale batch is proved to leave in everything it touches what it would have left
  at its base. Parsing trims names and stamps connectors; `ParsedDeck` says which documents it leaves alone and
  that in-place commands keep them so.
* **Document session** (`History`, `Journal`, `Recovery`, `Session`, `Witnesses`). A class with undo and redo
  stacks and the bytes of its recovery files. Appends may fail behind any byte and rotations behind any file. A ghost
  ledger says what was acknowledged; recovery is proved to return exactly that, or that and one more record.
* **Private storage** (`Storage`). A directory class whose file-system calls proceed, fail or crash as an
  arbitrary script says; generation-based writes and the startup reconciliation, over whole process lives.
* **Writer lease** (`WriterLease`, `LeaseTheorems`). A state machine over the file-system calls of any number
  of stores with any number of operations in flight.
* **File format** (`Bytes`, `ZipLayout`, `ZipRanges`, `Zip`, `ZipDecode`, `Crc32`, `CrcBursts`, `ZipIntegrity`).
  The stored archive after the PKWARE APPNOTE .ZIP specification, sections 4.3.7, 4.3.12 and 4.3.16, and the
  CRC-32 of section 8 of RFC 1952, which is proved to notice every burst of up to four damaged bytes.
* **Structural edits** (`Tables`, `TableEdits`, `Tsv`, `Pasting`, `Placeholders`, `ConnectorGeometry`, `Deletion`). The
  table validator and the row and column edits, the TSV parser with the quoting of section 2 of RFC 4180,
  placeholder rebinding, and deletion under bound connectors.

Outside the model stand clocks, identifiers, hashing, JSON, UTF-8 and the document engine. They are
parameters: a statement about an `Engine`, a `Codec` or a `Text` holds for every one of them, under the
assumptions its `requires` clauses name. Each assumption is made of the values at hand and of no others:

* that the header and the records of a journal are read back as they were written (`Journal.Stored`,
  `Journal.Survives`), and that a frame digest has its fixed length (`Journal.Lawful`);
* that SHA-256 tells the base on disk from the document the journal was started from
  (`Recovery.DigestsTellApart`);
* that the revision token, a short hash, tells each document the host's adapter held from the one it should
  have held (`Engine.TokensTellApart`).

`Witnesses` meets the first of them with a codec, an engine and a session written out. A request stands for its
own canonical JSON, which the host compares.

Three promises turned out to hold only under a condition, and the condition is proved exact:

* Appending to a journal checks its bytes but not its record count, while replay refuses a journal of more
  than 100000 records. The append behind record 100000 is acknowledged and makes the whole journal unreadable
  (`Journal.AppendedJournalReplays`). It happens to every journal of 100000 records whose frames stay within
  671 bytes (`Journal.SmallRecordsOverfill`), such as the one of `Witnesses.AcknowledgedAppendLosesJournal`.
* A save rotates base, metadata and journal one after the other. When it stops in between, the session goes on
  acknowledging edits into the old journal, and recovery refuses all of them
  (`Recovery.RecoveryIsExact`, `Session.EditAfterInterruptedRotation`); `Witnesses.AcknowledgedEditIsLost` is
  a session of two renames that loses the second.
* A quoted matrix of one column and at least two rows loses its last row when the last cell is empty
  (`Tsv.ParsingUndoesQuoting`, `Tsv.BlankLastCellIsDropped`).

## Model

| member | source | states |
|---|---|---|
| Access.AnalyzeCommandAccess | packages/collaboration/src/access.ts:224-636 | The loop over a batch collects exactly the union of the command footprints. |
| Access.BatchContains | packages/collaboration/src/access.ts:224-636 | The footprint of each command is inside that of its batch. |
| Access.AnchorKeyWritten | packages/collaboration/src/access.ts:224-636 | Every command has one write key it declares whatever the document looks like. |
| Access.BatchHasStableWriteKey | packages/collaboration/src/access.ts:224-636 | So has every batch the request schema lets through; without it a repeated request could slip past the conflict check. |
| Access.ForestWritesAreItsIds | packages/collaboration/src/access.ts:122-141 | The keys written for a whole subtree are the element keys of all identifiers in it. |
| AccessKeys.KeyTextsTellApart | packages/collaboration/src/access.ts:12-32 | The text of a conflict key determines the key when its identifiers are UUIDs: no two keys collide, and no container passes for the `root` of a slide. |
| HostTheorems.EntryFacts | packages/collaboration/src/host.ts:280-440 | Every commit of every run passed the checks and recorded sequence, revisions and footprint as promised. |
| HostTheorems.AtMostOnce | packages/collaboration/src/host.ts:295-322 | In no run is an identical request committed twice, even after the window has evicted its first commit. |
| HostTheorems.RetryNeverCommits | packages/collaboration/src/host.ts:295-322 | Submitting a committed request again, at any later time, is never accepted as a new commit. |
| HostTheorems.RememberedCommitIsTheOriginal | packages/collaboration/src/host.ts:295-322 | A retry that is answered gets the very commit the log holds for it. |
| HostTheorems.FirstCommitterWins | packages/collaboration/src/host.ts:646-689 | No committed batch reads or writes a key that a commit after its base wrote. |
| HostTheorems.CommitsRespectLiveLeases | packages/collaboration/src/host.ts:691-725 | No commit writes a key protected by another client's live text lease, or by its own without the token. |
| HostTheorems.EvictionIsIncremental | packages/collaboration/src/host.ts:421-440 | Evicting from the front until the new entry fits gives the same window as computing it from the whole log. |
| HostTheorems.WindowIsLongestSuffix | packages/collaboration/src/host.ts:421-440 | The idempotency window is the longest suffix of the commit log within both limits. |
| HostTheorems.NewestCommitRetained | packages/collaboration/src/host.ts:354-360 | The newest commit is always in the window. |
| HostTheorems.WindowKeysDistinct | packages/collaboration/src/host.ts:295-322 | No two remembered commits share a client and request identifier. |
| HostTheorems.SumBytesAppend | packages/collaboration/src/host.ts:421-440 | The byte counter moves by exactly the bytes of the entry that comes or goes. |
| HostTheorems.FaithfulTokensDetectDisturbance | packages/collaboration/src/host.ts:635-644 | When the token tells each document the adapter held from the one it should have held, the host's check has detected every change made behind its back: the whole run is undisturbed. |
| HostTheorems.ReplicaFollowsOneCommit | packages/collaboration/src/replica.ts:8-59 | A replica at the document before a commit passes all checks and arrives at the document after it. |
| HostTheorems.TailReachesHost | packages/collaboration/src/host.ts:453-508 | Folding the tail from any retained sequence reaches the host's document. |
| HostTheorems.ResyncConverges | packages/collaboration/src/host.ts:453-508 | Whatever answer a replica gets, by tail or by snapshot, it ends at the host's document and revision; a snapshot is only sent when the tail is gone or too large. |
| HostIndex.PrunedIndexRefinesLog | packages/collaboration/src/host.ts:646-689 | For a base inside the tail the pruned index reports a conflict exactly when the full log holds one. |
| HostIndex.CommitKeepsIndex | packages/collaboration/src/host.ts:405-410 | Stamping and pruning at a commit keep the index right for every base that can still be asked. |
| HostIndex.CommitKeepsTail | packages/collaboration/src/host.ts:405-410 | The tail stays the last min(n, limit) commits. |
| HostIndex.TailNamesMinBase | packages/collaboration/src/host.ts:442-451 | The smallest accepted base computed from the tail is the one the full log gives. |
| HostIndex.TailIsContiguous | packages/collaboration/src/host.ts:453-508 | Tail commits have consecutive sequences and chained revisions. |
| HostIndex.CommitsAfter | packages/collaboration/src/host.ts:453-508 | Filtering the tail by sequence gives exactly its commits behind the asked one. |
| Host.AuthoritativeSessionHost.constructor | packages/collaboration/src/host.ts:188-234 | A fresh host is valid over the empty log. |
| Host.AuthoritativeSessionHost.AssertCanApply | packages/collaboration/src/host.ts:646-689 | The fast check refuses with the code the full log calls for and tells rebased from current requests. |
| Host.AuthoritativeSessionHost.AssertLeaseAccess | packages/collaboration/src/host.ts:691-725 | The first offended live lease decides the error, in lease order. |
| Host.AuthoritativeSessionHost.PruneHistoricalWriteKeys | packages/collaboration/src/host.ts:446-451 | Exactly the keys last written at or before the bound are forgotten. |
| Host.AuthoritativeSessionHost.RememberIdempotentResult | packages/collaboration/src/host.ts:421-440 | The window becomes the longest fitting suffix with the new entry, and the counter its byte sum. |
| Host.AuthoritativeSessionHost.PrepareSubmission | packages/collaboration/src/host.ts:280-372 | The bounded host's decision is the decision over the full log, with its error codes in order. |
| Host.AuthoritativeSessionHost.FinalizeSubmission | packages/collaboration/src/host.ts:374-419 | Recording a commit extends the log by it and keeps every bounded structure in step. |
| Host.AuthoritativeSessionHost.Submit | packages/collaboration/src/host.ts:249-263 | One submission replays, refuses or commits exactly as the full log calls for; a refusal or a replay changes nothing but the leases that have expired. |
| Host.AuthoritativeSessionHost.GetResync | packages/collaboration/src/host.ts:453-508 | The answer from the tail is the answer from the full log. |
| Host.AuthoritativeSessionHost.AcquireTextLease | packages/collaboration/src/host.ts:510-538 | Who may take a lease, the token and times it gets, and that other leases only expire. |
| Host.AuthoritativeSessionHost.RenewTextLease | packages/collaboration/src/host.ts:540-555 | Only the live lease with its slide, owner and token is renewed, and only its expiry moves. |
| Host.AuthoritativeSessionHost.ReleaseTextLease | packages/collaboration/src/host.ts:557-569 | Only the matching lease is removed; a missing one is reported, a wrong token refused. |
| Host.ApplyCommittedTransaction | packages/collaboration/src/replica.ts:8-59 | The replica gives the result of the specified step. Another document, another revision before it or a refused transaction leaves it where it was; an unexpected revision behind the transaction leaves it on the transacted document. |
| Host.CommitKeepsWindow | packages/collaboration/src/host.ts:421-440 | Replacing and evicting entry by entry gives the window of the extended log. |
| Rebase.EditActsOnShell | packages/document-core/src/command-engine.ts:750-843 | An in-place edit keeps identity, kind and children and depends on nothing but the element itself. |
| Rebase.CommandAgrees | packages/document-core/src/command-engine.ts:110-147 | On documents that agree on what a command touches it has the same outcome, and they still agree. |
| Rebase.CommandFrames | packages/document-core/src/command-engine.ts:110-147 | It changes nothing outside the entities it writes. |
| Rebase.BatchFrames | packages/document-core/src/command-engine.ts:110-147 | The same for whole batches, in order. |
| Rebase.StaleBatchIsStable | packages/collaboration/src/host.ts:672-688 | A batch that succeeds on the current document would succeed on its base and write the same values there. |
| ParsedDeck.ForestIsStamped | packages/document-core/src/connector-geometry.ts:178-202 | The step that stamps connectors finds nothing to do in a parsed forest. |
| ParsedDeck.BatchStaysParsed | packages/document-core/src/command-engine.ts:1884-1927 | A batch of in-place commands takes a document that parsing leaves alone to another such document, through every element, table and style edit. |
| HostRebase.DeclaredFootprintCovers | packages/collaboration/src/access.ts:449-602 | The declared footprint of an in-place batch covers what it really reads and writes. |
| HostRebase.InterveningCommitsMissTheBatch | packages/collaboration/src/host.ts:672-688 | In every run whose base document is parsed, in-place commits between a batch's base and its turn changed nothing it touches, and left a parsed document. |
| HostRebase.AcceptedRebaseIsStable | packages/collaboration/src/host.ts:672-688 | In every such run, an accepted stale batch leaves in all it touches the value of its base, and elsewhere changes only the time stamp. |
| History.RecordKeepsTimeline | packages/document-runtime/src/session-manager.ts:794-822 | Recording an edit keeps the entries linked around the current document and within the limit. |
| History.UndoKeepsTimeline | packages/document-runtime/src/session-manager.ts:1126-1144 | So does an undo. |
| History.RedoKeepsTimeline | packages/document-runtime/src/session-manager.ts:1151-1169 | So does a redo. |
| History.UndosThenRedosAreIdentity | packages/document-runtime/src/session-manager.ts:1126-1174 | Any number of undos and as many redos restore document and both stacks. |
| History.UndosWalkBack | packages/document-runtime/src/session-manager.ts:1126-1144 | k undos lead to the document before the k-th newest entry. |
| History.GroupIsOneEntry | packages/document-runtime/src/session-manager.ts:794-822 | A run of edits under one group is a single entry, however long it is. |
| History.GroupUndoesAtOnce | packages/document-runtime/src/session-manager.ts:794-822 | One undo of a coalesced group returns to the document before its first edit. |
| Journal.ReplayJournal | packages/hdeck/src/journal.ts:195-238 | The loop returns what replay is specified to return, for every byte string. |
| Journal.CreateJournalBytes | packages/hdeck/src/journal.ts:172-193 | It accepts exactly the headers and records within all limits and writes their frames in order. |
| Journal.FrameReadsBack | packages/hdeck/src/journal.ts:151-170 | A frame standing anywhere in a file is read back whole. |
| Journal.TornFrameIsCutShort | packages/hdeck/src/journal.ts:151-170 | A proper prefix of a frame at the end of a file is truncated, never corrupt. |
| Journal.TruncationRepairs | packages/hdeck/src/journal.ts:195-238 | Whatever a file holds, truncating it where replay stopped leaves a complete journal of the same records. |
| Journal.JournalCut | packages/hdeck/src/journal.ts:195-238 | A stored journal cut at or behind its header frame replays to exactly the records wholly before the cut. |
| Journal.JournalRoundTrip | packages/hdeck/src/journal.ts:172-238 | A stored journal replays to its header and records. |
| Journal.AppendExtendsJournal | packages/hdeck/src/journal.ts:255-276 | An append succeeds exactly for the next acceptable record within the byte limit and extends the journal by it. |
| Journal.AppendedJournalReplays | packages/hdeck/src/journal.ts:255-276 | The appended journal replays if and only if it has at most 100000 records. |
| Journal.SmallRecordsOverfill | packages/hdeck/src/journal.ts:255-276 | Every journal of exactly 100000 small records replays, takes each acceptable small record as its next one, and is then unreadable. |
| Journal.TruncateThenAppend | packages/hdeck/src/journal.ts:255-276 | Truncating a cut journal and appending the next record gives a complete journal again. |
| Recovery.FoldRecords | packages/document-runtime/src/session-manager.ts:1725-1749 | The recovery loop computes the document the records stand for, or stops at the first broken link. |
| Recovery.JournalledEditsPerform | packages/document-runtime/src/session-manager.ts:1731-1742 | Replaying a journalled edit performs the transaction that was journalled. |
| Recovery.RecoveryIsExact | packages/document-runtime/src/session-manager.ts:1697-1775 | When the digest tells the base on disk from the journal's own document, recovery succeeds if and only if they are the same and the journal is not overfull, and then returns the acknowledged document or that and the one whole unacknowledged record. |
| Recovery.TruncationSettles | packages/document-runtime/src/session-manager.ts:1719-1724 | The truncation recovery makes leaves a settled account of what it returns. |
| Recovery.AppendNeedsSettledJournal | packages/document-runtime/src/session-manager.ts:824-853 | After a torn or unacknowledged append nothing is acknowledged until a save rotates the journal. |
| Recovery.AppendAccounts | packages/document-runtime/src/session-manager.ts:824-853 | An acknowledged append accounts for the new document. |
| Recovery.TornAppendAccounts | packages/document-runtime/src/session-manager.ts:824-853 | An append that stops behind any byte still accounts for the old document. |
| Session.DocumentSession.AppendRecord | packages/document-runtime/src/session-manager.ts:824-853 | Acknowledged exactly when every byte is written; the disk accounts for the right document either way. |
| Session.DocumentSession.Execute | packages/document-runtime/src/session-manager.ts:855-935 | When an edit is acknowledged, what it then changes, and that a refused one leaves no trace in memory. |
| Session.DocumentSession.RecordHistory | packages/document-runtime/src/session-manager.ts:794-822 | The stacks move as the timeline specification says. |
| Session.DocumentSession.RestoreLocked | packages/document-runtime/src/session-manager.ts:1088-1124 | The target document is journalled before it becomes current. |
| Session.DocumentSession.Undo | packages/document-runtime/src/session-manager.ts:1126-1144 | An acknowledged undo is one step back on the timeline, a failed one changes nothing. |
| Session.DocumentSession.Redo | packages/document-runtime/src/session-manager.ts:1151-1169 | The same forwards. |
| Session.DocumentSession.SaveLocked | packages/document-runtime/src/session-manager.ts:1185-1258 | However far the rotation gets, the acknowledged document stays accounted for; a finished one settles the journal on it. |
| Session.DocumentSession.Save | packages/document-runtime/src/session-manager.ts:1260-1291 | A clean session is not written; a finished save of a dirty one leaves it clean. |
| Session.Create | packages/document-runtime/src/session-manager.ts:625-642 | A new session exists only with its base and an empty journal on disk. |
| Session.Recover | packages/document-runtime/src/session-manager.ts:1697-1775 | Recovery opens a valid session on exactly what the disk accounts for, ready to crash again. |
| Session.CrashLosesNothingAcknowledged | packages/document-runtime/src/session-manager.ts:1697-1775 | At any moment of any run a crash recovers the acknowledged document or that and one record, when the base matches; else it is refused. |
| Session.EditAfterInterruptedRotation | packages/document-runtime/src/session-manager.ts:1210-1237 | After a rotation that stopped behind the base, an edit is acknowledged exactly when an ordinary one would be, and the disk cannot be recovered. |
| Witnesses.AcknowledgedAppendLosesJournal | packages/hdeck/src/journal.ts:255-276 | A concrete journal of 100000 renames replays, acknowledges one more append, and no longer replays. |
| Witnesses.AcknowledgedEditIsLost | packages/document-runtime/src/session-manager.ts:1210-1237 | A concrete session: two renames are acknowledged, a save rotation stops between them, and recovery refuses the disk. |
| Storage.PrivateDirectory.Publish | packages/document-runtime/src/storage.ts:231-235 | A complete generation becomes the target only where none exists; no target can lose by it. |
| Storage.PrivateDirectory.RepairKnownTransaction | packages/document-runtime/src/storage.ts:237-266 | A repair that may itself fail anywhere loses no last generation. |
| Storage.PrivateDirectory.WriteGeneration | packages/document-runtime/src/storage.ts:307-347 | The directory is always at one of seven known places between old and new. |
| Storage.PrivateDirectory.AtomicWrite | packages/document-runtime/src/storage.ts:287-358 | The target stays recoverable as an old version or the new bytes; a normal return leaves the new bytes and no artifact. |
| Storage.InterruptionAdvances | packages/document-runtime/src/storage.ts:287-358 | At every one of those places the target can be recovered as an old version or the new bytes. |
| Storage.PrivateDirectory.ReconcileTarget | packages/document-runtime/src/storage.ts:388-431 | Publishing and removing the artifacts of one target within the action budget. |
| Storage.PrivateDirectory.ReconcileInterruptedWrites | packages/document-runtime/src/storage.ts:360-433 | Cut short anywhere it loses nothing; finished with sufficient bounds it leaves no artifact. |
| Storage.OneMoreWrite | packages/document-runtime/src/storage.ts:287-358 | One more write of a process life, wherever it ends, leaves every target recoverable as one of its possible versions, and the other targets alone. |
| Storage.WritesWereAtomic | packages/document-runtime/src/storage.ts:287-433 | After any writes, crashes and a finished reconciliation, every target holds one complete possible version, or is absent where it may be. |
| Storage.UnwrittenTargetStays | packages/document-runtime/src/storage.ts:287-433 | A target no write named is as it was. |
| Storage.ReturnedWriteHolds | packages/document-runtime/src/storage.ts:287-433 | When every write of a target returned, the target holds what the last of them wrote. |
| Storage.FailedWriteIsAtomic | packages/document-runtime/src/storage.ts:287-433 | When only the last write of a target failed, the target holds the version before that write, or the new bytes. |
| Storage.SurviveGeneration | packages/document-runtime/src/storage.ts:287-433 | One process life: any number of writes to any targets, each failing or crashing anywhere, any number of disturbed starts and one undisturbed one leave every target with a possible version and no artifact. |
| Storage.SurviveGenerations | packages/document-runtime/src/storage.ts:287-433 | The same for any sequence of process lives, with the directory between them. |
| LeaseTheorems.LineageExtends | packages/collaboration/src/shared-drive.ts:431-476 | Every change of the sidecar renews its lease or starts one under a fresh identifier. |
| LeaseTheorems.HeartbeatsGrow | packages/collaboration/src/shared-drive.ts:801-877 | The sequence number of a lease grows by one at each change and its writer stays. |
| LeaseTheorems.LeaseNeverReturns | packages/collaboration/src/shared-drive.ts:613-799 | A lease that left the sidecar never comes back. |
| LeaseTheorems.ContentsNeverRecur | packages/collaboration/src/shared-drive.ts:431-476 | No sidecar content ever recurs, so equal contents are the same version. |
| LeaseTheorems.StepKeepsInv | packages/collaboration/src/shared-drive.ts:577-1007 | Every step of every operation keeps the protocol invariant. |
| LeaseTheorems.AtMostOneOwner | packages/collaboration/src/shared-drive.ts:577-1007 | In every run at most one store owns the lease the sidecar names. |
| LeaseTheorems.SwapReplacesWhatWasRead | packages/collaboration/src/shared-drive.ts:431-476 | A successful swap or delete replaces the version that was read, with no write in between. |
| LeaseTheorems.TakeoverOnlyAfterExpiry | packages/collaboration/src/shared-drive.ts:613-799 | A lease in the sidecar is changed only by its own writer, or by a takeover after it expired. |
| LeaseTheorems.SidecarHistoryIsLinear | packages/collaboration/src/shared-drive.ts:577-1007 | Over a whole run sequence numbers grow strictly, contents never recur and leases never return. |
| ZipRanges.AssertDisjointZipMemberRanges | packages/hdeck/src/archive.ts:396-413 | The sorted sweep accepts exactly the lists of valid, pairwise disjoint ranges. |
| ZipRanges.SweepIsExact | packages/hdeck/src/archive.ts:396-413 | Comparing neighbours in start order is as good as comparing all pairs. |
| Zip.Prepare | packages/hdeck/src/archive.ts:525-566 | One pass accepts exactly the lists within every limit, with safe and distinct names. |
| Zip.PreflightIsExact | packages/hdeck/src/archive.ts:525-566 | The preflight sum 22 + data + 76 + twice the name is the exact encoded length, so it accepts exactly what fits. |
| Zip.EncodeStoredZip | packages/hdeck/src/archive.ts:584-649 | The encoder succeeds exactly when the preflight does and writes the specified layout. |
| ZipLayout.LocalHeaderReadsBack | packages/hdeck/src/archive.ts:755-764 | The decoder finds every local header field where the encoder put it. |
| ZipLayout.CentralHeaderReadsBack | packages/hdeck/src/archive.ts:704-719 | The same for central headers. |
| ZipLayout.EndRecordReadsBack | packages/hdeck/src/archive.ts:677-683 | The same for the end record. |
| ZipDecode.FindEndOffset | packages/hdeck/src/archive.ts:651-657 | The last end signature within reach of a comment is found. |
| ZipDecode.DecodeStoredZip | packages/hdeck/src/archive.ts:668-811 | The decoder's loops compute the specified result, for every byte string. |
| ZipDecode.ReadMembersAreWellRead | packages/hdeck/src/archive.ts:685-796 | The loop over the directory lists exactly the announced number of members, each well placed and none colliding with another. |
| ZipDecode.DecodedMembersAreDisjoint | packages/hdeck/src/archive.ts:721-810 | Whatever is decoded, every listed member stands behind its own local record before the directory, under a safe name of its own; the records, and the data, are pairwise disjoint; and the bytes handed out are those, with their stored checksums. |
| ZipDecode.ZipRoundTrip | packages/hdeck/src/archive.ts:584-811 | Decoding an encoded archive gives back the same names and bytes, in order. |
| Crc32.BuildTable | packages/hdeck/src/archive.ts:422-432 | Every table entry is eight bit steps of its index. |
| Crc32.ByteStep | packages/hdeck/src/archive.ts:434-442 | Eight bit steps of a register are one table value and a shift. |
| Crc32.ComputeCrc32 | packages/hdeck/src/archive.ts:434-442 | The table-driven loop computes the bit-at-a-time CRC-32 of every byte string. |
| CrcBursts.BurstIsDetected | packages/hdeck/src/archive.ts:434-442 | Messages of one length that differ at most within four consecutive bytes, and share a checksum, are equal. |
| CrcBursts.FiveBytesCanHide | packages/hdeck/src/archive.ts:434-442 | Four is the limit: two concrete messages of five bytes share a checksum. |
| ZipIntegrity.RoundTripWithCrc32 | packages/hdeck/src/archive.ts:584-811 | Decoding an encoded archive at the real checksum gives back names, bytes and the CRC-32 of each member. |
| ZipIntegrity.MembersSurviveDamage | packages/hdeck/src/archive.ts:668-796 | Damage inside the data of one member of a decodable archive leaves the list of members as it was. |
| ZipIntegrity.DamagedMemberIsRefused | packages/hdeck/src/archive.ts:798-810 | An archive that decodes no longer does once up to four consecutive bytes of a member's data are changed, whatever they are changed to. |
| Tables.ValidateTable | packages/document-core/src/validation.ts:132-235 | The area count and bitmap report no issue exactly when every coordinate is covered by exactly one cell in bounds. |
| Tables.MarkCells | packages/document-core/src/validation.ts:206-220 | The bitmap marks exactly the covered coordinates. |
| Tables.CountDecidesTiling | packages/document-core/src/validation.ts:188-234 | Without bounds issues, equal areas and no overlap are as good as one owner per coordinate. |
| Tables.ExcessAreaIsOverlap | packages/document-core/src/validation.ts:176-185 | Every overlap reported from the aggregate area is a real overlap. |
| Tables.OffsetIsRowMajor | packages/document-core/src/validation.ts:212-218 | The bitmap offset of a coordinate is its row-major position. |
| Tables.AreaIsProduct | packages/document-core/src/validation.ts:176 | The area of a block, by repeated addition, is the product of its sides. |
| TableEdits.ValidateInsertedCells | packages/document-core/src/command-engine.ts:845-889 | It accepts exactly one single-span cell per crossing line, each on the new line. |
| TableEdits.InsertionKeepsTiling | packages/document-core/src/command-engine.ts:1467-1569 | Inserting a row or column takes a valid single-span table to a valid one. |
| TableEdits.DeletionKeepsTiling | packages/document-core/src/command-engine.ts:1501-1601 | So does deleting one. |
| TableEdits.DeletionUndoesInsertion | packages/document-core/src/command-engine.ts:1467-1601 | Deleting the line just inserted restores sizes and cells. |
| TableEdits.SortingSorts | packages/document-core/src/command-engine.ts:1467-1569 | Cells end up in row-major order. |
| TableEdits.SortingPermutes | packages/document-core/src/command-engine.ts:1467-1569 | And none is lost or doubled. |
| Tsv.ParseTsv | packages/document-core/src/tsv.ts:11-86 | The loop computes the specified parse of every string. |
| Tsv.ParsingUndoesQuoting | packages/document-core/src/tsv.ts:11-86 | A quoted rectangular matrix within the limits parses back if and only if it does not end in a blank single-cell row. |
| Tsv.WideMatricesRoundTrip | packages/document-core/src/tsv.ts:11-86 | With at least two columns it always does, whatever the cells contain. |
| Tsv.BlankLastCellIsDropped | packages/document-core/src/tsv.ts:74-79 | A concrete one-column matrix that loses its last row. |
| Pasting.PastedCellShows | packages/document-core/src/command-engine.ts:891-922 | A pasted cell shows exactly its text and keeps position, identity and style; any other cell is untouched. |
| Pasting.PastingShowsMatrix | packages/document-core/src/command-engine.ts:1649-1693 | Pasting a written matrix succeeds exactly when it fits the table, and then every cell shows its own text. |
| Placeholders.CollectKeepsUnambiguous | packages/document-core/src/command-engine.ts:924-943 | Layout placeholders replace inherited ones of the same identifier, so each identifier is offered once. |
| Placeholders.ValidatorIsExact | packages/document-core/src/validation.ts:373-416 | The walk reports nothing exactly when all bindings are accepted and pairwise distinct. |
| Placeholders.ForestRemaps | packages/document-core/src/command-engine.ts:951-1021 | Remapping uses reserved bindings and slots nobody used, each once, and every one accepts its element. |
| Placeholders.RemappingKeepsBindingsValid | packages/document-core/src/command-engine.ts:951-1021 | From valid bindings to valid bindings in any target, with acceptable ones left alone. |
| ConnectorGeometry.NormalizationIsIdempotent | packages/document-core/src/connector-geometry.ts:41-49 | Normalizing a point twice is normalizing it once. |
| Deletion.RemovalPrunes | packages/document-core/src/command-engine.ts:435-443 | Removing a selection from one container is pruning the tree by exactly the deleted identifiers. |
| Deletion.RemovalTakesSelection | packages/document-core/src/command-engine.ts:393-443 | Exactly the selected elements of the named container go, each with everything inside it. |
| Deletion.PrunedAnchors | packages/document-core/src/connector-geometry.ts:145-157 | Pruning leaves every surviving anchor where it was. |
| Deletion.ReleasedEndpointStays | packages/document-core/src/command-engine.ts:415-421 | A released endpoint resolves to the point its binding held it at; other endpoints resolve as before. |
| Deletion.DeletionKeepsConnectors | packages/document-core/src/command-engine.ts:393-448 | After deleting any selection exactly the subtrees of the selected elements are gone, no binding names a removed element and every surviving connector resolves as before, in its container and in the document. |

## Left out

- LocalEdits.Execute: transforming a connector is an `UnsupportedOperation` here, because it needs the geometry of the whole slide; the rebase statements exclude it.
- Rebase.CommandAgrees: structural commands (insert, delete, group, ungroup, reorder, layouts, masters, themes, assets) are not executed; their footprints are modelled for the host only.
- HostRebase.AcceptedRebaseIsStable: assumes that the engine runs in-place batches as modelled on documents that parsing leaves alone, and may refuse the result; validation of the result is not repeated at the base. Font families of single text runs, and names of masters and layouts, are not part of the document here.
- HostTheorems.ResyncConverges: a host whose adapter holds two documents of one revision token is outside it.
- Host.AuthoritativeSessionHost.Submit: the schema check of the finished transaction, which may throw after the adapter has moved, is not modelled.
- Recovery.RecoveryIsExact: archive encoding of the base, schema parsing of restored documents and asset bytes are not modelled.
- Session.DocumentSession.Execute: asset registration, staged blobs, representability limits, events and the autosave timer are not modelled.
- Session.DocumentSession.SaveLocked: the save target, its fingerprint and the overwrite options are reduced to one user file that is written or not.
- Storage.PrivateDirectory.AtomicWrite: writes to one target are taken as already serialized, and a name change that was made is durable; file modes are not modelled.
- Storage.PrivateDirectory.ReconcileInterruptedWrites: targets and artifacts are visited in listing order instead of sorted order, on which no statement depends.
- LeaseTheorems.StepKeepsInv: compare-and-swap is atomic and may report failure although it happened; the mutation lock, its recovery and signatures (a key stands for them) are not modelled; fingerprints of the target come from outside.
- ZipDecode.ZipRoundTrip: UTF-8 and the collision key are functions of the text parameter; the checksum is one too, which `ZipIntegrity` fixes.
- ConnectorGeometry.NormalizationIsIdempotent: coordinates are real numbers, and a rotation is a fixed cosine and sine.
- Deletion.DeletionKeepsConnectors: requires unique identifiers, which the document validator demands of every slide.
- Placeholders.ForestRemaps: the sets that the traversal fills in place are threaded through it as values.
- Presence, participants, the asynchronous submission queue and the durable adapter of the host.
- Agent proposals, audit entries and blob garbage collection of the document session.
- Manifest and image-header validation of archives, and everything above the stored container.
- The writer lease's watch and heartbeat timers and `preflightTarget`, which only read.
- Align, distribute, resize, grouping geometry, rendering, export, the MCP server and all transports.
