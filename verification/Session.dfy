/** A document session: edits, undo, redo, save and recovery around one journal. */
module Session {
  import opened Wrappers
  import opened ByteStrings
  import opened DeckModel
  import opened Commands
  import opened Engine
  import opened Journal
  import opened Recovery
  import opened History

  const MAX_COMMANDS_PER_TRANSACTION := 100
  const MAX_GROUP_ID_LENGTH := 128

  datatype ExecuteRequest = ExecuteRequest(
    expectedRevision: Revision, commands: seq<Command>, metadata: Metadata, historyGroupId: Option<string>)

  datatype HistoryRequest = HistoryRequest(expectedRevision: Revision, metadata: Metadata)

  /** How a journal append ends: acknowledged, or failed behind some of its bytes. */
  datatype AppendFault = Appends | FailsAfter(written: nat)

  /**
   How a save ends: all steps done, the user's file not written, or stopped behind some of the three
   recovery files (base, metadata, journal, in this order). Each file is replaced as a whole.
   */
  datatype SaveFault = Completes | FileNotSaved | StopsAfter(rotated: nat)

  class DocumentSession {
    const cfg: SessionConfig
    const sessionId: Id
    const documentId: Id
    var document: DeckDocument
    var revision: Revision
    var savedRevision: Revision
    var persisted: bool
    var journalSequence: nat
    var undo: seq<Entry>
    var redo: seq<Entry>
    var disk: Disk
    /** The user's own file. */
    var file: Option<DeckDocument>
    ghost var ledger: Ledger

    ghost function Timeline(): Timeline
      reads this
    {
      History.Timeline(undo, redo, document)
    }

    ghost predicate Valid()
      reads this
    {
      && cfg.maxHistoryEntries >= 1
      && disk.metadata.documentId == documentId
      && Accounts(cfg, disk, sessionId, ledger, document)
      && (ledger.pending.Some? ==> journalSequence == |ledger.acked|)
      && revision == cfg.engine.revision(document)
      && WellKept(cfg.engine, cfg.maxHistoryEntries, Timeline())
    }

    /** Nothing unacknowledged is on disk and the sequence number is in step. */
    ghost predicate Settled()
      reads this
    {
      ledger.pending.None? && journalSequence == |ledger.acked|
    }

    /** A session over a disk that accounts for its document: a new one, or a recovered one. */
    constructor Over(
      cfg: SessionConfig, sessionId: Id, disk: Disk, document: DeckDocument, journalSequence: nat,
      file: Option<DeckDocument>, ghost ledger: Ledger)
      requires cfg.maxHistoryEntries >= 1
      requires Accounts(cfg, disk, sessionId, ledger, document)
      requires ledger.pending.None? && journalSequence == |ledger.acked|
      ensures Valid() && Settled()
      ensures this.cfg == cfg && this.sessionId == sessionId && documentId == disk.metadata.documentId
      ensures this.disk == disk && this.document == document
      ensures this.ledger == ledger && this.file == file && undo == [] && redo == []
      ensures savedRevision == disk.metadata.savedRevision && persisted == disk.metadata.persisted
    {
      this.cfg, this.sessionId, this.documentId := cfg, sessionId, disk.metadata.documentId;
      this.document, this.revision := document, cfg.engine.revision(document);
      this.savedRevision, this.persisted := disk.metadata.savedRevision, disk.metadata.persisted;
      this.journalSequence := journalSequence;
      this.undo, this.redo := [], [];
      this.disk, this.file, this.ledger := disk, file, ledger;
    }

    function RecordFor(next: DeckDocument, metadata: Metadata, commands: seq<JournalCommand>): Record
      reads this
    {
      CreateJournalRecord(
        cfg.codec,
        RecordContent(journalSequence + 1, revision, cfg.engine.revision(next), metadata, commands))
    }

    /**
     Appends the record of the step to `next`. Acknowledged only when every byte is written; a failed
     append leaves the account of the old document intact, whatever part of the frame reached the disk.
     */
    method AppendRecord(next: DeckDocument, metadata: Metadata, commands: seq<JournalCommand>, fault: AppendFault)
      returns (acknowledged: bool)
      requires Valid()
      requires Performed(cfg.engine, document, RecordFor(next, metadata, commands).content) == Some(next)
      requires Survives(cfg.codec, RecordFor(next, metadata, commands))
      modifies this`disk, this`ledger
      ensures acknowledged <==>
        fault.Appends? && Appended(cfg.codec, old(disk.journal), RecordFor(next, metadata, commands)).Ok?
      ensures Accounts(cfg, disk, sessionId, ledger, if acknowledged then next else document)
      ensures acknowledged ==> old(Settled()) && ledger.pending.None?
      ensures ledger.acked ==
        if acknowledged then old(ledger.acked) + [RecordFor(next, metadata, commands)] else old(ledger.acked)
      ensures ledger.root == old(ledger.root)
      ensures ledger.pending.Some? ==> journalSequence == |ledger.acked|
      ensures disk == old(disk).(journal := disk.journal)
    {
      hide Appended, Accounts;
      var record := RecordFor(next, metadata, commands);
      var appended := Appended(cfg.codec, disk.journal, record);
      if appended.Err? {
        return false;
      }
      AppendNeedsSettledJournal(cfg, disk, sessionId, ledger, document, record);
      var length := |disk.journal|;
      if fault.FailsAfter? {
        var cut := if length + fault.written < |appended.value| then length + fault.written else |appended.value|;
        if cut > length {
          TornAppendAccounts(cfg, disk, sessionId, ledger, document, record, cut);
          disk := disk.(journal := appended.value[..cut]);
          ledger := Ledger(ledger.root, ledger.acked, Some(record));
        }
        return false;
      }
      AppendAccounts(cfg, disk, sessionId, ledger, document, record, next);
      disk := disk.(journal := appended.value);
      ledger := Ledger(ledger.root, ledger.acked + [record], None);
      return true;
    }

    predicate WithinRequestLimits(request: ExecuteRequest) {
      && 0 < |request.commands| <= MAX_COMMANDS_PER_TRANSACTION
      && (request.historyGroupId.Some? ==>
           !cfg.isBlank(request.historyGroupId.value) && |request.historyGroupId.value| <= MAX_GROUP_ID_LENGTH)
    }

    predicate Executable(request: ExecuteRequest)
      reads this
    {
      WithinRequestLimits(request) && request.expectedRevision == revision
    }

    /** Which error a refused edit carries: the first check that fails, in this order. */
    function ExecuteError(request: ExecuteRequest): RuntimeError
      reads this
    {
      if !WithinRequestLimits(request) then InvalidRequest
      else if request.expectedRevision != revision then RevisionConflict
      else if cfg.engine.transact(document, request.commands, request.metadata).None? then TransactionRefused
      else JournalFailed
    }

    /** The record of an edit, if the engine performs it, is read back as it was written. */
    predicate EditSurvives(request: ExecuteRequest)
      reads this
    {
      var transaction := cfg.engine.transact(document, request.commands, request.metadata);
      transaction.Some? ==>
        Survives(cfg.codec, RecordFor(transaction.value, request.metadata, Journalled(request.commands)))
    }

    /** So is the record of the step back, or forward, to `target`. */
    predicate RestoreSurvives(target: DeckDocument, request: HistoryRequest)
      reads this
    {
      Survives(cfg.codec, RecordFor(target, request.metadata, [Restore(target)]))
    }

    lemma EditIsJournalled(request: ExecuteRequest, next: DeckDocument)
      requires cfg.engine.transact(document, request.commands, request.metadata) == Some(next)
      requires EditSurvives(request)
      ensures var record := RecordFor(next, request.metadata, Journalled(request.commands));
        Performed(cfg.engine, document, record.content) == Some(next) && Survives(cfg.codec, record)
    {
      JournalledEditsPerform(
        cfg.engine, document, RecordFor(next, request.metadata, Journalled(request.commands)).content,
        request.commands);
    }

    /** An edit: acknowledged with its record on disk, or without any trace in memory. */
    method Execute(request: ExecuteRequest, fault: AppendFault) returns (result: Result<(), RuntimeError>)
      requires Valid() && EditSurvives(request)
      modifies this
      ensures Valid()
      ensures result.Ok? <==>
        && old(Executable(request))
        && cfg.engine.transact(old(document), request.commands, request.metadata).Some?
        && fault.Appends?
        && var next := cfg.engine.transact(old(document), request.commands, request.metadata).value;
           Appended(
             cfg.codec, old(disk.journal), old(RecordFor(next, request.metadata, Journalled(request.commands)))).Ok?
      ensures result.Ok? ==>
        && cfg.engine.transact(old(document), request.commands, request.metadata) == Some(document)
        && Timeline() == Recorded(
             cfg.engine, cfg.maxHistoryEntries, old(Timeline()), document, request.metadata, request.historyGroupId)
        && old(Settled()) && Settled()
        && ledger.acked == old(ledger.acked)
             + [old(RecordFor(
                 cfg.engine.transact(document, request.commands, request.metadata).value,
                 request.metadata, Journalled(request.commands)))]
      ensures result.Err? ==>
        && result.error == old(ExecuteError(request))
        && Timeline() == old(Timeline()) && journalSequence == old(journalSequence) && ledger.acked == old(ledger.acked)
      ensures ledger.root == old(ledger.root) && disk.base == old(disk.base) && file == old(file)
      ensures savedRevision == old(savedRevision) && persisted == old(persisted)
    {
      hide Appended, Accounts, WellKept, Recorded, Performed, Survives, EditSurvives, Journalled, CreateJournalRecord;
      if |request.commands| == 0 || |request.commands| > MAX_COMMANDS_PER_TRANSACTION {
        return Err(InvalidRequest);
      }
      if request.historyGroupId.Some? &&
         (cfg.isBlank(request.historyGroupId.value) || |request.historyGroupId.value| > MAX_GROUP_ID_LENGTH)
      {
        return Err(InvalidRequest);
      }
      if request.expectedRevision != revision {
        return Err(RevisionConflict);
      }
      var transaction := cfg.engine.transact(document, request.commands, request.metadata);
      if transaction.None? {
        return Err(TransactionRefused);
      }
      var next := transaction.value;
      EditIsJournalled(request, next);
      var acknowledged := AppendRecord(next, request.metadata, Journalled(request.commands), fault);
      if !acknowledged {
        return Err(JournalFailed);
      }
      RecordHistory(next, request.metadata, request.historyGroupId);
      document := next;
      revision := cfg.engine.revision(next);
      journalSequence := journalSequence + 1;
      return Ok(());
    }

    method RecordHistory(next: DeckDocument, metadata: Metadata, groupId: Option<string>)
      requires cfg.maxHistoryEntries >= 1 && WellKept(cfg.engine, cfg.maxHistoryEntries, Timeline())
      modifies this`undo, this`redo
      ensures History.Timeline(undo, redo, next)
        == Recorded(cfg.engine, cfg.maxHistoryEntries, old(Timeline()), next, metadata, groupId)
      ensures WellKept(cfg.engine, cfg.maxHistoryEntries, History.Timeline(undo, redo, next))
    {
      RecordKeepsTimeline(cfg.engine, cfg.maxHistoryEntries, Timeline(), next, metadata, groupId);
      if groupId.Some? && undo != [] && undo[|undo| - 1].groupId == groupId &&
         undo[|undo| - 1].revisionAfter == cfg.engine.revision(document)
      {
        var latest := undo[|undo| - 1];
        undo := undo[..|undo| - 1] + [latest.(
          after := next, revisionAfter := cfg.engine.revision(next), metadata := latest.metadata + [metadata])];
      } else {
        undo := undo + [Entry(
          document, next, cfg.engine.revision(document), cfg.engine.revision(next), [metadata], groupId)];
        if |undo| > cfg.maxHistoryEntries {
          undo := undo[1..];
        }
      }
      redo := [];
    }

    function HistoryError(stack: seq<Entry>, request: HistoryRequest, current: Revision): RuntimeError {
      if stack == [] then InvalidRequest
      else if request.expectedRevision != current then RevisionConflict
      else JournalFailed
    }

    /** Journals the step back (or forward) to `target`; the caller then moves the history entry. */
    method RestoreLocked(target: DeckDocument, request: HistoryRequest, fault: AppendFault)
      returns (result: Result<(), RuntimeError>)
      requires Valid() && RestoreSurvives(target, request)
      modifies this`document, this`revision, this`journalSequence, this`disk, this`ledger
      ensures result.Ok? <==>
        && request.expectedRevision == old(revision) && fault.Appends?
        && Appended(cfg.codec, old(disk.journal), old(RecordFor(target, request.metadata, [Restore(target)]))).Ok?
      ensures document == if result.Ok? then target else old(document)
      ensures result.Err? ==>
        result.error == if request.expectedRevision != old(revision) then RevisionConflict else JournalFailed
      ensures Accounts(cfg, disk, sessionId, ledger, document) && revision == cfg.engine.revision(document)
      ensures ledger.pending.Some? ==> journalSequence == |ledger.acked|
      ensures result.Ok? ==> Settled() && old(Settled()) && |ledger.acked| == |old(ledger.acked)| + 1
      ensures result.Err? ==> journalSequence == old(journalSequence) && ledger.acked == old(ledger.acked)
      ensures ledger.root == old(ledger.root) && disk == old(disk).(journal := disk.journal)
    {
      hide Appended, Accounts;
      if revision != request.expectedRevision {
        return Err(RevisionConflict);
      }
      var acknowledged := AppendRecord(target, request.metadata, [Restore(target)], fault);
      if !acknowledged {
        return Err(JournalFailed);
      }
      document := target;
      revision := cfg.engine.revision(target);
      journalSequence := journalSequence + 1;
      return Ok(());
    }

    method Undo(request: HistoryRequest, fault: AppendFault) returns (result: Result<(), RuntimeError>)
      requires Valid()
      requires undo != [] ==> RestoreSurvives(undo[|undo| - 1].before, request)
      modifies this
      ensures Valid()
      ensures result.Ok? ==> old(undo) != [] && Timeline() == Undone(old(Timeline())) && Settled()
      ensures result.Err? ==>
        Timeline() == old(Timeline()) && result.error == HistoryError(old(undo), request, old(revision))
      ensures old(undo) != [] ==>
        (result.Ok? <==>
          && request.expectedRevision == old(revision) && fault.Appends?
          && var target := old(undo)[|old(undo)| - 1].before;
             Appended(cfg.codec, old(disk.journal), old(RecordFor(target, request.metadata, [Restore(target)]))).Ok?)
      ensures ledger.root == old(ledger.root) && disk.base == old(disk.base) && file == old(file)
      ensures savedRevision == old(savedRevision) && persisted == old(persisted)
    {
      hide Appended, Accounts, WellKept;
      if undo == [] {
        return Err(InvalidRequest);
      }
      UndoKeepsTimeline(cfg.engine, cfg.maxHistoryEntries, Timeline());
      var entry := undo[|undo| - 1];
      result := RestoreLocked(entry.before, request, fault);
      if result.Ok? {
        undo := undo[..|undo| - 1];
        redo := redo + [entry];
      }
    }

    method Redo(request: HistoryRequest, fault: AppendFault) returns (result: Result<(), RuntimeError>)
      requires Valid()
      requires redo != [] ==> RestoreSurvives(redo[|redo| - 1].after, request)
      modifies this
      ensures Valid()
      ensures result.Ok? ==> old(redo) != [] && Timeline() == Redone(old(Timeline())) && Settled()
      ensures result.Err? ==>
        Timeline() == old(Timeline()) && result.error == HistoryError(old(redo), request, old(revision))
      ensures old(redo) != [] ==>
        (result.Ok? <==>
          && request.expectedRevision == old(revision) && fault.Appends?
          && var target := old(redo)[|old(redo)| - 1].after;
             Appended(cfg.codec, old(disk.journal), old(RecordFor(target, request.metadata, [Restore(target)]))).Ok?)
      ensures ledger.root == old(ledger.root) && disk.base == old(disk.base) && file == old(file)
      ensures savedRevision == old(savedRevision) && persisted == old(persisted)
    {
      hide Appended, Accounts, WellKept;
      if redo == [] {
        return Err(InvalidRequest);
      }
      RedoKeepsTimeline(cfg.engine, cfg.maxHistoryEntries, Timeline());
      var entry := redo[|redo| - 1];
      result := RestoreLocked(entry.after, request, fault);
      if result.Ok? {
        redo := redo[..|redo| - 1];
        undo := undo + [entry];
      }
    }

    /**
     Saving the current document and rotating the recovery files. However far it gets, the acknowledged
     document stays accounted for; the base on disk may have moved ahead of the journal.
     */
    method SaveLocked(fault: SaveFault) returns (result: Result<(), RuntimeError>)
      requires Valid() && HeaderSurvives(cfg.codec, JournalHeader(cfg, documentId, sessionId, document))
      modifies this`savedRevision, this`persisted, this`file, this`disk, this`ledger, this`journalSequence
      ensures Valid()
      ensures result.Ok? ==>
        && fault.Completes? && Settled() && ledger == Ledger(document, [], None) && disk.base == document
        && disk.metadata == RecoveryMetadata(documentId, revision, true)
      ensures result == Err(SaveFailed) <==> fault.FileNotSaved?
      ensures fault.FileNotSaved? ==>
        && disk == old(disk) && ledger == old(ledger) && file == old(file)
        && savedRevision == old(savedRevision) && persisted == old(persisted)
      ensures !fault.FileNotSaved? ==> file == Some(document) && savedRevision == revision && persisted
      ensures disk.base == old(disk.base) || disk.base == document
      ensures fault.StopsAfter? && fault.rotated > 0 ==> disk.base == document
      ensures fault.StopsAfter? && fault.rotated <= 2 ==>
        disk.journal == old(disk.journal) && ledger == old(ledger) && journalSequence == old(journalSequence)
      ensures ledger == old(ledger) || ledger == Ledger(document, [], None)
    {
      hide WellKept, Accounts, JournalBytes, WritableHeader, AllWritable, JournalHeader, Lawful, HeaderSurvives;
      assert Lawful(cfg.codec) by {
        AccountIsLawful(cfg, disk, sessionId, ledger, document);
      }
      if fault.FileNotSaved? {
        return Err(SaveFailed);
      }
      file := Some(document);
      savedRevision := revision;
      persisted := true;
      if fault.StopsAfter? && fault.rotated == 0 {
        return Err(JournalFailed);
      }
      AccountIgnoresBase(cfg, disk, sessionId, ledger, document, document, disk.metadata);
      disk := disk.(base := document);
      if fault.StopsAfter? && fault.rotated == 1 {
        return Err(JournalFailed);
      }
      var metadata := RecoveryMetadata(documentId, savedRevision, persisted);
      AccountIgnoresBase(cfg, disk, sessionId, ledger, document, document, metadata);
      disk := disk.(metadata := metadata);
      if fault.StopsAfter? && fault.rotated == 2 {
        return Err(JournalFailed);
      }
      var reset := ResetJournal();
      if !reset || fault.StopsAfter? {
        return Err(JournalFailed);
      }
      journalSequence := 0;
      return Ok(());
    }

    /** An empty journal for the current document, in place of the old one. */
    method ResetJournal() returns (reset: bool)
      requires disk.metadata.documentId == documentId && Lawful(cfg.codec)
      requires HeaderSurvives(cfg.codec, JournalHeader(cfg, documentId, sessionId, document))
      modifies this`disk, this`ledger
      ensures disk == old(disk).(journal := disk.journal)
      ensures if reset then
          ledger == Ledger(document, [], None) && Accounts(cfg, disk, sessionId, ledger, document)
        else disk == old(disk) && ledger == old(ledger)
    {
      hide Accounts, JournalBytes, WritableHeader, AllWritable, JournalHeader, Lawful, HeaderSurvives;
      var journal := CreateJournalBytes(cfg.codec, JournalHeader(cfg, documentId, sessionId, document), []);
      if journal.Err? {
        return false;
      }
      disk := disk.(journal := journal.value);
      FreshJournalAccounts(cfg, disk, sessionId, document);
      ledger := Ledger(document, [], None);
      return true;
    }

    predicate Dirty()
      reads this
    {
      !persisted || revision != savedRevision
    }

    /** A save with nothing to save succeeds without touching anything. */
    method Save(hasTarget: bool, fault: SaveFault) returns (result: Result<(), RuntimeError>)
      requires Valid() && HeaderSurvives(cfg.codec, JournalHeader(cfg, documentId, sessionId, document))
      modifies this`savedRevision, this`persisted, this`file, this`disk, this`ledger, this`journalSequence
      ensures Valid()
      ensures !hasTarget ==> result == Err(NoSaveTarget)
      ensures hasTarget && !old(Dirty()) ==> result.Ok?
      ensures !hasTarget || !old(Dirty()) ==>
        disk == old(disk) && ledger == old(ledger) && journalSequence == old(journalSequence) && file == old(file)
      ensures result.Ok? && old(Dirty()) ==> Settled() && disk.base == document == ledger.root && !Dirty()
    {
      if !hasTarget {
        return Err(NoSaveTarget);
      }
      if !Dirty() {
        return Ok(());
      }
      result := SaveLocked(fault);
    }
  }

  /** A new session writes its base, its metadata and an empty journal before it exists. */
  method Create(
    cfg: SessionConfig, sessionId: Id, document: DeckDocument, file: Option<DeckDocument>)
    returns (result: Result<DocumentSession, RuntimeError>)
    requires cfg.maxHistoryEntries >= 1 && Lawful(cfg.codec)
    requires HeaderSurvives(cfg.codec, JournalHeader(cfg, document.id, sessionId, document))
    ensures result.Ok? ==>
      && fresh(result.value) && result.value.Valid() && result.value.Settled()
      && result.value.cfg == cfg && result.value.sessionId == sessionId && result.value.documentId == document.id
      && result.value.document == document && result.value.file == file
      && result.value.ledger == Ledger(document, [], None) && result.value.disk.base == document
    ensures result.Err? <==>
      var header := JournalHeader(cfg, document.id, sessionId, document);
      !WritableHeader(cfg.codec, header) || |HeaderBytes(cfg.codec, header)| > MAX_JOURNAL_BYTES
  {
    var journal := CreateJournalBytes(cfg.codec, JournalHeader(cfg, document.id, sessionId, document), []);
    if journal.Err? {
      return Err(JournalFailed);
    }
    var metadata := RecoveryMetadata(document.id, cfg.engine.revision(document), file.Some?);
    var disk := Disk(document, metadata, journal.value);
    FreshJournalAccounts(cfg, disk, sessionId, document);
    var session := new DocumentSession.Over(
      cfg, sessionId, disk, document, 0, file, Ledger(document, [], None));
    return Ok(session);
  }

  /**
   Recovery after a crash: reads the journal, truncates a torn tail, replays the records over the base.
   It succeeds exactly when `RecoverDisk` does, and the session it opens can crash and recover again.
   */
  method Recover(
    cfg: SessionConfig, disk: Disk, sessionId: Id, file: Option<DeckDocument>,
    ghost ledger: Ledger, ghost acknowledged: DeckDocument)
    returns (result: Result<DocumentSession, RuntimeError>, after: Disk)
    requires cfg.maxHistoryEntries >= 1
    requires Accounts(cfg, disk, sessionId, ledger, acknowledged)
    requires DigestsTellApart(cfg, disk.base, ledger.root)
    ensures result.Ok? <==> RecoverDisk(cfg, disk, sessionId).Ok?
    ensures result.Ok? ==>
      && fresh(result.value) && result.value.Valid() && result.value.Settled()
      && result.value.document == Reachable(cfg, disk, sessionId, ledger, acknowledged)
      && result.value.ledger == Ledger(ledger.root, Visible(cfg, disk, sessionId, ledger), None)
      && result.value.disk == after && result.value.file == file && result.value.undo == [] && result.value.redo == []
    ensures after == disk || after == disk.(journal := Repaired(cfg.codec, disk.journal))
  {
    hide Accounts, Reachable, Visible, JournalMatches, PendingIsWhole, Replay, Repaired, Folded, JournalHeader, WellKept;
    after := disk;
    var replay := ReplayJournal(cfg.codec, disk.journal);
    if replay.Err? {
      return Err(RecoveryUnreadable(replay.error)), after;
    }
    if replay.value.header != JournalHeader(cfg, disk.metadata.documentId, sessionId, disk.base) {
      return Err(RecoveryInvalid), after;
    }
    RepairIsTruncation(cfg.codec, disk.journal);
    if !replay.value.complete {
      after := disk.(journal := disk.journal[..replay.value.validByteLength]);
    }
    var folded := FoldRecords(cfg.engine, disk.base, replay.value.records);
    if folded.None? {
      return Err(RecoveryInvalid), after;
    }
    RecoveryIsExact(cfg, disk, sessionId, ledger, acknowledged);
    TruncationSettles(cfg, disk, sessionId, ledger, acknowledged);
    var session := new DocumentSession.Over(
      cfg, sessionId, after, folded.value, |replay.value.records|, file,
      Ledger(ledger.root, Visible(cfg, disk, sessionId, ledger), None));
    return Ok(session), after;
  }

  /**
   At any moment of any run, a crash leaves a disk from which recovery returns the acknowledged document,
   or that one and the single unacknowledged record, and never anything else.
   */
  lemma CrashLosesNothingAcknowledged(session: DocumentSession)
    requires session.Valid() && DigestsTellApart(session.cfg, session.disk.base, session.ledger.root)
    ensures var recovered := RecoverDisk(session.cfg, session.disk, session.sessionId);
      && (recovered.Ok? <==>
           session.disk.base == session.ledger.root && |OnDisk(session.ledger)| <= MAX_RECORDS)
      && (recovered.Ok? ==>
           recovered.value.document == session.document ||
           (session.ledger.pending.Some? &&
            Applied(session.cfg.engine, session.document, session.ledger.pending.value.content)
              == Some(recovered.value.document)))
      && (recovered.Ok? && session.ledger.pending.None? ==> recovered.value.document == session.document)
  {
    hide RecoverDisk, JournalMatches;
    RecoveryIsExact(session.cfg, session.disk, session.sessionId, session.ledger, session.document);
  }

  /**
   The rotation of a save is not atomic: when it stops between the base and the journal, a later edit is
   still acknowledged into the old journal whenever an ordinary one would be, and cannot be recovered.
   */
  method EditAfterInterruptedRotation(session: DocumentSession, request: ExecuteRequest)
    returns (edited: Result<(), RuntimeError>)
    requires session.Valid() && session.EditSurvives(request)
    requires HeaderSurvives(
      session.cfg.codec, JournalHeader(session.cfg, session.documentId, session.sessionId, session.document))
    requires session.cfg.digest(session.document) != session.cfg.digest(session.ledger.root)
    modifies session
    ensures session.Valid()
    ensures edited.Ok? <==>
      && old(session.Executable(request))
      && session.cfg.engine.transact(old(session.document), request.commands, request.metadata).Some?
      && var next := session.cfg.engine.transact(old(session.document), request.commands, request.metadata).value;
         Appended(
           session.cfg.codec, old(session.disk.journal),
           old(session.RecordFor(next, request.metadata, Journalled(request.commands)))).Ok?
    ensures edited.Ok? ==>
      && session.cfg.engine.transact(old(session.document), request.commands, request.metadata)
           == Some(session.document)
      && session.Settled()
      && session.ledger.acked == old(session.ledger.acked)
           + [old(session.RecordFor(
               session.cfg.engine.transact(session.document, request.commands, request.metadata).value,
               request.metadata, Journalled(request.commands)))]
    ensures RecoverDisk(session.cfg, session.disk, session.sessionId).Err?
    ensures session.file == Some(old(session.document))
  {
    hide RecoverDisk, Accounts, WellKept, Recorded, Appended, Survives, HeaderSurvives;
    var saved := session.SaveLocked(StopsAfter(1));
    edited := session.Execute(request, Appends);
    CrashLosesNothingAcknowledged(session);
  }
}
