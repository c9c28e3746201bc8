/** Crash recovery of a session: what is on disk, and what recovery makes of it. */
module Recovery {
  import opened Wrappers
  import opened ByteStrings
  import opened DeckModel
  import opened Commands
  import opened Engine
  import opened Journal

  datatype RuntimeError =
    | InvalidRequest | RevisionConflict | TransactionRefused | JournalFailed | SaveFailed | NoSaveTarget
    | RecoveryInvalid | RecoveryUnreadable(cause: JournalError)

  datatype RecoveryMetadata = RecoveryMetadata(documentId: Id, savedRevision: Revision, persisted: bool)

  /** The three recovery files of one session. */
  datatype Disk = Disk(base: DeckDocument, metadata: RecoveryMetadata, journal: Bytes)

  datatype SessionConfig = SessionConfig(
    engine: Engine, codec: Codec, digest: DeckDocument -> string, isBlank: string -> bool, maxHistoryEntries: nat)

  /** SHA-256 over canonical JSON, taken as telling these two documents apart. */
  predicate DigestsTellApart(cfg: SessionConfig, left: DeckDocument, right: DeckDocument) {
    cfg.digest(left) == cfg.digest(right) ==> left == right
  }

  function JournalHeader(cfg: SessionConfig, documentId: Id, sessionId: Id, base: DeckDocument): Header {
    Header(documentId, cfg.digest(base), sessionId)
  }

  // ----- Replaying records -----

  function EditsOf(commands: seq<JournalCommand>): Option<seq<Command>> {
    if commands == [] then Some([])
    else
      var rest := EditsOf(commands[1..]);
      if commands[0].Edit? && rest.Some? then Some([commands[0].command] + rest.value) else None
  }

  function Journalled(commands: seq<Command>): seq<JournalCommand> {
    if commands == [] then [] else [Edit(commands[0])] + Journalled(commands[1..])
  }

  lemma {:induction false} EditsComeBack(commands: seq<Command>)
    ensures |Journalled(commands)| == |commands| && EditsOf(Journalled(commands)) == Some(commands)
  {
    if commands != [] {
      EditsComeBack(commands[1..]);
      assert Journalled(commands)[1..] == Journalled(commands[1..]);
      assert [commands[0]] + commands[1..] == commands;
    }
  }

  function Performed(engine: Engine, document: DeckDocument, content: RecordContent): Option<DeckDocument> {
    if |content.commands| == 1 && content.commands[0].Restore? then Some(content.commands[0].document)
    else
      var edits := EditsOf(content.commands);
      if edits.Some? then engine.transact(document, edits.value, content.metadata) else None
  }

  /** Replaying a journalled edit performs the same transaction. */
  lemma JournalledEditsPerform(engine: Engine, document: DeckDocument, content: RecordContent, commands: seq<Command>)
    requires content.commands == Journalled(commands)
    ensures Performed(engine, document, content) == engine.transact(document, commands, content.metadata)
  {
    EditsComeBack(commands);
  }

  /** One step of recovery: the record must continue the document and arrive where it says. */
  function Applied(engine: Engine, document: DeckDocument, content: RecordContent): Option<DeckDocument> {
    if content.previousRevision != engine.revision(document) then None
    else
      var next := Performed(engine, document, content);
      if next.Some? && engine.revision(next.value) == content.revision then next else None
  }

  /** The document a base and its records stand for. */
  function Folded(engine: Engine, base: DeckDocument, records: seq<Record>): Option<DeckDocument> {
    if records == [] then Some(base)
    else
      var before := Folded(engine, base, records[..|records| - 1]);
      if before.None? then None else Applied(engine, before.value, records[|records| - 1].content)
  }

  lemma {:induction false} BrokenChainStaysBroken(engine: Engine, base: DeckDocument, records: seq<Record>, k: nat)
    requires k <= |records| && Folded(engine, base, records[..k]).None?
    ensures Folded(engine, base, records).None?
    decreases |records|
  {
    if k == |records| {
      assert records[..k] == records;
    } else {
      var shorter := records[..|records| - 1];
      assert shorter[..k] == records[..k];
      BrokenChainStaysBroken(engine, base, shorter, k);
    }
  }

  method FoldRecords(engine: Engine, base: DeckDocument, records: seq<Record>) returns (document: Option<DeckDocument>)
    ensures document == Folded(engine, base, records)
  {
    var current := base;
    for i := 0 to |records|
      invariant Folded(engine, base, records[..i]) == Some(current)
    {
      assert records[..i + 1][..i] == records[..i];
      var next := Applied(engine, current, records[i].content);
      if next.None? {
        BrokenChainStaysBroken(engine, base, records, i + 1);
        return None;
      }
      current := next.value;
    }
    assert records[..|records|] == records;
    return Some(current);
  }

  datatype Recovered = Recovered(document: DeckDocument, records: seq<Record>, journal: Bytes)

  lemma RepairIsTruncation(codec: Codec, journal: Bytes)
    requires Replay(codec, journal).Ok?
    ensures Replay(codec, journal).value.validByteLength <= |journal|
    ensures Repaired(codec, journal) ==
      if Replay(codec, journal).value.complete then journal
      else journal[..Replay(codec, journal).value.validByteLength]
  {
    hide Replay;
    TruncationRepairs(codec, journal);
    assert journal[..|journal|] == journal;
  }

  /** What recovery returns for a disk, and the journal it leaves behind. */
  function RecoverDisk(cfg: SessionConfig, disk: Disk, sessionId: Id): Result<Recovered, RuntimeError> {
    var replay := Replay(cfg.codec, disk.journal);
    if replay.Err? then Err(RecoveryUnreadable(replay.error))
    else if replay.value.header != JournalHeader(cfg, disk.metadata.documentId, sessionId, disk.base)
    then Err(RecoveryInvalid)
    else
      var folded := Folded(cfg.engine, disk.base, replay.value.records);
      if folded.None? then Err(RecoveryInvalid)
      else Ok(Recovered(folded.value, replay.value.records, Repaired(cfg.codec, disk.journal)))
  }

  // ----- What the disk stands for -----

  /**
   Ghost account of a journal: the document its header was written for, the acknowledged records,
   and the record of an append that was not acknowledged but left bytes behind.
   */
  datatype Ledger = Ledger(root: DeckDocument, acked: seq<Record>, pending: Option<Record>)

  function OnDisk(ledger: Ledger): seq<Record> {
    if ledger.pending.Some? then ledger.acked + [ledger.pending.value] else ledger.acked
  }

  ghost predicate JournalMatches(codec: Codec, header: Header, journal: Bytes, ledger: Ledger) {
    && Stored(codec, header, OnDisk(ledger)) && |OnDisk(ledger)| <= MAX_RECORDS + 1
    && |journal| <= MAX_JOURNAL_BYTES
    && var all := JournalBytes(codec, header, OnDisk(ledger));
       if ledger.pending.None? then journal == all
       else Boundary(codec, header, OnDisk(ledger), |ledger.acked|) < |journal| <= |all| && journal == all[..|journal|]
  }

  /** The journal on disk accounts for the acknowledged document. */
  ghost predicate Accounts(cfg: SessionConfig, disk: Disk, sessionId: Id, ledger: Ledger, document: DeckDocument) {
    && Lawful(cfg.codec)
    && JournalMatches(
         cfg.codec, JournalHeader(cfg, disk.metadata.documentId, sessionId, ledger.root), disk.journal, ledger)
    && Folded(cfg.engine, ledger.root, ledger.acked) == Some(document)
    && (ledger.pending.Some? ==> Applied(cfg.engine, document, ledger.pending.value.content).Some?)
  }

  /** Whether the unacknowledged record made it to disk whole. */
  ghost predicate PendingIsWhole(cfg: SessionConfig, disk: Disk, sessionId: Id, ledger: Ledger)
    requires JournalMatches(
      cfg.codec, JournalHeader(cfg, disk.metadata.documentId, sessionId, ledger.root), disk.journal, ledger)
  {
    var header := JournalHeader(cfg, disk.metadata.documentId, sessionId, ledger.root);
    ledger.pending.Some? && disk.journal == JournalBytes(cfg.codec, header, OnDisk(ledger))
  }

  lemma AccountIsLawful(cfg: SessionConfig, disk: Disk, sessionId: Id, ledger: Ledger, document: DeckDocument)
    requires Accounts(cfg, disk, sessionId, ledger, document)
    ensures Lawful(cfg.codec)
  {
  }

  lemma SettledJournalReplays(codec: Codec, header: Header, journal: Bytes, ledger: Ledger)
    requires Lawful(codec) && JournalMatches(codec, header, journal, ledger) && ledger.pending.None?
    ensures Replay(codec, journal) ==
      if |ledger.acked| <= MAX_RECORDS then Ok(Replayed(header, ledger.acked, true, |journal|, None))
      else Replay(codec, journal)
    ensures |ledger.acked| > MAX_RECORDS ==> Replay(codec, journal).Err?
  {
    if |ledger.acked| <= MAX_RECORDS {
      JournalRoundTrip(codec, header, ledger.acked);
    } else {
      FrameInPlace(codec, header, ledger.acked, MAX_RECORDS);
      assert journal[..|journal|] == journal;
      OverfullJournalIsRefused(codec, header, ledger.acked, |journal|);
    }
  }

  lemma PendingJournalReplays(codec: Codec, header: Header, journal: Bytes, ledger: Ledger)
    requires Lawful(codec) && JournalMatches(codec, header, journal, ledger) && ledger.pending.Some?
    ensures |OnDisk(ledger)| > MAX_RECORDS ==> Replay(codec, journal).Err?
    ensures |OnDisk(ledger)| <= MAX_RECORDS ==>
      && Replay(codec, journal).Ok? && Replay(codec, journal).value.header == header
      && var whole := journal == JournalBytes(codec, header, OnDisk(ledger));
         && Replay(codec, journal).value.complete == whole
         && Replay(codec, journal).value.records == (if whole then OnDisk(ledger) else ledger.acked)
         && Repaired(codec, journal)
              == JournalBytes(codec, header, if whole then OnDisk(ledger) else ledger.acked)
  {
    var all := OnDisk(ledger);
    var n := |ledger.acked|;
    assert all[..n] == ledger.acked && all[..n + 1] == all;
    if |all| > MAX_RECORDS {
      OverfullJournalIsRefused(codec, header, all, |journal|);
    } else {
      JournalGrows(codec, header, all, 0);
      assert all[..0] == [];
      JournalCut(codec, header, all, |journal|);
      CutIsInLastFrame(codec, header, all, |journal|);
      JournalGrows(codec, header, all, n);
    }
  }

  lemma CutIsInLastFrame(codec: Codec, header: Header, records: seq<Record>, cut: nat)
    requires WritableHeader(codec, header) && AllWritable(codec, records) && records != []
    requires Boundary(codec, header, records, |records| - 1) < cut <= |JournalBytes(codec, header, records)|
    ensures |HeaderBytes(codec, header)| <= cut
    ensures WholeRecords(codec, header, records, cut) ==
      if cut == |JournalBytes(codec, header, records)| then |records| else |records| - 1
  {
  }

  /** The records recovery can still see. */
  ghost function Visible(cfg: SessionConfig, disk: Disk, sessionId: Id, ledger: Ledger): seq<Record>
    requires JournalMatches(
      cfg.codec, JournalHeader(cfg, disk.metadata.documentId, sessionId, ledger.root), disk.journal, ledger)
  {
    if PendingIsWhole(cfg, disk, sessionId, ledger) then OnDisk(ledger) else ledger.acked
  }

  lemma AccountedJournalReplays(cfg: SessionConfig, disk: Disk, sessionId: Id, ledger: Ledger, document: DeckDocument)
    requires Accounts(cfg, disk, sessionId, ledger, document)
    ensures var header := JournalHeader(cfg, disk.metadata.documentId, sessionId, ledger.root);
      if |OnDisk(ledger)| > MAX_RECORDS then Replay(cfg.codec, disk.journal).Err?
      else
        && Replay(cfg.codec, disk.journal).Ok?
        && Replay(cfg.codec, disk.journal).value.header == header
        && Replay(cfg.codec, disk.journal).value.records == Visible(cfg, disk, sessionId, ledger)
        && Repaired(cfg.codec, disk.journal)
             == JournalBytes(cfg.codec, header, Visible(cfg, disk, sessionId, ledger))
  {
    var header := JournalHeader(cfg, disk.metadata.documentId, sessionId, ledger.root);
    if ledger.pending.None? {
      SettledJournalReplays(cfg.codec, header, disk.journal, ledger);
      assert disk.journal[..|disk.journal|] == disk.journal;
    } else {
      PendingJournalReplays(cfg.codec, header, disk.journal, ledger);
    }
  }

  /** The document behind the visible records: the acknowledged one, or that one and the unacknowledged edit. */
  ghost function Reachable(
    cfg: SessionConfig, disk: Disk, sessionId: Id, ledger: Ledger, document: DeckDocument): DeckDocument
    requires Accounts(cfg, disk, sessionId, ledger, document)
  {
    if PendingIsWhole(cfg, disk, sessionId, ledger)
    then Applied(cfg.engine, document, ledger.pending.value.content).value
    else document
  }

  lemma VisibleRecordsFold(cfg: SessionConfig, disk: Disk, sessionId: Id, ledger: Ledger, document: DeckDocument)
    requires Accounts(cfg, disk, sessionId, ledger, document)
    ensures Folded(cfg.engine, ledger.root, Visible(cfg, disk, sessionId, ledger))
      == Some(Reachable(cfg, disk, sessionId, ledger, document))
  {
    if ledger.pending.Some? {
      assert OnDisk(ledger)[..|ledger.acked|] == ledger.acked;
    }
  }

  /**
   Crash recovery, from any disk a session can leave behind: it succeeds exactly when the base on disk is
   the document the journal was started from and the journal is not overfull, and then it returns the last
   acknowledged document, extended by the one unacknowledged record if that record is whole on disk.
   */
  lemma RecoveryIsExact(cfg: SessionConfig, disk: Disk, sessionId: Id, ledger: Ledger, document: DeckDocument)
    requires Accounts(cfg, disk, sessionId, ledger, document)
    requires DigestsTellApart(cfg, disk.base, ledger.root)
    ensures RecoverDisk(cfg, disk, sessionId).Ok? <==>
      disk.base == ledger.root && |OnDisk(ledger)| <= MAX_RECORDS
    ensures RecoverDisk(cfg, disk, sessionId).Ok? ==>
      && RecoverDisk(cfg, disk, sessionId).value.document == Reachable(cfg, disk, sessionId, ledger, document)
      && RecoverDisk(cfg, disk, sessionId).value.records == Visible(cfg, disk, sessionId, ledger)
  {
    AccountedJournalReplays(cfg, disk, sessionId, ledger, document);
    VisibleRecordsFold(cfg, disk, sessionId, ledger, document);
  }

  /** Truncating behind the visible records leaves a settled account of the document they stand for. */
  lemma TruncationSettles(cfg: SessionConfig, disk: Disk, sessionId: Id, ledger: Ledger, document: DeckDocument)
    requires Accounts(cfg, disk, sessionId, ledger, document) && |OnDisk(ledger)| <= MAX_RECORDS
    ensures JournalMatches(
      cfg.codec, JournalHeader(cfg, disk.metadata.documentId, sessionId, ledger.root), disk.journal, ledger)
    ensures Accounts(
      cfg, disk.(journal := Repaired(cfg.codec, disk.journal)), sessionId,
      Ledger(ledger.root, Visible(cfg, disk, sessionId, ledger), None),
      Reachable(cfg, disk, sessionId, ledger, document))
  {
    hide Repaired, Replay;
    AccountedJournalReplays(cfg, disk, sessionId, ledger, document);
    VisibleRecordsFold(cfg, disk, sessionId, ledger, document);
    VisibleJournalIsShorter(
      cfg.codec, JournalHeader(cfg, disk.metadata.documentId, sessionId, ledger.root), disk.journal, ledger);
  }

  lemma VisibleJournalIsShorter(codec: Codec, header: Header, journal: Bytes, ledger: Ledger)
    requires JournalMatches(codec, header, journal, ledger)
    ensures Stored(codec, header, ledger.acked) && |JournalBytes(codec, header, ledger.acked)| <= |journal|
  {
    assert OnDisk(ledger)[..|ledger.acked|] == ledger.acked;
    if ledger.pending.Some? {
      JournalGrows(codec, header, OnDisk(ledger), |ledger.acked|);
    }
  }

  // ----- Appending -----

  /** An append only succeeds on a settled journal whose sequence number the session still tracks. */
  lemma AppendNeedsSettledJournal(
    cfg: SessionConfig, disk: Disk, sessionId: Id, ledger: Ledger, document: DeckDocument, record: Record)
    requires Accounts(cfg, disk, sessionId, ledger, document)
    requires ledger.pending.Some? ==> record.content.sequence == |ledger.acked| + 1
    requires Appended(cfg.codec, disk.journal, record).Ok?
    ensures ledger.pending.None? && |ledger.acked| <= MAX_RECORDS
    ensures record.content.sequence == |ledger.acked| + 1
    ensures var header := JournalHeader(cfg, disk.metadata.documentId, sessionId, ledger.root);
      && AllWritable(cfg.codec, ledger.acked + [record])
      && Appended(cfg.codec, disk.journal, record).value
           == JournalBytes(cfg.codec, header, ledger.acked + [record])
  {
    var header := JournalHeader(cfg, disk.metadata.documentId, sessionId, ledger.root);
    if ledger.pending.None? {
      SettledJournalReplays(cfg.codec, header, disk.journal, ledger);
      AppendExtendsJournal(cfg.codec, header, ledger.acked, record);
    } else {
      PendingJournalReplays(cfg.codec, header, disk.journal, ledger);
      assert false;
    }
  }

  /** An acknowledged append accounts for the new document. */
  lemma AppendAccounts(
    cfg: SessionConfig, disk: Disk, sessionId: Id, ledger: Ledger, document: DeckDocument, record: Record,
    after: DeckDocument)
    requires Accounts(cfg, disk, sessionId, ledger, document)
    requires ledger.pending.Some? ==> record.content.sequence == |ledger.acked| + 1
    requires Appended(cfg.codec, disk.journal, record).Ok? && Survives(cfg.codec, record)
    requires Applied(cfg.engine, document, record.content) == Some(after)
    ensures Accounts(
      cfg, disk.(journal := Appended(cfg.codec, disk.journal, record).value), sessionId,
      Ledger(ledger.root, ledger.acked + [record], None), after)
  {
    AppendNeedsSettledJournal(cfg, disk, sessionId, ledger, document, record);
    assert (ledger.acked + [record])[..|ledger.acked|] == ledger.acked;
  }

  /** An append that fails after some bytes still accounts for the old document. */
  lemma TornAppendAccounts(
    cfg: SessionConfig, disk: Disk, sessionId: Id, ledger: Ledger, document: DeckDocument, record: Record, cut: nat)
    requires Accounts(cfg, disk, sessionId, ledger, document)
    requires ledger.pending.Some? ==> record.content.sequence == |ledger.acked| + 1
    requires Appended(cfg.codec, disk.journal, record).Ok? && Survives(cfg.codec, record)
    requires Applied(cfg.engine, document, record.content).Some?
    requires |disk.journal| < cut <= |Appended(cfg.codec, disk.journal, record).value|
    ensures Accounts(
      cfg, disk.(journal := Appended(cfg.codec, disk.journal, record).value[..cut]), sessionId,
      Ledger(ledger.root, ledger.acked, Some(record)), document)
  {
    AppendNeedsSettledJournal(cfg, disk, sessionId, ledger, document, record);
    assert (ledger.acked + [record])[..|ledger.acked|] == ledger.acked;
  }

  /** A freshly written journal accounts for the document it was started from. */
  lemma FreshJournalAccounts(cfg: SessionConfig, disk: Disk, sessionId: Id, document: DeckDocument)
    requires Lawful(cfg.codec)
    requires WritableHeader(cfg.codec, JournalHeader(cfg, disk.metadata.documentId, sessionId, document))
    requires HeaderSurvives(cfg.codec, JournalHeader(cfg, disk.metadata.documentId, sessionId, document))
    requires disk.journal
      == JournalBytes(cfg.codec, JournalHeader(cfg, disk.metadata.documentId, sessionId, document), [])
    requires |disk.journal| <= MAX_JOURNAL_BYTES
    ensures Accounts(cfg, disk, sessionId, Ledger(document, [], None), document)
  {
  }

  /** The account is one of the journal alone: rotating the base or the metadata does not disturb it. */
  lemma AccountIgnoresBase(
    cfg: SessionConfig, disk: Disk, sessionId: Id, ledger: Ledger, document: DeckDocument,
    base: DeckDocument, metadata: RecoveryMetadata)
    requires Accounts(cfg, disk, sessionId, ledger, document) && metadata.documentId == disk.metadata.documentId
    ensures Accounts(cfg, disk.(base := base, metadata := metadata), sessionId, ledger, document)
  {
  }
}
