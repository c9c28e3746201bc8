/**
 Concrete journals and sessions: inputs on which an acknowledged edit is lost. Every edit renames the deck
 to one letter more, and the codec writes numbers, so the conditions of the general statements are met here.
 */
module Witnesses {
  import opened Wrappers
  import opened ByteStrings
  import opened DeckModel
  import opened Commands
  import opened Engine
  import opened Journal
  import opened Recovery
  import opened Session

  function ZeroBytes(length: nat): (bytes: Bytes)
    ensures |bytes| == length
  {
    seq(length, i => 0)
  }

  function PlainDigest(digit: char): (text: string)
    requires '0' <= digit <= '9'
    ensures IsHexDigest(text) && |text| == 64 && text[0] == digit
  {
    seq(64, i => digit)
  }

  function NameAt(count: nat): (name: string)
    ensures |name| == count
  {
    seq(count, i => 'a')
  }

  function PlainMetadata(): Metadata {
    Metadata("", "", "", "", "")
  }

  function Renames(count: nat): seq<Command> {
    [DeckRename(NameAt(count))]
  }

  function PlainRecord(sequence: nat): Record {
    var before := if sequence == 0 then 0 else sequence - 1;
    Record(
      RecordContent(
        sequence, NameAt(before), NameAt(sequence), PlainMetadata(), [Edit(DeckRename(NameAt(sequence)))]),
      PlainDigest('0'))
  }

  function PlainHeader(digit: char): Header
    requires '0' <= digit <= '9'
  {
    Header("deck", PlainDigest(digit), "session")
  }

  function PlainCodec(): Codec {
    Codec(
      (header: Header) => if header.baseDigest == PlainDigest('0') then [0] else [1],
      (bytes: Bytes) => Some(PlainHeader(if bytes == [0] then '0' else '1')),
      (record: Record) =>
        if 0 <= record.content.sequence < 0x1_0000_0000 then Le32(record.content.sequence) else [],
      (bytes: Bytes) => if |bytes| == 4 then Some(PlainRecord(ReadLe32(bytes, 0))) else None,
      _ => PlainDigest('0'),
      _ => ZeroBytes(DIGEST_LENGTH))
  }

  lemma PlainRecordSurvives(sequence: nat)
    requires sequence < 0x1_0000_0000
    ensures Survives(PlainCodec(), PlainRecord(sequence))
    ensures |PlainCodec().encodeRecord(PlainRecord(sequence))| == 4
  {
    hide NameAt, PlainDigest;
    var bytes := Le32(sequence);
    assert bytes[0..4] == bytes;
    Le32ReadsBack(bytes, 0, sequence);
  }

  lemma PlainRecordIsWritable(sequence: nat)
    requires 0 < sequence < 0x1_0000_0000
    ensures Writable(PlainCodec(), PlainRecord(sequence), sequence)
    ensures SmallFrame(PlainCodec(), PlainRecord(sequence))
  {
    hide IsHexDigest, PlainDigest, NameAt, Survives;
    PlainRecordSurvives(sequence);
  }

  lemma PlainHeaderIsWritable(digit: char)
    requires digit == '0' || digit == '1'
    ensures Lawful(PlainCodec())
    ensures WritableHeader(PlainCodec(), PlainHeader(digit)) && HeaderSurvives(PlainCodec(), PlainHeader(digit))
    ensures |HeaderBytes(PlainCodec(), PlainHeader(digit))| <= SMALL_HEADER_BYTES
  {
    hide IsHexDigest, PlainDigest;
    assert PlainDigest(digit)[0] == digit;
  }

  function PlainRecords(count: nat): (records: seq<Record>)
    ensures |records| == count
  {
    seq(count, i requires 0 <= i < count => PlainRecord(i + 1))
  }

  lemma PlainJournalIsStored(count: nat)
    requires count < 0x1_0000_0000
    ensures Lawful(PlainCodec()) && Stored(PlainCodec(), PlainHeader('0'), PlainRecords(count))
    ensures |HeaderBytes(PlainCodec(), PlainHeader('0'))| <= SMALL_HEADER_BYTES
    ensures forall i | 0 <= i < count :: SmallFrame(PlainCodec(), PlainRecords(count)[i])
  {
    hide SmallFrame, Writable, Survives, Lawful, WritableHeader, HeaderSurvives, HeaderBytes;
    hide PlainCodec, PlainDigest, PlainRecord;
    PlainHeaderIsWritable('0');
    forall i | 0 <= i < count
      ensures Writable(PlainCodec(), PlainRecords(count)[i], i + 1)
      ensures SmallFrame(PlainCodec(), PlainRecords(count)[i]) && Survives(PlainCodec(), PlainRecords(count)[i])
    {
      PlainRecordIsWritable(i + 1);
      PlainRecordSurvives(i + 1);
    }
  }

  /** A journal of 100000 renames replays, one more append is acknowledged, and then nothing replays. */
  lemma AcknowledgedAppendLosesJournal()
    ensures var journal := PlainJournal(MAX_RECORDS);
      && Replay(PlainCodec(), journal).Ok?
      && Appended(PlainCodec(), journal, PlainRecord(MAX_RECORDS + 1)).Ok?
      && Replay(PlainCodec(), Appended(PlainCodec(), journal, PlainRecord(MAX_RECORDS + 1)).value).Err?
  {
    hide Replay, Appended, JournalBytes, Stored, Lawful, Writable, SmallFrame, PlainCodec, PlainRecord, PlainRecords;
    PlainJournalIsStored(MAX_RECORDS);
    PlainRecordIsWritable(MAX_RECORDS + 1);
    SmallRecordsOverfill(PlainCodec(), PlainHeader('0'), PlainRecords(MAX_RECORDS), PlainRecord(MAX_RECORDS + 1));
  }

  function PlainJournal(count: nat): Bytes
    requires count < 0x1_0000_0000
  {
    PlainJournalIsStored(count);
    JournalBytes(PlainCodec(), PlainHeader('0'), PlainRecords(count))
  }

  lemma PlainAppendSucceeds(count: nat)
    requires count <= MAX_RECORDS
    ensures Appended(PlainCodec(), PlainJournal(count), PlainRecord(count + 1)).Ok?
  {
    hide Replay, Appended, JournalBytes, WritableHeader, HeaderBytes, Writable, Survives, HeaderSurvives;
    hide PlainCodec, PlainHeader, PlainRecord, PlainRecords;
    PlainJournalIsStored(count);
    PlainRecordIsWritable(count + 1);
    SmallFramesAddUp(PlainCodec(), PlainHeader('0'), PlainRecords(count));
    AppendExtendsJournal(PlainCodec(), PlainHeader('0'), PlainRecords(count), PlainRecord(count + 1));
  }

  function PlainDeck(count: nat): DeckDocument {
    DeckDocument("deck", NameAt(count), 1.0, 1.0, false, ThemeBackground, "", [], [], [], [], [])
  }

  function PlainEngine(): Engine {
    Engine(
      (document: DeckDocument, commands: seq<Command>, metadata: Metadata) =>
        if |commands| == 1 && commands[0].DeckRename? then Some(document.(name := commands[0].name)) else None,
      (document: DeckDocument) => document.name)
  }

  function PlainConfig(): SessionConfig {
    SessionConfig(
      PlainEngine(), PlainCodec(), (document: DeckDocument) => PlainDigest(if document.name == "" then '0' else '1'),
      (text: string) => text == "", 100)
  }

  function RenameRequest(count: nat): ExecuteRequest
    requires count > 0
  {
    ExecuteRequest(NameAt(count - 1), Renames(count), PlainMetadata(), None)
  }

  lemma PlainHeaderOf(count: nat)
    ensures JournalHeader(PlainConfig(), "deck", "session", PlainDeck(count))
      == PlainHeader(if count == 0 then '0' else '1')
  {
    hide PlainDigest, NameAt, PlainCodec;
    assert NameAt(count) == "" <==> count == 0;
  }

  lemma RenameRuns(count: nat)
    requires count > 0
    ensures PlainConfig().engine.revision(PlainDeck(count)) == NameAt(count)
    ensures PlainConfig().engine.transact(PlainDeck(count - 1), Renames(count), PlainMetadata())
      == Some(PlainDeck(count))
    ensures CreateJournalRecord(
        PlainCodec(),
        RecordContent(count, NameAt(count - 1), NameAt(count), PlainMetadata(), Journalled(Renames(count))))
      == PlainRecord(count)
  {
    hide PlainDigest, NameAt;
    assert Renames(count)[1..] == [];
    assert Journalled(Renames(count)) == [Edit(DeckRename(NameAt(count)))];
  }

  /** A settled session behind `count` acknowledged renames. */
  ghost predicate Renamed(session: DocumentSession, count: nat)
    reads session
  {
    && session.Valid() && session.Settled()
    && session.cfg == PlainConfig() && session.sessionId == "session" && session.documentId == "deck"
    && session.document == PlainDeck(count) && session.ledger == Ledger(PlainDeck(0), PlainRecords(count), None)
  }

  lemma SettledJournalIs(cfg: SessionConfig, disk: Disk, sessionId: Id, ledger: Ledger, document: DeckDocument)
    requires Accounts(cfg, disk, sessionId, ledger, document) && ledger.pending.None?
    ensures var header := JournalHeader(cfg, disk.metadata.documentId, sessionId, ledger.root);
      Stored(cfg.codec, header, ledger.acked) && disk.journal == JournalBytes(cfg.codec, header, ledger.acked)
  {
  }

  /** The next rename would be acknowledged. */
  lemma NextRenameSucceeds(session: DocumentSession, count: nat)
    requires count < MAX_RECORDS && Renamed(session, count)
    ensures session.Executable(RenameRequest(count + 1)) && session.EditSurvives(RenameRequest(count + 1))
    ensures session.cfg.engine.transact(session.document, Renames(count + 1), PlainMetadata())
      == Some(PlainDeck(count + 1))
    ensures session.RecordFor(PlainDeck(count + 1), PlainMetadata(), Journalled(Renames(count + 1)))
      == PlainRecord(count + 1)
    ensures Appended(session.cfg.codec, session.disk.journal, PlainRecord(count + 1)).Ok?
    ensures HeaderSurvives(
      session.cfg.codec, JournalHeader(session.cfg, session.documentId, session.sessionId, session.document))
  {
    hide Appended, Accounts, JournalBytes, Stored, PlainCodec, PlainDeck, PlainRecord, PlainRecords, PlainDigest;
    hide HeaderSurvives, Survives, Journalled, CreateJournalRecord, JournalHeader, PlainHeader, NameAt, PlainEngine;
    SettledJournalIs(session.cfg, session.disk, session.sessionId, session.ledger, session.document);
    PlainHeaderOf(0);
    PlainHeaderOf(count);
    PlainHeaderIsWritable(if count == 0 then '0' else '1');
    RenameRuns(count + 1);
    PlainAppendSucceeds(count);
    PlainRecordSurvives(count + 1);
    PlainRevision(count);
  }

  lemma PlainRevision(count: nat)
    ensures PlainConfig().engine.revision(PlainDeck(count)) == NameAt(count)
  {
  }

  lemma PlainDigestsDiffer(count: nat)
    requires count > 0
    ensures PlainConfig().digest(PlainDeck(count)) != PlainConfig().digest(PlainDeck(0))
  {
    hide NameAt, PlainDigest, PlainCodec;
    assert NameAt(count) != "" && NameAt(0) == "";
    assert PlainDigest('0')[0] != PlainDigest('1')[0];
  }

  lemma PlainRecordsGrow(count: nat)
    ensures PlainRecords(count + 1) == PlainRecords(count) + [PlainRecord(count + 1)]
  {
  }

  method PlainSession() returns (session: DocumentSession)
    ensures fresh(session) && Renamed(session, 0)
  {
    hide Accounts, JournalBytes, Stored, PlainCodec, PlainDigest;
    PlainHeaderIsWritable('0');
    PlainHeaderOf(0);
    var created := Create(PlainConfig(), "session", PlainDeck(0), None);
    session := created.value;
  }

  /** The second of two acknowledged renames is lost, because a rotation stopped between them. */
  method AcknowledgedEditIsLost() returns (session: DocumentSession)
    ensures fresh(session) && session.Valid() && session.Settled()
    ensures session.document == PlainDeck(2) && session.ledger.acked == PlainRecords(2)
    ensures session.file == Some(PlainDeck(1))
    ensures RecoverDisk(session.cfg, session.disk, session.sessionId).Err?
  {
    hide Appended, Accounts, JournalBytes, Stored, PlainConfig, PlainDeck, RecoverDisk, PlainRecord;
    session := PlainSession();
    NextRenameSucceeds(session, 0);
    var first := session.Execute(RenameRequest(1), Appends);
    PlainRecordsGrow(0);
    assert Renamed(session, 1);
    NextRenameSucceeds(session, 1);
    PlainDigestsDiffer(1);
    PlainRecordsGrow(1);
    var second := EditAfterInterruptedRotation(session, RenameRequest(2));
  }
}
