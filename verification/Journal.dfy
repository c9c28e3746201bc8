/** The recovery journal: checksummed length-prefixed frames behind a magic string and a header frame. */
module Journal {
  import opened Wrappers
  import opened ByteStrings
  import opened DeckModel
  import opened Commands
  import opened Engine

  const DIGEST_LENGTH := 32
  const MAX_HEADER_BYTES := 64 * 1024
  const MAX_RECORD_BYTES := 2 * 1024 * 1024
  const MAX_JOURNAL_BYTES := 64 * 1024 * 1024
  const MAX_RECORDS := 100_000

  /** `HDECKJ1` and a line feed, in ASCII. */
  const MAGIC: Bytes := [72, 68, 69, 67, 75, 74, 49, 10]

  datatype JournalError = InvalidJournal | JournalLimitExceeded

  datatype Header = Header(documentId: Id, baseDigest: string, sessionId: Id)

  /** A journalled command: an edit, or the document an undo or redo went back to. */
  datatype JournalCommand = Edit(command: Command) | Restore(document: DeckDocument)

  datatype RecordContent = RecordContent(
    sequence: int, previousRevision: Revision, revision: Revision, metadata: Metadata, commands: seq<JournalCommand>)

  datatype Record = Record(content: RecordContent, checksum: string)

  datatype StopReason = TruncatedFrame | InvalidFrame | InvalidRecord

  datatype Replayed = Replayed(
    header: Header, records: seq<Record>, complete: bool, validByteLength: nat, stopped: Option<StopReason>)

  /** Canonical JSON in UTF-8 and SHA-256, as functions; decoding gives `None` where parsing would throw. */
  datatype Codec = Codec(
    encodeHeader: Header -> Bytes, decodeHeader: Bytes -> Option<Header>,
    encodeRecord: Record -> Bytes, decodeRecord: Bytes -> Option<Record>,
    checksum: RecordContent -> string, digest: Bytes -> Bytes)

  /** The digest behind a frame has its fixed length. */
  ghost predicate Lawful(codec: Codec) {
    forall payload :: |codec.digest(payload)| == DIGEST_LENGTH
  }

  /** The codec reads this header, or this record, back from the bytes it writes for it. */
  predicate HeaderSurvives(codec: Codec, header: Header) {
    codec.decodeHeader(codec.encodeHeader(header)) == Some(header)
  }

  predicate Survives(codec: Codec, record: Record) {
    codec.decodeRecord(codec.encodeRecord(record)) == Some(record)
  }

  predicate IsHexDigest(text: string) {
    |text| == 64 && forall c | c in text :: '0' <= c <= '9' || 'a' <= c <= 'f'
  }

  function CheckedHeader(header: Header): Option<Header> {
    if IsHexDigest(header.baseDigest) then Some(header) else None
  }

  predicate AcceptsRecord(codec: Codec, record: Record, expectedSequence: int) {
    && record.content.sequence == expectedSequence
    && IsHexDigest(record.checksum)
    && 1 <= |record.content.commands| <= 100
    && record.checksum == codec.checksum(record.content)
  }

  function CreateJournalRecord(codec: Codec, content: RecordContent): Record {
    Record(content, codec.checksum(content))
  }

  // ----- Frames -----

  function Frame(codec: Codec, payload: Bytes): Bytes
    requires |payload| < 0x1_0000_0000
  {
    Le32(|payload|) + payload + codec.digest(payload)
  }

  predicate FrameFits(payload: Bytes, maximum: nat) {
    0 < |payload| <= maximum
  }

  function EncodeFrame(codec: Codec, payload: Bytes, maximum: nat): Result<Bytes, JournalError>
    requires maximum < 0x1_0000_0000
  {
    if FrameFits(payload, maximum) then Ok(Frame(codec, payload)) else Err(JournalLimitExceeded)
  }

  datatype FrameRead = Whole(payload: Bytes, next: nat) | CutShort | Corrupt

  function ReadFrame(codec: Codec, source: Bytes, offset: nat, maximum: nat): (read: FrameRead)
    requires offset <= |source|
    ensures read.Whole? ==> offset + 4 < read.next <= |source|
  {
    if |source| - offset < 4 then CutShort
    else
      var length := ReadLe32(source, offset);
      if length == 0 || length > maximum then Corrupt
      else
        var digestStart := offset + 4 + length;
        var next := digestStart + DIGEST_LENGTH;
        if next > |source| then CutShort
        else
          var payload := source[offset + 4..digestStart];
          if source[digestStart..next] != codec.digest(payload) then Corrupt else Whole(payload, next)
  }

  /** A frame standing anywhere in a byte string is read back whole. */
  lemma FrameReadsBack(codec: Codec, source: Bytes, offset: nat, payload: Bytes, maximum: nat)
    requires Lawful(codec) && maximum < 0x1_0000_0000 && FrameFits(payload, maximum)
    requires offset + |Frame(codec, payload)| <= |source|
    requires source[offset..offset + |Frame(codec, payload)|] == Frame(codec, payload)
    ensures ReadFrame(codec, source, offset, maximum) == Whole(payload, offset + |Frame(codec, payload)|)
  {
    var frame := Frame(codec, payload);
    var taken := source[offset..offset + |frame|];
    var digestStart := offset + 4 + |payload|;
    assert source[offset..offset + 4] == taken[..4] == Le32(|payload|);
    Le32ReadsBack(source, offset, |payload|);
    assert source[offset + 4..digestStart] == taken[4..4 + |payload|] == payload;
    assert source[digestStart..offset + |frame|] == taken[4 + |payload|..] == codec.digest(payload);
  }

  /** A proper prefix of a frame at the end of a byte string is reported as cut short, never as corrupt. */
  lemma TornFrameIsCutShort(codec: Codec, source: Bytes, offset: nat, payload: Bytes, maximum: nat)
    requires Lawful(codec) && maximum < 0x1_0000_0000 && FrameFits(payload, maximum)
    requires offset <= |source| < offset + |Frame(codec, payload)|
    requires source[offset..] == Frame(codec, payload)[..|source| - offset]
    ensures ReadFrame(codec, source, offset, maximum) == CutShort
  {
    if |source| - offset >= 4 {
      assert source[offset..offset + 4] == source[offset..][..4] == Le32(|payload|);
      Le32ReadsBack(source, offset, |payload|);
    }
  }

  /** Reading a frame looks at nothing behind it. */
  lemma FrameReadIsLocal(codec: Codec, source: Bytes, offset: nat, maximum: nat, cut: nat)
    requires offset <= |source| && ReadFrame(codec, source, offset, maximum).Whole?
    requires ReadFrame(codec, source, offset, maximum).next <= cut <= |source|
    ensures ReadFrame(codec, source[..cut], offset, maximum) == ReadFrame(codec, source, offset, maximum)
  {
    var read := ReadFrame(codec, source, offset, maximum);
    var prefix := source[..cut];
    assert ReadLe32(prefix, offset) == ReadLe32(source, offset);
    var digestStart := offset + 4 + |read.payload|;
    assert prefix[offset + 4..digestStart] == source[offset + 4..digestStart];
    assert prefix[digestStart..read.next] == source[digestStart..read.next];
  }

  // ----- Replay -----

  function DecodeAccepted(codec: Codec, payload: Bytes, expectedSequence: int): Option<Record> {
    var record := codec.decodeRecord(payload);
    if record.Some? && AcceptsRecord(codec, record.value, expectedSequence) then record else None
  }

  /** What the replay loop still returns when it stands at `cursor` with `records` behind it. */
  function ReplayFrom(codec: Codec, source: Bytes, header: Header, cursor: nat, records: seq<Record>)
    : (result: Result<Replayed, JournalError>)
    requires cursor <= |source|
    decreases |source| - cursor
  {
    if cursor == |source| then Ok(Replayed(header, records, true, cursor, None))
    else if |records| >= MAX_RECORDS then Err(JournalLimitExceeded)
    else
      match ReadFrame(codec, source, cursor, MAX_RECORD_BYTES)
      case CutShort => Ok(Replayed(header, records, false, cursor, Some(TruncatedFrame)))
      case Corrupt => Ok(Replayed(header, records, false, cursor, Some(InvalidFrame)))
      case Whole(payload, next) =>
        var record := DecodeAccepted(codec, payload, |records| + 1);
        if record.None? then Ok(Replayed(header, records, false, cursor, Some(InvalidRecord)))
        else ReplayFrom(codec, source, header, next, records + [record.value])
  }

  /** The header and the offset behind its frame. */
  function ReadHeader(codec: Codec, source: Bytes): (result: Result<(Header, nat), JournalError>)
    ensures result.Ok? ==> |MAGIC| <= result.value.1 <= |source|
  {
    if |source| > MAX_JOURNAL_BYTES then Err(JournalLimitExceeded)
    else if |source| < |MAGIC| || source[..|MAGIC|] != MAGIC then Err(InvalidJournal)
    else
      match ReadFrame(codec, source, |MAGIC|, MAX_HEADER_BYTES)
      case CutShort => Err(InvalidJournal)
      case Corrupt => Err(InvalidJournal)
      case Whole(payload, next) =>
        var header := codec.decodeHeader(payload);
        if header.Some? && CheckedHeader(header.value).Some? then Ok((header.value, next)) else Err(InvalidJournal)
  }

  function Replay(codec: Codec, source: Bytes): Result<Replayed, JournalError> {
    var start := ReadHeader(codec, source);
    if start.Err? then Err(start.error) else ReplayFrom(codec, source, start.value.0, start.value.1, [])
  }

  method ReplayJournal(codec: Codec, source: Bytes) returns (result: Result<Replayed, JournalError>)
    ensures result == Replay(codec, source)
  {
    var start := ReadHeader(codec, source);
    if start.Err? {
      return Err(start.error);
    }
    var header := start.value.0;
    var records: seq<Record> := [];
    var cursor := start.value.1;
    while cursor < |source|
      invariant cursor <= |source|
      invariant Replay(codec, source) == ReplayFrom(codec, source, header, cursor, records)
      decreases |source| - cursor
    {
      if |records| >= MAX_RECORDS {
        return Err(JournalLimitExceeded);
      }
      var frame := ReadFrame(codec, source, cursor, MAX_RECORD_BYTES);
      match frame {
        case CutShort =>
          return Ok(Replayed(header, records, false, cursor, Some(TruncatedFrame)));
        case Corrupt =>
          return Ok(Replayed(header, records, false, cursor, Some(InvalidFrame)));
        case Whole(payload, next) =>
          var record := DecodeAccepted(codec, payload, |records| + 1);
          if record.None? {
            return Ok(Replayed(header, records, false, cursor, Some(InvalidRecord)));
          }
          records := records + [record.value];
          cursor := next;
      }
    }
    return Ok(Replayed(header, records, true, cursor, None));
  }

  // ----- Any input -----

  ghost predicate Trusted(codec: Codec, records: seq<Record>) {
    forall i | 0 <= i < |records| :: AcceptsRecord(codec, records[i], i + 1)
  }

  lemma {:induction false} ReplayFromIsSound(
    codec: Codec, source: Bytes, header: Header, cursor: nat, records: seq<Record>)
    requires cursor <= |source| && Trusted(codec, records) && |records| <= MAX_RECORDS
    ensures var result := ReplayFrom(codec, source, header, cursor, records);
      result.Ok? ==>
        && cursor <= result.value.validByteLength <= |source|
        && (result.value.complete <==> result.value.validByteLength == |source|)
        && result.value.header == header
        && records <= result.value.records && |result.value.records| <= MAX_RECORDS
        && Trusted(codec, result.value.records)
        && ReplayFrom(codec, source[..result.value.validByteLength], header, cursor, records)
           == Ok(result.value.(complete := true, stopped := None))
    decreases |source| - cursor
  {
    var result := ReplayFrom(codec, source, header, cursor, records);
    if result.Ok? && cursor < |source| {
      var read := ReadFrame(codec, source, cursor, MAX_RECORD_BYTES);
      if read.Whole? && DecodeAccepted(codec, read.payload, |records| + 1).Some? {
        var record := DecodeAccepted(codec, read.payload, |records| + 1).value;
        ReplayFromIsSound(codec, source, header, read.next, records + [record]);
        FrameReadIsLocal(codec, source, cursor, MAX_RECORD_BYTES, result.value.validByteLength);
      }
    } else if result.Ok? {
      assert source[..|source|] == source;
    }
  }

  lemma HeaderReadIsLocal(codec: Codec, source: Bytes, cut: nat)
    requires ReadHeader(codec, source).Ok? && ReadHeader(codec, source).value.1 <= cut <= |source|
    ensures ReadHeader(codec, source[..cut]) == ReadHeader(codec, source)
  {
    FrameReadIsLocal(codec, source, |MAGIC|, MAX_HEADER_BYTES, cut);
    assert source[..cut][..|MAGIC|] == source[..|MAGIC|];
  }

  /**
   Whatever bytes the file holds, replay only returns consecutive records with matching checksums,
   and truncating the file at the reported length leaves a complete journal of exactly those records.
   */
  lemma TruncationRepairs(codec: Codec, source: Bytes)
    requires Replay(codec, source).Ok?
    ensures var result := Replay(codec, source).value;
      && result.validByteLength <= |source|
      && (result.complete <==> result.validByteLength == |source|)
      && |result.records| <= MAX_RECORDS && Trusted(codec, result.records)
      && Replay(codec, source[..result.validByteLength]) == Ok(result.(complete := true, stopped := None))
  {
    var start := ReadHeader(codec, source).value;
    ReplayFromIsSound(codec, source, start.0, start.1, []);
    HeaderReadIsLocal(codec, source, Replay(codec, source).value.validByteLength);
  }

  // ----- Journals that were written -----

  predicate Writable(codec: Codec, record: Record, sequence: int) {
    AcceptsRecord(codec, record, sequence) && FrameFits(codec.encodeRecord(record), MAX_RECORD_BYTES)
  }

  predicate AllWritable(codec: Codec, records: seq<Record>) {
    forall i | 0 <= i < |records| :: Writable(codec, records[i], i + 1)
  }

  predicate WritableHeader(codec: Codec, header: Header) {
    CheckedHeader(header).Some? && FrameFits(codec.encodeHeader(header), MAX_HEADER_BYTES)
  }

  /** What the writer lets through, with every value read back as it was written. */
  predicate Stored(codec: Codec, header: Header, records: seq<Record>) {
    && WritableHeader(codec, header) && AllWritable(codec, records)
    && HeaderSurvives(codec, header)
    && forall i | 0 <= i < |records| :: Survives(codec, records[i])
  }

  function HeaderBytes(codec: Codec, header: Header): Bytes
    requires WritableHeader(codec, header)
  {
    MAGIC + Frame(codec, codec.encodeHeader(header))
  }

  function RecordFrame(codec: Codec, record: Record): Bytes
    requires FrameFits(codec.encodeRecord(record), MAX_RECORD_BYTES)
  {
    Frame(codec, codec.encodeRecord(record))
  }

  /** The bytes of a journal with these records, however large. */
  function JournalBytes(codec: Codec, header: Header, records: seq<Record>): (bytes: Bytes)
    requires WritableHeader(codec, header) && AllWritable(codec, records)
    ensures |bytes| >= |HeaderBytes(codec, header)|
  {
    if records == [] then HeaderBytes(codec, header)
    else
      JournalBytes(codec, header, records[..|records| - 1]) + RecordFrame(codec, records[|records| - 1])
  }

  /** `createJournalBytes`: the bytes, unless some limit or check refuses them. */
  method CreateJournalBytes(codec: Codec, header: Header, records: seq<Record>)
    returns (result: Result<Bytes, JournalError>)
    ensures result.Ok? <==>
      && WritableHeader(codec, header) && AllWritable(codec, records) && |records| <= MAX_RECORDS
      && |JournalBytes(codec, header, records)| <= MAX_JOURNAL_BYTES
    ensures result.Ok? ==> result.value == JournalBytes(codec, header, records)
  {
    if CheckedHeader(header).None? {
      return Err(InvalidJournal);
    }
    if |records| > MAX_RECORDS {
      return Err(JournalLimitExceeded);
    }
    var first := EncodeFrame(codec, codec.encodeHeader(header), MAX_HEADER_BYTES);
    if first.Err? {
      return Err(first.error);
    }
    var bytes := MAGIC + first.value;
    for i := 0 to |records|
      invariant AllWritable(codec, records[..i])
      invariant bytes == JournalBytes(codec, header, records[..i])
    {
      var record := records[i];
      if !AcceptsRecord(codec, record, i + 1) {
        return Err(InvalidJournal);
      }
      var frame := EncodeFrame(codec, codec.encodeRecord(record), MAX_RECORD_BYTES);
      if frame.Err? {
        return Err(frame.error);
      }
      assert records[..i + 1] == records[..i] + [record];
      bytes := bytes + frame.value;
    }
    assert records[..|records|] == records;
    if |bytes| > MAX_JOURNAL_BYTES {
      return Err(JournalLimitExceeded);
    }
    return Ok(bytes);
  }

  lemma {:induction false} JournalGrows(codec: Codec, header: Header, records: seq<Record>, k: nat)
    requires WritableHeader(codec, header) && AllWritable(codec, records) && k <= |records|
    ensures JournalBytes(codec, header, records[..k]) <= JournalBytes(codec, header, records)
    decreases |records|
  {
    if k == |records| {
      assert records[..k] == records;
    } else {
      var shorter := records[..|records| - 1];
      assert shorter[..k] == records[..k];
      JournalGrows(codec, header, shorter, k);
    }
  }

  /** Where the frame of record `k` ends and the next one starts. */
  function Boundary(codec: Codec, header: Header, records: seq<Record>, k: nat): nat
    requires WritableHeader(codec, header) && AllWritable(codec, records) && k <= |records|
  {
    |JournalBytes(codec, header, records[..k])|
  }

  lemma PartInPlace(whole: Bytes, left: Bytes, right: Bytes)
    requires left + right <= whole
    ensures whole[|left|..|left| + |right|] == right
  {
    assert whole[..|left + right|] == left + right;
    assert whole[|left|..|left| + |right|] == whole[..|left + right|][|left|..];
  }

  lemma OneMoreRecord(codec: Codec, header: Header, records: seq<Record>, k: nat)
    requires WritableHeader(codec, header) && AllWritable(codec, records) && k < |records|
    ensures FrameFits(codec.encodeRecord(records[k]), MAX_RECORD_BYTES)
    ensures JournalBytes(codec, header, records[..k + 1])
      == JournalBytes(codec, header, records[..k]) + RecordFrame(codec, records[k])
  {
    hide RecordFrame, HeaderBytes, WritableHeader, AcceptsRecord;
    assert Writable(codec, records[k], k + 1);
    assert records[..k + 1][..k] == records[..k] && records[..k + 1][k] == records[k];
  }

  lemma FrameInPlace(codec: Codec, header: Header, records: seq<Record>, k: nat)
    requires WritableHeader(codec, header) && AllWritable(codec, records) && k < |records|
    ensures Boundary(codec, header, records, k + 1)
      == Boundary(codec, header, records, k) + |RecordFrame(codec, records[k])|
      <= |JournalBytes(codec, header, records)|
    ensures JournalBytes(codec, header, records)[
        Boundary(codec, header, records, k)..Boundary(codec, header, records, k + 1)]
      == RecordFrame(codec, records[k])
  {
    hide JournalBytes, RecordFrame, HeaderBytes, WritableHeader, AcceptsRecord;
    OneMoreRecord(codec, header, records, k);
    JournalGrows(codec, header, records, k + 1);
    PartInPlace(
      JournalBytes(codec, header, records), JournalBytes(codec, header, records[..k]),
      RecordFrame(codec, records[k]));
  }

  /** How many records lie wholly before the cut. */
  function WholeRecords(codec: Codec, header: Header, records: seq<Record>, cut: nat): (k: nat)
    requires WritableHeader(codec, header) && AllWritable(codec, records)
    requires |HeaderBytes(codec, header)| <= cut <= |JournalBytes(codec, header, records)|
    ensures k <= |records| && Boundary(codec, header, records, k) <= cut
    ensures k < |records| ==> cut < Boundary(codec, header, records, k + 1)
    decreases |records|
  {
    assert records[..|records|] == records;
    if cut == |JournalBytes(codec, header, records)| then |records|
    else
      var shorter := records[..|records| - 1];
      if cut >= |JournalBytes(codec, header, shorter)| then |records| - 1
      else
        var k := WholeRecords(codec, header, shorter, cut);
        assert shorter[..k] == records[..k] && (k < |shorter| ==> shorter[..k + 1] == records[..k + 1]);
        k
  }

  lemma WrittenHeaderReadsBack(codec: Codec, header: Header, source: Bytes)
    requires Lawful(codec) && WritableHeader(codec, header) && HeaderSurvives(codec, header)
    requires |source| <= MAX_JOURNAL_BYTES
    requires HeaderBytes(codec, header) <= source
    ensures ReadHeader(codec, source) == Ok((header, |HeaderBytes(codec, header)|))
  {
    var payload := codec.encodeHeader(header);
    assert source[..|MAGIC|] == HeaderBytes(codec, header)[..|MAGIC|] == MAGIC;
    assert source[|MAGIC|..|MAGIC| + |Frame(codec, payload)|] == HeaderBytes(codec, header)[|MAGIC|..];
    FrameReadsBack(codec, source, |MAGIC|, payload, MAX_HEADER_BYTES);
  }

  lemma {:induction false} BoundariesAscend(codec: Codec, header: Header, records: seq<Record>, i: nat, k: nat)
    requires WritableHeader(codec, header) && AllWritable(codec, records) && i <= k <= |records|
    ensures Boundary(codec, header, records, i) <= Boundary(codec, header, records, k)
  {
    assert records[..k][..i] == records[..i];
    JournalGrows(codec, header, records[..k], i);
  }

  lemma FullJournalEnds(codec: Codec, header: Header, records: seq<Record>)
    requires WritableHeader(codec, header) && AllWritable(codec, records)
    ensures Boundary(codec, header, records, |records|) == |JournalBytes(codec, header, records)|
  {
    assert records[..|records|] == records;
  }

  lemma SliceOfPrefix(bytes: Bytes, cut: nat, from: nat, to: nat)
    requires from <= to <= cut <= |bytes|
    ensures bytes[..cut][from..to] == bytes[from..to]
  {
  }

  lemma PrefixOfCut(prefix: Bytes, bytes: Bytes, cut: nat)
    requires prefix <= bytes && |prefix| <= cut <= |bytes|
    ensures prefix <= bytes[..cut]
  {
  }

  /** Replay steps over a whole acceptable frame, wherever it stands. */
  lemma ReplayStep(
    codec: Codec, source: Bytes, header: Header, cursor: nat, next: nat, records: seq<Record>, record: Record)
    requires Lawful(codec) && |records| < MAX_RECORDS
    requires Writable(codec, record, |records| + 1) && Survives(codec, record)
    requires FrameStands(codec, source, cursor, next, record)
    ensures ReplayFrom(codec, source, header, cursor, records)
      == ReplayFrom(codec, source, header, next, records + [record])
  {
    FrameReadsBack(codec, source, cursor, codec.encodeRecord(record), MAX_RECORD_BYTES);
  }

  ghost predicate FrameStands(codec: Codec, source: Bytes, cursor: nat, next: nat, record: Record) {
    && FrameFits(codec.encodeRecord(record), MAX_RECORD_BYTES)
    && cursor <= next <= |source| && source[cursor..next] == RecordFrame(codec, record)
  }

  ghost predicate StandsAt(
    codec: Codec, source: Bytes, cursors: seq<nat>, records: seq<Record>, i: nat)
    requires i < |records| < |cursors|
  {
    && FrameStands(codec, source, cursors[i], cursors[i + 1], records[i])
    && Writable(codec, records[i], i + 1) && Survives(codec, records[i])
  }

  /** The frames of `records` stand one behind the other, between consecutive cursors. */
  ghost predicate FramesStand(codec: Codec, source: Bytes, cursors: seq<nat>, records: seq<Record>) {
    && |cursors| == |records| + 1 && cursors[|records|] <= |source|
    && forall i {:trigger StandsAt(codec, source, cursors, records, i)} | 0 <= i < |records| ::
      StandsAt(codec, source, cursors, records, i)
  }

  lemma ReplayStepAt(codec: Codec, source: Bytes, header: Header, cursors: seq<nat>, records: seq<Record>, i: nat)
    requires Lawful(codec) && |records| <= MAX_RECORDS && FramesStand(codec, source, cursors, records)
    requires i < |records|
    ensures cursors[i] <= |source| && cursors[i + 1] <= |source|
    ensures ReplayFrom(codec, source, header, cursors[i], records[..i])
      == ReplayFrom(codec, source, header, cursors[i + 1], records[..i + 1])
  {
    assert StandsAt(codec, source, cursors, records, i);
    assert records[..i + 1] == records[..i] + [records[i]];
    ReplayStep(codec, source, header, cursors[i], cursors[i + 1], records[..i], records[i]);
  }

  lemma {:induction false} ConstantAlong<T>(values: seq<T>, i: nat)
    requires i < |values| && forall j | 0 <= j < |values| - 1 :: values[j] == values[j + 1]
    ensures values[0] == values[i]
  {
    if i > 0 {
      ConstantAlong(values, i - 1);
    }
  }

  /** Replay steps over all of them. */
  lemma ReplaySteps(codec: Codec, source: Bytes, header: Header, cursors: seq<nat>, records: seq<Record>)
    requires Lawful(codec) && |records| <= MAX_RECORDS && FramesStand(codec, source, cursors, records)
    ensures cursors[0] <= |source|
    ensures ReplayFrom(codec, source, header, cursors[0], [])
      == ReplayFrom(codec, source, header, cursors[|records|], records)
  {
    forall i | 0 <= i < |records|
      ensures cursors[i] <= |source|
    {
      ReplayStepAt(codec, source, header, cursors, records, i);
    }
    var values := seq(|records| + 1, i requires 0 <= i <= |records| =>
      ReplayFrom(codec, source, header, cursors[i], records[..i]));
    forall i | 0 <= i < |records|
      ensures values[i] == values[i + 1]
    {
      ReplayStepAt(codec, source, header, cursors, records, i);
    }
    ConstantAlong(values, |records|);
    assert records[..0] == [] && records[..|records|] == records;
  }

  /** Replay of a cut journal reaches every boundary before the cut. */
  lemma ReplayReachesBoundary(codec: Codec, header: Header, records: seq<Record>, cut: nat, k: nat)
    requires Lawful(codec) && WritableHeader(codec, header) && AllWritable(codec, records)
    requires k <= |records| && Stored(codec, header, records[..k])
    requires k <= MAX_RECORDS && cut <= MAX_JOURNAL_BYTES
    requires Boundary(codec, header, records, k) <= cut <= |JournalBytes(codec, header, records)|
    ensures var source := JournalBytes(codec, header, records)[..cut];
      Replay(codec, source) == ReplayFrom(codec, source, header, Boundary(codec, header, records, k), records[..k])
  {
    var bytes := JournalBytes(codec, header, records);
    var cursors: seq<nat> := seq(k + 1, i requires 0 <= i <= k => Boundary(codec, header, records, i));
    forall i | 0 <= i < k
      ensures StandsAt(codec, bytes[..cut], cursors, records[..k], i)
    {
      FrameInPlace(codec, header, records, i);
      BoundariesAscend(codec, header, records, i + 1, k);
      SliceOfPrefix(bytes, cut, cursors[i], cursors[i + 1]);
    }
    assert FramesStand(codec, bytes[..cut], cursors, records[..k]);
    BoundariesAscend(codec, header, records, 0, k);
    ReplaySteps(codec, bytes[..cut], header, cursors, records[..k]);
    assert records[..0] == [];
    JournalGrows(codec, header, records, 0);
    assert HeaderBytes(codec, header) <= bytes[..cut] by {
      PrefixOfCut(HeaderBytes(codec, header), bytes, cut);
    }
    WrittenHeaderReadsBack(codec, header, bytes[..cut]);
  }

  /** Where replay of a cut journal stops, and what it reports there. */
  function CutOutcome(codec: Codec, header: Header, records: seq<Record>, cut: nat): Replayed
    requires WritableHeader(codec, header) && AllWritable(codec, records)
    requires |HeaderBytes(codec, header)| <= cut <= |JournalBytes(codec, header, records)|
  {
    var k := WholeRecords(codec, header, records, cut);
    var end := Boundary(codec, header, records, k);
    Replayed(header, records[..k], cut == end, end, if cut == end then None else Some(TruncatedFrame))
  }

  /** Replay that stands before a torn frame stops there. */
  lemma ReplayStopsAtTornFrame(
    codec: Codec, source: Bytes, header: Header, cursor: nat, records: seq<Record>, torn: Record)
    requires Lawful(codec) && FrameFits(codec.encodeRecord(torn), MAX_RECORD_BYTES) && |records| < MAX_RECORDS
    requires cursor < |source| < cursor + |RecordFrame(codec, torn)|
    requires source[cursor..] == RecordFrame(codec, torn)[..|source| - cursor]
    ensures ReplayFrom(codec, source, header, cursor, records)
      == Ok(Replayed(header, records, false, cursor, Some(TruncatedFrame)))
  {
    TornFrameIsCutShort(codec, source, cursor, codec.encodeRecord(torn), MAX_RECORD_BYTES);
  }

  lemma TornTail(bytes: Bytes, cut: nat, from: nat, to: nat)
    requires from <= cut <= to <= |bytes|
    ensures bytes[..cut][from..] == bytes[from..to][..cut - from]
  {
  }

  lemma ReplayStopsAtCut(codec: Codec, header: Header, records: seq<Record>, cut: nat)
    requires Lawful(codec) && WritableHeader(codec, header) && AllWritable(codec, records)
    requires |records| <= MAX_RECORDS
    requires |HeaderBytes(codec, header)| <= cut <= |JournalBytes(codec, header, records)|
    ensures var k := WholeRecords(codec, header, records, cut);
      ReplayFrom(
        codec, JournalBytes(codec, header, records)[..cut], header, Boundary(codec, header, records, k), records[..k])
      == Ok(CutOutcome(codec, header, records, cut))
  {
    var k := WholeRecords(codec, header, records, cut);
    var bytes := JournalBytes(codec, header, records);
    var cursor := Boundary(codec, header, records, k);
    if cut > cursor {
      FullJournalEnds(codec, header, records);
      FrameInPlace(codec, header, records, k);
      TornTail(bytes, cut, cursor, Boundary(codec, header, records, k + 1));
      ReplayStopsAtTornFrame(codec, bytes[..cut], header, cursor, records[..k], records[k]);
    }
  }

  /**
   The cut law: a journal within the limits, cut at or behind its header frame, replays to exactly the
   records that lie wholly before the cut, ends at the last boundary, and is complete only on a boundary.
   */
  lemma JournalCut(codec: Codec, header: Header, records: seq<Record>, cut: nat)
    requires Lawful(codec) && Stored(codec, header, records)
    requires |records| <= MAX_RECORDS
    requires |HeaderBytes(codec, header)| <= cut <= |JournalBytes(codec, header, records)|
    requires cut <= MAX_JOURNAL_BYTES
    ensures Replay(codec, JournalBytes(codec, header, records)[..cut]) == Ok(CutOutcome(codec, header, records, cut))
  {
    ReplayReachesBoundary(codec, header, records, cut, WholeRecords(codec, header, records, cut));
    ReplayStopsAtCut(codec, header, records, cut);
  }

  /** Encode, then replay: everything comes back. */
  lemma JournalRoundTrip(codec: Codec, header: Header, records: seq<Record>)
    requires Lawful(codec) && Stored(codec, header, records)
    requires |records| <= MAX_RECORDS && |JournalBytes(codec, header, records)| <= MAX_JOURNAL_BYTES
    ensures Replay(codec, JournalBytes(codec, header, records))
      == Ok(Replayed(header, records, true, |JournalBytes(codec, header, records)|, None))
  {
    var bytes := JournalBytes(codec, header, records);
    FullJournalEnds(codec, header, records);
    assert bytes[..|bytes|] == bytes && records[..|records|] == records;
    JournalCut(codec, header, records, |bytes|);
  }

  // ----- Appending -----

  /** `appendJournalRecord`: the new contents of the file, or why it stays as it is. */
  function Appended(codec: Codec, file: Bytes, record: Record): Result<Bytes, JournalError> {
    if |file| > MAX_JOURNAL_BYTES then Err(JournalLimitExceeded)
    else
      var current := Replay(codec, file);
      if current.Err? then Err(current.error)
      else if !current.value.complete || record.content.sequence != |current.value.records| + 1 then Err(InvalidJournal)
      else if !AcceptsRecord(codec, record, record.content.sequence) then Err(InvalidJournal)
      else
        var frame := EncodeFrame(codec, codec.encodeRecord(record), MAX_RECORD_BYTES);
        if frame.Err? then Err(frame.error)
        else if |file| + |frame.value| > MAX_JOURNAL_BYTES then Err(JournalLimitExceeded)
        else Ok(file + frame.value)
  }

  ghost predicate CanAppend(codec: Codec, header: Header, records: seq<Record>, record: Record)
    requires WritableHeader(codec, header) && AllWritable(codec, records)
  {
    && Writable(codec, record, |records| + 1)
    && |JournalBytes(codec, header, records)| + |RecordFrame(codec, record)| <= MAX_JOURNAL_BYTES
  }

  /** Appending to a complete journal of `records` gives the journal of `records + [record]`, or nothing. */
  lemma AppendExtendsJournal(codec: Codec, header: Header, records: seq<Record>, record: Record)
    requires Lawful(codec) && Stored(codec, header, records)
    requires |records| <= MAX_RECORDS && |JournalBytes(codec, header, records)| <= MAX_JOURNAL_BYTES
    ensures var result := Appended(codec, JournalBytes(codec, header, records), record);
      && (result.Ok? <==> CanAppend(codec, header, records, record))
      && (result.Ok? ==>
           AllWritable(codec, records + [record]) &&
           result.value == JournalBytes(codec, header, records + [record]))
  {
    JournalRoundTrip(codec, header, records);
    assert (records + [record])[..|records|] == records;
  }

  /** Any byte behind record 100000 makes the whole file unreadable. */
  lemma OverfullJournalIsRefused(codec: Codec, header: Header, records: seq<Record>, cut: nat)
    requires Lawful(codec) && AllWritable(codec, records) && |records| == MAX_RECORDS + 1
    requires Stored(codec, header, records[..MAX_RECORDS])
    requires Boundary(codec, header, records, MAX_RECORDS) < cut <= |JournalBytes(codec, header, records)|
    ensures Replay(codec, JournalBytes(codec, header, records)[..cut]).Err?
  {
    if cut <= MAX_JOURNAL_BYTES {
      ReplayReachesBoundary(codec, header, records, cut, MAX_RECORDS);
    }
  }

  /**
   An append checks the byte limits but not the record count, so the appended journal replays exactly
   when the count allows it: the append behind record 100000 succeeds and makes the file unreadable.
   */
  lemma AppendedJournalReplays(codec: Codec, header: Header, records: seq<Record>, record: Record)
    requires Lawful(codec) && Stored(codec, header, records)
    requires |records| <= MAX_RECORDS && |JournalBytes(codec, header, records)| <= MAX_JOURNAL_BYTES
    requires Appended(codec, JournalBytes(codec, header, records), record).Ok? && Survives(codec, record)
    ensures var file := Appended(codec, JournalBytes(codec, header, records), record).value;
      Replay(codec, file).Ok? <==> |records| + 1 <= MAX_RECORDS
  {
    AppendExtendsJournal(codec, header, records, record);
    if |records| + 1 <= MAX_RECORDS {
      JournalRoundTrip(codec, header, records + [record]);
    } else {
      var file := Appended(codec, JournalBytes(codec, header, records), record).value;
      assert (records + [record])[..MAX_RECORDS] == records && file[..|file|] == file;
      OverfullJournalIsRefused(codec, header, records + [record], |file|);
    }
  }

  /** The largest record frame, and the largest header, with which 100001 records still fit the file. */
  const SMALL_FRAME_BYTES := 671
  const SMALL_HEADER_BYTES := 8193

  predicate SmallFrame(codec: Codec, record: Record) {
    |codec.encodeRecord(record)| + 4 + DIGEST_LENGTH <= SMALL_FRAME_BYTES
  }

  lemma {:induction false} SmallFramesAddUp(codec: Codec, header: Header, records: seq<Record>)
    requires Lawful(codec) && WritableHeader(codec, header) && AllWritable(codec, records)
    requires forall i | 0 <= i < |records| :: SmallFrame(codec, records[i])
    ensures |JournalBytes(codec, header, records)| <= |HeaderBytes(codec, header)| + SMALL_FRAME_BYTES * |records|
  {
    if records != [] {
      SmallFramesAddUp(codec, header, records[..|records| - 1]);
      assert SmallFrame(codec, records[|records| - 1]);
    }
  }

  /**
   The input behind the count: a journal of exactly 100000 small records takes every acceptable small
   record as its 100001st, and is unreadable from then on.
   */
  lemma SmallRecordsOverfill(codec: Codec, header: Header, records: seq<Record>, record: Record)
    requires Lawful(codec) && Stored(codec, header, records) && |records| == MAX_RECORDS
    requires |HeaderBytes(codec, header)| <= SMALL_HEADER_BYTES
    requires SmallFrame(codec, record) && forall i | 0 <= i < |records| :: SmallFrame(codec, records[i])
    ensures |JournalBytes(codec, header, records)| <= MAX_JOURNAL_BYTES
    ensures Replay(codec, JournalBytes(codec, header, records)).Ok?
    ensures var appended := Appended(codec, JournalBytes(codec, header, records), record);
      && (appended.Ok? <==> Writable(codec, record, MAX_RECORDS + 1))
      && (appended.Ok? ==> Replay(codec, appended.value).Err?)
  {
    hide Replay, Appended;
    SmallFramesAddUp(codec, header, records);
    JournalRoundTrip(codec, header, records);
    AppendExtendsJournal(codec, header, records, record);
    var appended := Appended(codec, JournalBytes(codec, header, records), record);
    if appended.Ok? {
      var all := records + [record];
      assert all[..MAX_RECORDS] == records && appended.value[..|appended.value|] == appended.value;
      OverfullJournalIsRefused(codec, header, all, |appended.value|);
    }
  }

  /** What the file of a cut journal holds after it was truncated where replay stopped. */
  function Repaired(codec: Codec, file: Bytes): Bytes {
    var replay := Replay(codec, file);
    if replay.Ok? && replay.value.validByteLength <= |file| then file[..replay.value.validByteLength] else file
  }

  /** Truncating a cut journal at the reported length and appending the next record gives a complete journal. */
  lemma TruncateThenAppend(codec: Codec, header: Header, records: seq<Record>, cut: nat, next: Record)
    requires Lawful(codec) && Stored(codec, header, records)
    requires |records| <= MAX_RECORDS
    requires |HeaderBytes(codec, header)| <= cut <= |JournalBytes(codec, header, records)|
    requires cut <= MAX_JOURNAL_BYTES && Survives(codec, next)
    ensures var repaired := Repaired(codec, JournalBytes(codec, header, records)[..cut]);
      var kept := records[..WholeRecords(codec, header, records, cut)];
      var appended := Appended(codec, repaired, next);
      && repaired == JournalBytes(codec, header, kept)
      && (appended.Ok? && |kept| < MAX_RECORDS ==>
           Replay(codec, appended.value) == Ok(Replayed(header, kept + [next], true, |appended.value|, None)))
  {
    var k := WholeRecords(codec, header, records, cut);
    var kept := records[..k];
    JournalCut(codec, header, records, cut);
    JournalGrows(codec, header, records, k);
    assert JournalBytes(codec, header, records)[..cut][..Boundary(codec, header, records, k)]
      == JournalBytes(codec, header, kept);
    AppendExtendsJournal(codec, header, kept, next);
    if Appended(codec, JournalBytes(codec, header, kept), next).Ok? && k < MAX_RECORDS {
      JournalRoundTrip(codec, header, kept + [next]);
    }
  }
}
