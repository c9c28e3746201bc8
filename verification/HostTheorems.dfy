/** Properties of every log a session host can produce. */
module HostTheorems {
  import opened Wrappers
  import opened DeckModel
  import opened Commands
  import opened Access
  import opened Engine
  import opened HostLog

  // ----- One entry of a log -----

  /** What a commit was checked against, said about the log up to it. */
  ghost predicate Checked(cfg: HostConfig, log: seq<LogEntry>, entry: LogEntry) {
    && RequestSchema(entry.request)
    && entry.request.baseSeq <= |log|
    && entry.commit.access == cfg.footprint(entry.request.commands, entry.context.document)
    && (entry.request.baseSeq < |log| ==>
         MinBase(cfg, log) <= entry.request.baseSeq &&
         !Conflicts(log, entry.request.baseSeq, entry.commit.access))
    && FirstLeaseError(
         entry.context.document, LiveLeases(entry.context.leases, entry.context.now),
         entry.request, entry.commit.access).None?
    && Lookup(Window(cfg, log), KeyOf(entry.request)).None?
    && entry.bytes <= cfg.limits.windowBytes
  }

  /** What a commit records: its place in the log and the transaction it ran. */
  ghost predicate Recorded(cfg: HostConfig, log: seq<LogEntry>, entry: LogEntry) {
    && entry.commit.sessionSeq == |log| + 1
    && entry.commit.commands == entry.request.commands
    && entry.commit.beforeRevision == CurrentRevision(cfg, log)
    && cfg.engine.revision(entry.context.document) == entry.commit.beforeRevision
    && cfg.engine.transact(entry.context.document, entry.commit.commands, entry.commit.metadata) == Some(entry.after)
    && cfg.engine.revision(entry.after) == entry.commit.afterRevision
  }

  lemma EntryFacts(cfg: HostConfig, log: seq<LogEntry>, i: nat)
    requires RunLog(cfg, log) && i < |log|
    ensures Checked(cfg, log[..i], log[i]) && Recorded(cfg, log[..i], log[i])
  {
    assert Produced(cfg, log[..i], log[i]);
  }

  // ----- The idempotency window -----

  lemma {:induction false} SumBytesAppend(entries: seq<IdempotencyEntry>, entry: IdempotencyEntry)
    ensures SumBytes(entries + [entry]) == SumBytes(entries) + entry.accountedBytes
  {
    if entries == [] {
      assert entries + [entry] == [entry];
    } else {
      assert (entries + [entry])[1..] == entries[1..] + [entry];
      SumBytesAppend(entries[1..], entry);
    }
  }

  /** Appending to a prefix never makes a suffix lighter. */
  lemma {:induction false} SumBytesPrefix(entries: seq<IdempotencyEntry>, to: nat)
    requires to <= |entries|
    ensures SumBytes(entries[..to]) <= SumBytes(entries)
  {
    if to > 0 {
      assert entries[1..][..to - 1] == entries[..to][1..];
      SumBytesPrefix(entries[1..], to - 1);
    }
  }

  function WindowStart(entries: seq<IdempotencyEntry>, limits: Limits): (start: nat)
    ensures start <= |entries|
    ensures LongestFitting(entries, limits) == entries[start..]
    ensures Fits(entries[start..], limits)
    ensures forall from | 0 <= from < start :: !Fits(entries[from..], limits)
  {
    if Fits(entries, limits) then
      assert entries[0..] == entries;
      0
    else
      var rest := WindowStart(entries[1..], limits);
      assert entries[1..][rest..] == entries[rest + 1..];
      assert forall from | 1 <= from < rest + 1 :: entries[1..][from - 1..] == entries[from..];
      assert entries[0..] == entries;
      rest + 1
  }

  /** Evicting from the front after an append is the same as recomputing from the whole log. */
  lemma EvictionIsIncremental(entries: seq<IdempotencyEntry>, entry: IdempotencyEntry, limits: Limits)
    ensures LongestFitting(entries + [entry], limits) ==
      LongestFitting(LongestFitting(entries, limits) + [entry], limits)
    decreases |entries|
  {
    if Fits(entries, limits) {
    } else {
      SumBytesAppend(entries, entry);
      assert (entries + [entry])[1..] == entries[1..] + [entry];
      EvictionIsIncremental(entries[1..], entry, limits);
    }
  }

  /** The window is the longest suffix of the commit log that fits both limits. */
  lemma WindowIsLongestSuffix(cfg: HostConfig, log: seq<LogEntry>) returns (start: nat)
    ensures start <= |log|
    ensures Window(cfg, log) == Remembered(log[start..])
    ensures Fits(Remembered(log[start..]), cfg.limits)
    ensures forall from | 0 <= from < start :: !Fits(Remembered(log[from..]), cfg.limits)
  {
    start := WindowStart(Remembered(log), cfg.limits);
    forall from | 0 <= from <= |log| ensures Remembered(log)[from..] == Remembered(log[from..]) {
    }
  }

  /** The commit just made is always replayable. */
  lemma NewestCommitRetained(cfg: HostConfig, log: seq<LogEntry>)
    requires cfg.limits.Positive() && RunLog(cfg, log) && log != []
    ensures Window(cfg, log) != []
    ensures Window(cfg, log)[|Window(cfg, log)| - 1].transaction == log[|log| - 1].commit
  {
    var entries := Remembered(log);
    var last := |log| - 1;
    EntryFacts(cfg, log, last);
    assert entries[last..] == [entries[last]];
    assert SumBytes([entries[last]]) == entries[last].accountedBytes;
    assert Fits(entries[last..], cfg.limits);
    var start := WindowStart(entries, cfg.limits);
  }

  /** A suffix that fits now also fitted before the later commits were made. */
  lemma WindowStartGrows(cfg: HostConfig, log: seq<LogEntry>, to: nat)
    requires to <= |log|
    ensures var start := WindowStart(Remembered(log), cfg.limits);
      start <= to ==> WindowStart(Remembered(log[..to]), cfg.limits) <= start
  {
    hide SumBytes, LongestFitting, KeyOf;
    var entries := Remembered(log);
    var start := WindowStart(entries, cfg.limits);
    if start <= to {
      assert Remembered(log[..to])[start..] == entries[start..][..to - start];
      SumBytesPrefix(entries[start..], to - start);
    }
  }

  /** An accepted request is not among the remembered ones. */
  lemma AcceptedIsNotRemembered(cfg: HostConfig, log: seq<LogEntry>, i: nat, j: nat)
    requires RunLog(cfg, log) && i < j < |log|
    requires WindowStart(Remembered(log[..j]), cfg.limits) <= i
    ensures KeyOf(log[i].request) != KeyOf(log[j].request)
  {
    hide RunLog, SumBytes, WindowStart;
    EntryFacts(cfg, log, j);
    var entries := Remembered(log[..j]);
    var start := WindowStart(entries, cfg.limits);
    assert entries[start..][i - start] == entries[i];
    assert entries[i] in Window(cfg, log[..j]);
  }

  lemma RememberedPairDiffers(cfg: HostConfig, log: seq<LogEntry>, i: nat, j: nat)
    requires RunLog(cfg, log) && WindowStart(Remembered(log), cfg.limits) <= i < j < |log|
    ensures KeyOf(log[i].request) != KeyOf(log[j].request)
  {
    WindowStartGrows(cfg, log, j);
    AcceptedIsNotRemembered(cfg, log, i, j);
  }

  /** No two remembered commits share a client request identifier. */
  lemma WindowKeysDistinct(cfg: HostConfig, log: seq<LogEntry>)
    requires RunLog(cfg, log)
    ensures forall i, j | 0 <= i < j < |Window(cfg, log)| :: Window(cfg, log)[i].key != Window(cfg, log)[j].key
  {
    hide RunLog, SumBytes, WindowStart;
    var window := Window(cfg, log);
    var start := WindowStart(Remembered(log), cfg.limits);
    forall i, j | 0 <= i < j < |window| ensures window[i].key != window[j].key {
      RememberedPairDiffers(cfg, log, start + i, start + j);
    }
  }

  // ----- Conflicts -----

  /** First committer wins: no commit overwrites or relies on what landed after its base. */
  lemma FirstCommitterWins(cfg: HostConfig, log: seq<LogEntry>, i: nat, j: nat)
    requires RunLog(cfg, log) && i < j < |log| && log[j].request.baseSeq <= i
    ensures log[i].commit.access.writeSet !! Touched(log[j].commit.access)
  {
    EntryFacts(cfg, log, j);
    var access := log[j].commit.access;
    if key :| key in log[i].commit.access.writeSet && key in Touched(access) {
      assert log[..j][i] == log[i];
      assert WrittenAfter(log[..j], log[j].request.baseSeq, key);
      assert Conflicts(log[..j], log[j].request.baseSeq, access);
      assert false;
    }
  }

  /** Analysed against any two documents, a batch keeps at least one of its write keys. */
  ghost predicate StableWriteKey(cfg: HostConfig, commands: seq<Command>, key: EntityKey) {
    forall document :: key in cfg.footprint(commands, document).writeSet
  }

  lemma FootprintsHaveStableWriteKeys(cfg: HostConfig, request: Request) returns (key: EntityKey)
    requires UsesCommandFootprints(cfg) && RequestSchema(request)
    ensures StableWriteKey(cfg, request.commands, key)
  {
    key := BatchHasStableWriteKey(request.commands);
    forall document ensures key in cfg.footprint(request.commands, document).writeSet {
      assert key in BatchFootprint(request.commands, Some(document)).writeSet;
    }
  }

  /** At most once: an identical request is never committed twice in any run, evicted or not. */
  lemma AtMostOnce(cfg: HostConfig, log: seq<LogEntry>, i: nat, j: nat)
    requires UsesCommandFootprints(cfg) && RunLog(cfg, log) && i < j < |log|
    ensures log[i].request != log[j].request
  {
    if log[i].request == log[j].request {
      EntryFacts(cfg, log, i);
      EntryFacts(cfg, log, j);
      var request := log[i].request;
      var key := FootprintsHaveStableWriteKeys(cfg, request);
      assert key in log[i].commit.access.writeSet;
      assert key in log[j].commit.access.writeSet;
      assert request.baseSeq <= |log[..i]|;
      FirstCommitterWins(cfg, log, i, j);
      assert false;
    }
  }

  lemma RetryIsNotAccepted(cfg: HostConfig, log: seq<LogEntry>, i: nat, context: Context)
    requires UsesCommandFootprints(cfg) && RunLog(cfg, log) && i < |log|
    ensures !Decide(cfg, log, context, log[i].request).Accept?
  {
    var request := log[i].request;
    EntryFacts(cfg, log, i);
    var key := FootprintsHaveStableWriteKeys(cfg, request);
    assert key in log[i].commit.access.writeSet;
    assert WrittenAfter(log, request.baseSeq, key);
    assert Conflicts(log, request.baseSeq, cfg.footprint(request.commands, context.document));
  }

  /** A remembered entry is the record of one commit of the log. */
  lemma RememberedIsLogged(cfg: HostConfig, log: seq<LogEntry>, entry: IdempotencyEntry) returns (at: nat)
    requires entry in Window(cfg, log)
    ensures at < |log| && entry.fingerprint == log[at].request && entry.transaction == log[at].commit
  {
    var start := WindowIsLongestSuffix(cfg, log);
    var window := Remembered(log[start..]);
    var offset :| 0 <= offset < |window| && window[offset] == entry;
    at := start + offset;
  }

  lemma RememberedCommitIsTheOriginal(cfg: HostConfig, log: seq<LogEntry>, i: nat, entry: IdempotencyEntry)
    requires UsesCommandFootprints(cfg) && RunLog(cfg, log) && i < |log|
    requires entry in Window(cfg, log) && entry.fingerprint == log[i].request
    ensures entry.transaction == log[i].commit
  {
    var at := RememberedIsLogged(cfg, log, entry);
    if at < i {
      AtMostOnce(cfg, log, at, i);
    } else if i < at {
      AtMostOnce(cfg, log, i, at);
    }
  }

  /** What a client sees when it repeats a committed request: the original commit, or an error. */
  lemma RetryNeverCommits(cfg: HostConfig, log: seq<LogEntry>, i: nat, context: Context)
    requires UsesCommandFootprints(cfg) && RunLog(cfg, log) && i < |log|
    ensures var decision := Decide(cfg, log, context, log[i].request);
      decision.Reject? || decision == Replay(log[i].commit)
  {
    RetryIsNotAccepted(cfg, log, i, context);
    var found := Lookup(Window(cfg, log), KeyOf(log[i].request));
    if found.Some? && found.value.fingerprint == log[i].request {
      RememberedCommitIsTheOriginal(cfg, log, i, found.value);
    }
  }

  lemma {:induction false} LiveLeaseKept(leases: seq<TextLease>, now: nat, lease: TextLease)
    requires lease in leases && lease.expiresAt > now
    ensures lease in LiveLeases(leases, now)
  {
    if leases[0] != lease {
      LiveLeaseKept(leases[1..], now, lease);
    }
  }

  /** A live lease of another client keeps its text element, its groups and its slide unwritten. */
  lemma CommitsRespectLiveLeases(cfg: HostConfig, log: seq<LogEntry>, i: nat, lease: TextLease)
    requires RunLog(cfg, log) && i < |log|
    requires lease in log[i].context.leases && lease.expiresAt > log[i].context.now
    requires !(ProtectedKeys(log[i].context.document, lease) !! log[i].commit.access.writeSet)
    ensures lease.clientId == log[i].request.clientId
    ensures lease.elementId in log[i].request.lockTokens
    ensures log[i].request.lockTokens[lease.elementId] == lease.token
  {
    EntryFacts(cfg, log, i);
    var context := log[i].context;
    LiveLeaseKept(context.leases, context.now, lease);
    assert LeaseError(context.document, lease, log[i].request, log[i].commit.access).None?;
  }

  // ----- Resynchronisation -----

  /** The document after `sequence` commits. */
  function DocumentAt(initial: DeckDocument, log: seq<LogEntry>, sequence: nat): DeckDocument
    requires sequence <= |log|
  {
    if sequence == 0 then initial else log[sequence - 1].after
  }

  /** No edit reached the adapter except through the host. */
  ghost predicate Undisturbed(initial: DeckDocument, log: seq<LogEntry>) {
    forall i {:trigger DocumentAt(initial, log, i)} | 0 <= i < |log| ::
      log[i].context.document == DocumentAt(initial, log, i)
  }

  /** Revision tokens tell each document the adapter held at a commit from the one it should have held. */
  ghost predicate TokensTellRunApart(engine: Engine, initial: DeckDocument, log: seq<LogEntry>) {
    forall i {:trigger DocumentAt(initial, log, i)} | 0 <= i < |log| ::
      TokensTellApart(engine, log[i].context.document, DocumentAt(initial, log, i))
  }

  /** With such tokens the host's own check excludes outside edits. */
  lemma FaithfulTokensDetectDisturbance(cfg: HostConfig, initial: DeckDocument, log: seq<LogEntry>)
    requires RunLog(cfg, log) && TokensTellRunApart(cfg.engine, initial, log)
    requires cfg.initialRevision == cfg.engine.revision(initial)
    ensures Undisturbed(initial, log)
  {
    forall i | 0 <= i < |log| ensures log[i].context.document == DocumentAt(initial, log, i) {
      EntryFacts(cfg, log, i);
      if i > 0 {
        EntryFacts(cfg, log, i - 1);
        assert log[..i][i - 1] == log[i - 1];
      }
    }
  }

  /** The answer to a replica that has seen `afterSeq` commits, over the full log. */
  function Resync(
    cfg: HostConfig, log: seq<LogEntry>, document: DeckDocument, afterSeq: nat, known: Option<Revision>)
    : Result<ResyncResponse, ErrorCode>
  {
    var revision := CurrentRevision(cfg, log);
    var snapshot := Snapshot(|log|, document, cfg.engine.revision(document));
    if cfg.engine.revision(document) != revision then Err(RevisionConflict)
    else if afterSeq > |log| then Err(ResyncRange)
    else if afterSeq == |log| then
      if known.Some? && known.value != revision then Ok(snapshot) else Ok(Tail(afterSeq, |log|, revision, []))
    else if afterSeq < MinBase(cfg, log) then Ok(snapshot)
    else if known.Some? && known.value != log[afterSeq].commit.beforeRevision then Ok(snapshot)
    else
      var tail := Tail(afterSeq, |log|, revision, Commits(log[afterSeq..]));
      if cfg.responseBytes(tail) > cfg.limits.tailResyncBytes then Ok(snapshot) else Ok(tail)
  }

  /** One committed transaction applied to a replica, with its three checks. */
  function ReplicaStep(engine: Engine, documentId: Id, document: DeckDocument, commit: Commit)
    : Result<DeckDocument, ErrorCode>
  {
    if document.id != documentId then Err(DocumentMismatch)
    else if engine.revision(document) != commit.beforeRevision then Err(RevisionConflict)
    else
      var result := engine.transact(document, commit.commands, commit.metadata);
      if result.None? then Err(TransactionFailed)
      else if engine.revision(result.value) != commit.afterRevision then Err(RevisionConflict)
      else Ok(result.value)
  }

  function ReplayTail(engine: Engine, documentId: Id, document: DeckDocument, commits: seq<Commit>)
    : Result<DeckDocument, ErrorCode>
    decreases |commits|
  {
    if commits == [] then Ok(document)
    else
      var step := ReplicaStep(engine, documentId, document, commits[0]);
      if step.Err? then step else ReplayTail(engine, documentId, step.value, commits[1..])
  }

  /** What a replica does with an answer: fold the tail, or take the snapshot. */
  function Absorb(engine: Engine, documentId: Id, document: DeckDocument, response: ResyncResponse)
    : Result<DeckDocument, ErrorCode>
  {
    match response
    case Tail(_, _, _, transactions) => ReplayTail(engine, documentId, document, transactions)
    case Snapshot(_, snapshot, _) => Ok(snapshot)
  }

  lemma {:induction false} DocumentsKeepTheirId(cfg: HostConfig, initial: DeckDocument, log: seq<LogEntry>, sequence: nat)
    requires RunLog(cfg, log) && Undisturbed(initial, log) && sequence <= |log|
    requires KeepsDocumentId(cfg.engine) && initial.id == cfg.documentId
    ensures DocumentAt(initial, log, sequence).id == cfg.documentId
  {
    if sequence > 0 {
      DocumentsKeepTheirId(cfg, initial, log, sequence - 1);
      EntryFacts(cfg, log, sequence - 1);
    }
  }

  /** Each logged commit passes every replica check on the document of its own position. */
  lemma ReplicaFollowsOneCommit(cfg: HostConfig, initial: DeckDocument, log: seq<LogEntry>, sequence: nat)
    requires RunLog(cfg, log) && Undisturbed(initial, log) && sequence < |log|
    requires KeepsDocumentId(cfg.engine) && initial.id == cfg.documentId
    ensures ReplicaStep(cfg.engine, cfg.documentId, DocumentAt(initial, log, sequence), log[sequence].commit)
      == Ok(DocumentAt(initial, log, sequence + 1))
  {
    DocumentsKeepTheirId(cfg, initial, log, sequence);
    EntryFacts(cfg, log, sequence);
  }

  lemma {:induction false} TailReachesHost(cfg: HostConfig, initial: DeckDocument, log: seq<LogEntry>, sequence: nat)
    requires RunLog(cfg, log) && Undisturbed(initial, log) && sequence <= |log|
    requires KeepsDocumentId(cfg.engine) && initial.id == cfg.documentId
    ensures ReplayTail(cfg.engine, cfg.documentId, DocumentAt(initial, log, sequence), Commits(log[sequence..]))
      == Ok(DocumentAt(initial, log, |log|))
    decreases |log| - sequence
  {
    if sequence < |log| {
      ReplicaFollowsOneCommit(cfg, initial, log, sequence);
      TailReachesHost(cfg, initial, log, sequence + 1);
      assert Commits(log[sequence..])[1..] == Commits(log[sequence + 1..]);
    }
  }

  /** Whatever a replica missed, one resync brings it to the host's document and revision. */
  lemma ResyncConverges(
    cfg: HostConfig, initial: DeckDocument, log: seq<LogEntry>, host: DeckDocument, afterSeq: nat,
    replica: DeckDocument, sendsRevision: bool)
    requires RunLog(cfg, log) && KeepsDocumentId(cfg.engine)
    requires TokensTellRunApart(cfg.engine, initial, log)
    requires TokensTellApart(cfg.engine, host, DocumentAt(initial, log, |log|))
    requires cfg.documentId == initial.id && cfg.initialRevision == cfg.engine.revision(initial)
    requires cfg.engine.revision(host) == CurrentRevision(cfg, log)
    requires afterSeq <= |log| && replica == DocumentAt(initial, log, afterSeq)
    ensures var known := if sendsRevision then Some(cfg.engine.revision(replica)) else None;
      var answer := Resync(cfg, log, host, afterSeq, known);
      && answer.Ok?
      && (answer.value.Snapshot? ==>
           afterSeq < MinBase(cfg, log) ||
           cfg.responseBytes(Tail(afterSeq, |log|, CurrentRevision(cfg, log), Commits(log[afterSeq..])))
             > cfg.limits.tailResyncBytes)
      && Absorb(cfg.engine, cfg.documentId, replica, answer.value) == Ok(host)
  {
    FaithfulTokensDetectDisturbance(cfg, initial, log);
    if |log| > 0 {
      EntryFacts(cfg, log, |log| - 1);
    }
    assert host == DocumentAt(initial, log, |log|);
    TailReachesHost(cfg, initial, log, afterSeq);
    if afterSeq < |log| {
      ReplicaFollowsOneCommit(cfg, initial, log, afterSeq);
    }
  }
}
