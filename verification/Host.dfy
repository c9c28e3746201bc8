/** The authoritative session host: a sequencer that keeps only bounded stand-ins for its log. */
module Host {
  import opened Wrappers
  import opened DeckModel
  import opened Commands
  import opened Access
  import opened Engine
  import opened HostLog
  import opened HostTheorems
  import opened HostIndex

  /** A submission that passed every check, or the commit it repeats. */
  datatype Prepared =
    | Existing(commit: Commit)
    | Fresh(access: CommandAccess, rebased: bool, reservation: nat)

  /** The insertion-ordered dictionary: setting a known key keeps its place. */
  function Place(entries: seq<IdempotencyEntry>, entry: IdempotencyEntry): seq<IdempotencyEntry> {
    if entries == [] then [entry]
    else if entries[0].key == entry.key then [entry] + entries[1..]
    else [entries[0]] + Place(entries[1..], entry)
  }

  lemma {:induction false} PlaceFreshAppends(entries: seq<IdempotencyEntry>, entry: IdempotencyEntry)
    requires Lookup(entries, entry.key).None?
    ensures Place(entries, entry) == entries + [entry]
  {
    if entries != [] {
      PlaceFreshAppends(entries[1..], entry);
    }
  }

  lemma {:induction false} PlaceCountsBytes(entries: seq<IdempotencyEntry>, entry: IdempotencyEntry)
    ensures var replaced := Lookup(entries, entry.key);
      SumBytes(Place(entries, entry)) + (if replaced.Some? then replaced.value.accountedBytes else 0)
        == SumBytes(entries) + entry.accountedBytes
  {
    if entries != [] && entries[0].key != entry.key {
      PlaceCountsBytes(entries[1..], entry);
      assert ([entries[0]] + Place(entries[1..], entry))[1..] == Place(entries[1..], entry);
    } else if entries != [] {
      assert ([entry] + entries[1..])[1..] == entries[1..];
    }
  }

  lemma {:induction false} LookupIsCounted(entries: seq<IdempotencyEntry>, key: RequestKey)
    ensures var found := Lookup(entries, key);
      found.Some? ==> found.value.accountedBytes <= SumBytes(entries)
  {
    if entries != [] && entries[0].key != key {
      LookupIsCounted(entries[1..], key);
    }
  }

  /** Leases whose element is still a text element of their slide. */
  function TextOnly(document: DeckDocument, leases: seq<TextLease>): seq<TextLease> {
    if leases == [] then []
    else if IsTextElement(document, leases[0].slideId, leases[0].elementId) then
      [leases[0]] + TextOnly(document, leases[1..])
    else TextOnly(document, leases[1..])
  }

  function ElementInSlide(document: DeckDocument, slideId: Id, elementId: Id): Option<Element> {
    var slide := FindSlide(document.slides, slideId);
    if slide.None? then None else FindElement(slide.value.elements, elementId)
  }

  predicate IsTextElement(document: DeckDocument, slideId: Id, elementId: Id) {
    var element := ElementInSlide(document, slideId, elementId);
    element.Some? && element.value.Text?
  }

  function LeaseOn(leases: seq<TextLease>, elementId: Id): (found: Option<TextLease>)
    ensures found.Some? ==> found.value in leases && found.value.elementId == elementId
    ensures found.None? ==> forall lease | lease in leases :: lease.elementId != elementId
  {
    if leases == [] then None
    else if leases[0].elementId == elementId then Some(leases[0])
    else LeaseOn(leases[1..], elementId)
  }

  function SetLease(leases: seq<TextLease>, lease: TextLease): seq<TextLease> {
    if leases == [] then [lease]
    else if leases[0].elementId == lease.elementId then [lease] + leases[1..]
    else [leases[0]] + SetLease(leases[1..], lease)
  }

  function WithoutElement(leases: seq<TextLease>, elementId: Id): seq<TextLease> {
    if leases == [] then []
    else if leases[0].elementId == elementId then WithoutElement(leases[1..], elementId)
    else [leases[0]] + WithoutElement(leases[1..], elementId)
  }

  class AuthoritativeSessionHost {
    const cfg: HostConfig
    const adapter: DocumentAdapter
    var tail: seq<Commit>
    var idempotency: seq<IdempotencyEntry>
    var idempotencyBytes: nat
    var lastModifiedSeq: WriteIndex
    var textLeases: seq<TextLease>
    var sessionSequence: nat
    var currentRevision: Revision
    /** Every commit of this session; the host itself forgets all but a bounded part. */
    ghost var log: seq<LogEntry>

    /** Each bounded field is exactly what the full log determines. */
    ghost predicate Valid()
      reads this
    {
      && cfg.limits.Positive() && UsesCommandFootprints(cfg)
      && RunLog(cfg, log)
      && sessionSequence == |log|
      && currentRevision == CurrentRevision(cfg, log)
      && tail == Retained(cfg, log)
      && IndexMatches(cfg, log, lastModifiedSeq)
      && idempotency == Window(cfg, log)
      && idempotencyBytes == SumBytes(idempotency)
    }

    constructor (cfg: HostConfig, adapter: DocumentAdapter)
      requires cfg.limits.Positive() && UsesCommandFootprints(cfg)
      requires cfg.documentId == adapter.document.id
      requires cfg.initialRevision == cfg.engine.revision(adapter.document)
      ensures Valid() && log == [] && this.cfg == cfg && this.adapter == adapter && textLeases == []
    {
      this.cfg, this.adapter := cfg, adapter;
      tail, idempotency, idempotencyBytes, lastModifiedSeq := [], [], 0, map[];
      textLeases, sessionSequence, currentRevision := [], 0, cfg.initialRevision;
      log := [];
      new;
      forall key ensures Indexed(cfg, log, lastModifiedSeq, key) {
      }
    }

    method MinimumAcceptedBaseSeq() returns (base: nat)
      requires Valid()
      ensures base == MinBase(cfg, log)
    {
      TailNamesMinBase(cfg, log);
      base := NamedMinimum(tail, sessionSequence);
    }

    /** The conflict check from the bounded fields decides what the full log decides. */
    method AssertCanApply(request: Request, access: CommandAccess) returns (result: Result<bool, ErrorCode>)
      requires Valid() && request.baseSeq <= sessionSequence
      ensures result.Ok? <==>
        if request.baseSeq == |log| then request.baseRevision == CurrentRevision(cfg, log)
        else MinBase(cfg, log) <= request.baseSeq && !Conflicts(log, request.baseSeq, access)
      ensures result.Ok? ==> result.value == (request.baseSeq != |log|)
      ensures result.Err? ==> result.error == RevisionConflict
    {
      if request.baseSeq == sessionSequence {
        return if request.baseRevision == currentRevision then Ok(false) else Err(RevisionConflict);
      }
      var minimum := MinimumAcceptedBaseSeq();
      if request.baseSeq < minimum {
        return Err(RevisionConflict);
      }
      PrunedIndexRefinesLog(cfg, log, lastModifiedSeq, request.baseSeq, access);
      var conflicts := ConflictKeys(lastModifiedSeq, request.baseSeq, access);
      result := if conflicts != {} then Err(RevisionConflict) else Ok(true);
    }

    method PurgeExpiredTextLeases(now: nat)
      modifies this`textLeases
      ensures textLeases == LiveLeases(old(textLeases), now)
    {
      var kept: seq<TextLease>, n := [], 0;
      while n < |textLeases|
        invariant n <= |textLeases|
        invariant LiveLeases(textLeases, now) == kept + LiveLeases(textLeases[n..], now)
      {
        if textLeases[n].expiresAt > now {
          kept := kept + [textLeases[n]];
        }
        n := n + 1;
      }
      textLeases := kept;
    }

    method RemoveInvalidTextLeases(document: DeckDocument)
      modifies this`textLeases
      ensures textLeases == TextOnly(document, old(textLeases))
    {
      var kept: seq<TextLease>, n := [], 0;
      while n < |textLeases|
        invariant n <= |textLeases|
        invariant TextOnly(document, textLeases) == kept + TextOnly(document, textLeases[n..])
      {
        if IsTextElement(document, textLeases[n].slideId, textLeases[n].elementId) {
          kept := kept + [textLeases[n]];
        }
        n := n + 1;
      }
      textLeases := kept;
    }

    method AssertLeaseAccess(request: Request, access: CommandAccess, now: nat) returns (code: Option<ErrorCode>)
      modifies this`textLeases
      ensures textLeases == LiveLeases(old(textLeases), now)
      ensures code == FirstLeaseError(adapter.document, textLeases, request, access)
    {
      PurgeExpiredTextLeases(now);
      var n := 0;
      while n < |textLeases|
        invariant n <= |textLeases|
        invariant FirstLeaseError(adapter.document, textLeases, request, access)
          == FirstLeaseError(adapter.document, textLeases[n..], request, access)
      {
        var error := LeaseError(adapter.document, textLeases[n], request, access);
        if error.Some? {
          return error;
        }
        n := n + 1;
      }
      code := None;
    }

    method PrepareSubmission(request: Request, now: nat, timestamp: string, transactionId: Id)
      returns (result: Result<Prepared, ErrorCode>)
      requires Valid()
      modifies this`textLeases
      ensures Valid()
      ensures var context := Context(adapter.document, old(textLeases), now, timestamp, transactionId);
        match Decide(cfg, log, context, request)
        case Reject(code) => result == Err(code)
        case Replay(commit) => result == Ok(Existing(commit))
        case Accept(access, rebased) =>
          result == Ok(Fresh(access, rebased, Reservation(cfg, log, context, request, access, rebased)))
      ensures textLeases == old(textLeases) || textLeases == LiveLeases(old(textLeases), now)
      ensures result.Ok? && result.value.Fresh? ==> textLeases == LiveLeases(old(textLeases), now)
    {
      ghost var context := Context(adapter.document, textLeases, now, timestamp, transactionId);
      if cfg.requestBytes(request) > cfg.limits.payload { return Err(PayloadTooLarge); }
      if !RequestSchema(request) { return Err(InvalidRequest); }
      if request.sessionId != cfg.sessionId { return Err(SessionMismatch); }
      if request.documentId != cfg.documentId { return Err(DocumentMismatch); }
      if |request.commands| > cfg.limits.batch { return Err(InvalidRequest); }

      var previous := Lookup(idempotency, KeyOf(request));
      if previous.Some? {
        return if previous.value.fingerprint != request then Err(IdempotencyKeyReuse)
               else Ok(Existing(previous.value.transaction));
      }

      if cfg.engine.revision(adapter.document) != currentRevision { return Err(RevisionConflict); }
      if request.baseSeq > sessionSequence { return Err(FutureBase); }

      var access := Analyze(request.commands);
      var applicable := AssertCanApply(request, access);
      if applicable.Err? { return Err(applicable.error); }
      var leaseError := AssertLeaseAccess(request, access, now);
      if leaseError.Some? { return Err(leaseError.value); }

      var draft := NextCommit(
        sessionSequence, currentRevision, request, timestamp, transactionId, access, applicable.value,
        LongestRevision());
      var reservation := cfg.reservation(request, draft);
      if reservation > cfg.limits.windowBytes { return Err(IdempotencyCapacity); }
      result := Ok(Fresh(access, applicable.value, reservation));
    }

    method Analyze(commands: seq<Command>) returns (access: CommandAccess)
      requires UsesCommandFootprints(cfg)
      ensures access == cfg.footprint(commands, adapter.document)
    {
      access := AnalyzeCommandAccess(commands, Some(adapter.document));
    }

    method PruneHistoricalWriteKeys(minimum: int)
      modifies this`lastModifiedSeq
      ensures lastModifiedSeq == Prune(old(lastModifiedSeq), minimum)
    {
      var pending := lastModifiedSeq.Keys;
      while pending != {}
        invariant pending <= old(lastModifiedSeq).Keys
        invariant forall key :: key in lastModifiedSeq <==>
          key in old(lastModifiedSeq) && (key in pending || old(lastModifiedSeq)[key] > minimum)
        invariant forall key | key in lastModifiedSeq :: lastModifiedSeq[key] == old(lastModifiedSeq)[key]
        decreases pending
      {
        var key :| key in pending;
        if key in lastModifiedSeq && lastModifiedSeq[key] <= minimum {
          lastModifiedSeq := lastModifiedSeq - {key};
        }
        pending := pending - {key};
      }
    }

    /** Remember one result, then evict from the oldest until both limits hold. */
    method RememberIdempotentResult(entry: IdempotencyEntry)
      requires idempotencyBytes == SumBytes(idempotency)
      modifies this`idempotency, this`idempotencyBytes
      ensures idempotency == LongestFitting(Place(old(idempotency), entry), cfg.limits)
      ensures idempotencyBytes == SumBytes(idempotency)
    {
      var replaced := Lookup(idempotency, entry.key);
      PlaceCountsBytes(idempotency, entry);
      LookupIsCounted(idempotency, entry.key);
      if replaced.Some? {
        idempotencyBytes := idempotencyBytes - replaced.value.accountedBytes;
      }
      idempotency := Place(idempotency, entry);
      idempotencyBytes := idempotencyBytes + entry.accountedBytes;
      ghost var placed := idempotency;
      while |idempotency| > cfg.limits.window || idempotencyBytes > cfg.limits.windowBytes
        invariant idempotencyBytes == SumBytes(idempotency)
        invariant LongestFitting(placed, cfg.limits) == LongestFitting(idempotency, cfg.limits)
        decreases |idempotency|
      {
        idempotencyBytes := idempotencyBytes - idempotency[0].accountedBytes;
        idempotency := idempotency[1..];
      }
    }

    method FinalizeSubmission(
      request: Request, commit: Commit, reservation: nat, after: DeckDocument, ghost entry: LogEntry)
      requires Valid() && Produced(cfg, log, entry) && Checked(cfg, log, entry) && Recorded(cfg, log, entry)
      requires entry.request == request && entry.commit == commit && entry.bytes == reservation
      modifies this
      ensures Valid() && log == old(log) + [entry]
      ensures textLeases == TextOnly(after, old(textLeases))
    {
      hide RunLog, IndexMatches, Retained, Window, Produced;
      CommitExtendsRun(cfg, log, entry);
      RecordCommit(commit, entry);
      CommitKeepsWindow(cfg, log, entry);
      RememberIdempotentResult(IdempotencyEntry(KeyOf(request), request, commit, reservation));
      RemoveInvalidTextLeases(after);
      log := log + [entry];
    }

    /** Advance the sequence, stamp the written keys, and drop what falls out of the tail. */
    method RecordCommit(commit: Commit, ghost entry: LogEntry)
      requires cfg.limits.Positive() && RunLog(cfg, log + [entry]) && entry.commit == commit
      requires sessionSequence == |log| && tail == Retained(cfg, log) && IndexMatches(cfg, log, lastModifiedSeq)
      modifies this`sessionSequence, this`currentRevision, this`lastModifiedSeq, this`tail
      ensures var next := log + [entry];
        && sessionSequence == |next| && currentRevision == CurrentRevision(cfg, next)
        && tail == Retained(cfg, next) && IndexMatches(cfg, next, lastModifiedSeq)
    {
      CommitKeepsTail(cfg, log, entry);
      CommitKeepsIndex(cfg, log, entry, lastModifiedSeq);
      TailNamesMinBase(cfg, log + [entry]);
      sessionSequence := sessionSequence + 1;
      currentRevision := commit.afterRevision;
      lastModifiedSeq := Stamp(lastModifiedSeq, commit.access.writeSet, sessionSequence);
      tail := Pushed(tail, commit, cfg.limits.tail);
      PruneHistoricalWriteKeys(NamedMinimum(tail, sessionSequence));
    }

    /** One submission: the bounded host decides and records what the full log calls for. */
    method Submit(request: Request, now: nat, timestamp: string, transactionId: Id)
      returns (result: Result<Commit, ErrorCode>)
      requires Valid()
      modifies this, adapter
      ensures Valid()
      ensures var context := Context(old(adapter.document), old(textLeases), now, timestamp, transactionId);
        match Decide(cfg, old(log), context, request)
        case Reject(code) =>
          result == Err(code) && log == old(log) && adapter.document == old(adapter.document)
        case Replay(commit) =>
          result == Ok(commit) && log == old(log) && adapter.document == old(adapter.document)
        case Accept(access, rebased) =>
          match Outcome(cfg, old(log), context, request, access, rebased)
          case None =>
            result == Err(TransactionFailed) && log == old(log) && adapter.document == old(adapter.document)
          case Some(after) =>
            var entry := MakeEntry(cfg, old(log), context, request, access, rebased, after);
            && result == Ok(entry.commit) && log == old(log) + [entry] && adapter.document == after
            && textLeases == TextOnly(after, LiveLeases(old(textLeases), now))
      ensures log == old(log) ==>
        textLeases == old(textLeases) || textLeases == LiveLeases(old(textLeases), now)
    {
      ghost var context := Context(adapter.document, textLeases, now, timestamp, transactionId);
      var prepared := PrepareSubmission(request, now, timestamp, transactionId);
      if prepared.Err? { return Err(prepared.error); }
      if prepared.value.Existing? { return Ok(prepared.value.commit); }

      var Fresh(access, rebased, reservation) := prepared.value;
      var transaction := cfg.engine.transact(
        adapter.document, request.commands, MetadataOf(request, timestamp, transactionId));
      if transaction.None? { return Err(TransactionFailed); }
      ghost var entry := MakeEntry(cfg, log, context, request, access, rebased, transaction.value);
      AcceptedEntryFacts(cfg, log, entry);
      var commit := NextCommit(
        sessionSequence, currentRevision, request, timestamp, transactionId, access, rebased,
        cfg.engine.revision(transaction.value));
      adapter.document := transaction.value;
      FinalizeSubmission(request, commit, reservation, transaction.value, entry);
      result := Ok(commit);
    }

    /** The resync answer computed from the tail is the answer the full log determines. */
    method GetResync(afterSeq: nat, known: Option<Revision>) returns (result: Result<ResyncResponse, ErrorCode>)
      requires Valid()
      ensures result == Resync(cfg, log, adapter.document, afterSeq, known)
    {
      hide RunLog, IndexMatches, Window;
      TailNamesMinBase(cfg, log);
      var document := adapter.document;
      var revision := cfg.engine.revision(document);
      if revision != currentRevision { return Err(RevisionConflict); }
      if afterSeq > sessionSequence { return Err(ResyncRange); }
      var snapshot := Snapshot(sessionSequence, document, revision);
      if afterSeq == sessionSequence {
        if known.Some? && known.value != currentRevision { return Ok(snapshot); }
        return Ok(Tail(afterSeq, sessionSequence, currentRevision, []));
      }
      var firstRetained := if tail == [] then sessionSequence + 1 else tail[0].sessionSeq;
      if afterSeq < firstRetained - 1 { return Ok(snapshot); }
      TailFrom(cfg, log, afterSeq);
      var transactions := CommitsAfter(tail, afterSeq, MinBase(cfg, log));
      if known.Some? && known.value != transactions[0].beforeRevision { return Ok(snapshot); }
      var response := Tail(afterSeq, sessionSequence, currentRevision, transactions);
      result := if cfg.responseBytes(response) > cfg.limits.tailResyncBytes then Ok(snapshot) else Ok(response);
    }

    method AcquireTextLease(clientId: string, slideId: Id, elementId: Id, now: nat, freshToken: string)
      returns (result: Result<TextLease, ErrorCode>)
      requires Valid()
      modifies this`textLeases
      ensures Valid()
      ensures var live := LiveLeases(old(textLeases), now);
        var held := LeaseOn(live, elementId);
        if ElementInSlide(adapter.document, slideId, elementId).None? then
          result == Err(ErrorCode.NotFound) && textLeases == live
        else if !IsTextElement(adapter.document, slideId, elementId) then
          result == Err(NotTextElement) && textLeases == live
        else if held.Some? && held.value.clientId != clientId then result == Err(TextLeaseHeld) && textLeases == live
        else
          && result.Ok?
          && result.value.clientId == clientId && result.value.elementId == elementId
          && result.value.expiresAt == now + cfg.limits.textLeaseTtl
          && (held.Some? ==> result.value.token == held.value.token && result.value.acquiredAt == held.value.acquiredAt)
          && (held.None? ==> result.value.token == freshToken && result.value.acquiredAt == now)
          && textLeases == SetLease(live, result.value)
    {
      PurgeExpiredTextLeases(now);
      var element := ElementInSlide(adapter.document, slideId, elementId);
      if element.None? { return Err(ErrorCode.NotFound); }
      if !element.value.Text? { return Err(NotTextElement); }
      var existing := LeaseOn(textLeases, elementId);
      if existing.Some? && existing.value.clientId != clientId { return Err(TextLeaseHeld); }
      var lease := TextLease(
        clientId, slideId, elementId,
        if existing.Some? then existing.value.token else freshToken,
        if existing.Some? then existing.value.acquiredAt else now,
        now + cfg.limits.textLeaseTtl);
      textLeases := SetLease(textLeases, lease);
      result := Ok(lease);
    }

    /** A renewal needs the live lease with its slide, owner and token, and only moves its expiry. */
    method RenewTextLease(clientId: string, slideId: Id, elementId: Id, token: string, now: nat)
      returns (result: Result<TextLease, ErrorCode>)
      requires Valid()
      modifies this`textLeases
      ensures Valid()
      ensures var live := LiveLeases(old(textLeases), now);
        var held := LeaseOn(live, elementId);
        if held.Some? && held.value.clientId == clientId && held.value.slideId == slideId && held.value.token == token
        then
          && result == Ok(held.value.(expiresAt := now + cfg.limits.textLeaseTtl))
          && textLeases == SetLease(live, result.value)
        else result == Err(InvalidLockToken) && textLeases == live
    {
      PurgeExpiredTextLeases(now);
      var existing := LeaseOn(textLeases, elementId);
      if existing.None? { return Err(InvalidLockToken); }
      var lease := existing.value;
      if lease.clientId != clientId || lease.slideId != slideId || lease.token != token {
        return Err(InvalidLockToken);
      }
      var renewed := lease.(expiresAt := now + cfg.limits.textLeaseTtl);
      textLeases := SetLease(textLeases, renewed);
      result := Ok(renewed);
    }

    method ReleaseTextLease(clientId: string, slideId: Id, elementId: Id, token: string, now: nat)
      returns (result: Result<bool, ErrorCode>)
      requires Valid()
      modifies this`textLeases
      ensures Valid()
      ensures var live := LiveLeases(old(textLeases), now);
        var held := LeaseOn(live, elementId);
        if held.None? then result == Ok(false) && textLeases == live
        else if held.value.clientId == clientId && held.value.slideId == slideId && held.value.token == token then
          result == Ok(true) && textLeases == WithoutElement(live, elementId)
        else result == Err(InvalidLockToken) && textLeases == live
    {
      PurgeExpiredTextLeases(now);
      var existing := LeaseOn(textLeases, elementId);
      if existing.None? { return Ok(false); }
      var lease := existing.value;
      if lease.clientId != clientId || lease.slideId != slideId || lease.token != token {
        return Err(InvalidLockToken);
      }
      textLeases := WithoutElement(textLeases, elementId);
      result := Ok(true);
    }
  }

  /** Applies a host-committed transaction to a replica, checking identity and both revisions. */
  method ApplyCommittedTransaction(engine: Engine, documentId: Id, adapter: DocumentAdapter, commit: Commit)
    returns (result: Result<DeckDocument, ErrorCode>)
    modifies adapter
    ensures result == ReplicaStep(engine, documentId, old(adapter.document), commit)
    ensures result.Ok? ==> adapter.document == result.value
    ensures result == Err(DocumentMismatch) || result == Err(TransactionFailed) ==>
      adapter.document == old(adapter.document)
    ensures result == Err(RevisionConflict) && engine.revision(old(adapter.document)) != commit.beforeRevision ==>
      adapter.document == old(adapter.document)
    ensures result == Err(RevisionConflict) && engine.revision(old(adapter.document)) == commit.beforeRevision ==>
      && engine.transact(old(adapter.document), commit.commands, commit.metadata) == Some(adapter.document)
      && engine.revision(adapter.document) != commit.afterRevision
  {
    var document := adapter.document;
    if document.id != documentId { return Err(DocumentMismatch); }
    if engine.revision(document) != commit.beforeRevision { return Err(RevisionConflict); }
    var transaction := engine.transact(document, commit.commands, commit.metadata);
    if transaction.None? { return Err(TransactionFailed); }
    adapter.document := transaction.value;
    if engine.revision(transaction.value) != commit.afterRevision { return Err(RevisionConflict); }
    result := Ok(transaction.value);
  }

  // ----- Steps used above -----

  lemma CommitExtendsRun(cfg: HostConfig, log: seq<LogEntry>, entry: LogEntry)
    requires RunLog(cfg, log) && Produced(cfg, log, entry)
    ensures RunLog(cfg, log + [entry])
  {
    var next := log + [entry];
    forall i | 0 <= i < |next| ensures Produced(cfg, next[..i], next[i]) {
      if i < |log| {
        assert Produced(cfg, log[..i], log[i]);
        assert next[..i] == log[..i];
      } else {
        assert next[..i] == log;
      }
    }
  }

  lemma CommitKeepsWindow(cfg: HostConfig, log: seq<LogEntry>, entry: LogEntry)
    requires Lookup(Window(cfg, log), KeyOf(entry.request)).None?
    ensures var remembered := IdempotencyEntry(KeyOf(entry.request), entry.request, entry.commit, entry.bytes);
      Window(cfg, log + [entry]) == LongestFitting(Place(Window(cfg, log), remembered), cfg.limits)
  {
    var remembered := IdempotencyEntry(KeyOf(entry.request), entry.request, entry.commit, entry.bytes);
    assert Remembered(log + [entry]) == Remembered(log) + [remembered];
    EvictionIsIncremental(Remembered(log), remembered, cfg.limits);
    PlaceFreshAppends(Window(cfg, log), remembered);
  }

  lemma AcceptedEntryFacts(cfg: HostConfig, log: seq<LogEntry>, entry: LogEntry)
    requires Produced(cfg, log, entry)
    ensures Checked(cfg, log, entry) && Recorded(cfg, log, entry)
  {
  }
}
