/**
 What the session host promises, stated over the full commit log that the host itself never
 keeps: when a submission is replayed, refused or committed, and what each commit records.
 */
module HostLog {
  import opened Wrappers
  import opened DeckModel
  import opened Commands
  import opened Access
  import opened Engine

  datatype ErrorCode =
    | InvalidRequest | PayloadTooLarge | SessionMismatch | DocumentMismatch | FutureBase
    | RevisionConflict | IdempotencyKeyReuse | IdempotencyCapacity | TextLeaseHeld
    | LockTokenRequired | InvalidLockToken | NotTextElement | NotFound | ResyncRange
    | TransactionFailed

  datatype Limits = Limits(
    tail: nat, window: nat, windowBytes: nat, batch: nat, payload: nat,
    tailResyncBytes: nat, textLeaseTtl: nat)
  {
    predicate Positive() {
      tail > 0 && window > 0 && windowBytes > 0 && batch > 0 && payload > 0 &&
      tailResyncBytes > 0 && textLeaseTtl > 0
    }
  }

  datatype Request = Request(
    sessionId: Id, documentId: Id, clientId: string, clientRequestId: Id, baseRevision: Revision,
    baseSeq: nat, commands: seq<Command>, origin: string, labelText: string, lockTokens: map<Id, string>)

  datatype Commit = Commit(
    sessionSeq: nat, transactionId: Id, clientId: string, clientRequestId: Id,
    beforeRevision: Revision, afterRevision: Revision, rebasedFromRevision: Option<Revision>,
    commands: seq<Command>, metadata: Metadata, access: CommandAccess)

  datatype TextLease = TextLease(
    clientId: string, slideId: Id, elementId: Id, token: string, acquiredAt: nat, expiresAt: nat)

  datatype ResyncResponse =
    | Tail(fromSeq: nat, toSeq: nat, revision: Revision, transactions: seq<Commit>)
    | Snapshot(sessionSeq: nat, document: DeckDocument, snapshotRevision: Revision)

  /**
   Identity, limits, the access analysis, and the byte measures of the JSON layer. The measures
   stay open; the analysis is pinned to the command footprints by `UsesCommandFootprints`.
   */
  datatype HostConfig = HostConfig(
    sessionId: Id, documentId: Id, initialRevision: Revision, limits: Limits, engine: Engine,
    footprint: (seq<Command>, DeckDocument) -> CommandAccess,
    requestBytes: Request -> nat, reservation: (Request, Commit) -> nat,
    responseBytes: ResyncResponse -> nat)

  ghost predicate UsesCommandFootprints(cfg: HostConfig) {
    forall commands, document {:trigger BatchFootprint(commands, Some(document))} ::
      cfg.footprint(commands, document) == BatchFootprint(commands, Some(document))
  }

  /** Everything outside the log that one submission depends on. */
  datatype Context = Context(
    document: DeckDocument, leases: seq<TextLease>, now: nat, timestamp: string, transactionId: Id)

  datatype RequestKey = RequestKey(clientId: string, clientRequestId: Id)

  /** Requests stand for their own fingerprint: canonical JSON is injective. */
  datatype IdempotencyEntry = IdempotencyEntry(
    key: RequestKey, fingerprint: Request, transaction: Commit, accountedBytes: nat)

  /** One commit of the full log, with the request and the context it was decided in. */
  datatype LogEntry = LogEntry(
    request: Request, context: Context, commit: Commit, after: DeckDocument, bytes: nat)

  datatype Decision = Reject(code: ErrorCode) | Replay(commit: Commit) | Accept(access: CommandAccess, rebased: bool)

  predicate RequestSchema(request: Request) {
    1 <= |request.commands| <= 100 &&
    forall i | 0 <= i < |request.commands| :: CommandSchema(request.commands[i])
  }

  function KeyOf(request: Request): RequestKey {
    RequestKey(request.clientId, request.clientRequestId)
  }

  // ----- The log seen whole -----

  function CurrentRevision(cfg: HostConfig, log: seq<LogEntry>): Revision {
    if log == [] then cfg.initialRevision else log[|log| - 1].commit.afterRevision
  }

  /** Bases older than this fall outside the retained tail. */
  function MinBase(cfg: HostConfig, log: seq<LogEntry>): nat {
    if |log| <= cfg.limits.tail then 0 else |log| - cfg.limits.tail
  }

  function Commits(log: seq<LogEntry>): (commits: seq<Commit>)
    ensures |commits| == |log|
    ensures forall i | 0 <= i < |log| :: commits[i] == log[i].commit
  {
    seq(|log|, i requires 0 <= i < |log| => log[i].commit)
  }

  /** Some commit after sequence `base` wrote `key`. */
  ghost predicate WrittenAfter(log: seq<LogEntry>, base: nat, key: EntityKey) {
    exists i :: base <= i < |log| && key in log[i].commit.access.writeSet
  }

  // ----- The idempotency window -----

  function Remembered(log: seq<LogEntry>): (entries: seq<IdempotencyEntry>)
    ensures |entries| == |log|
    ensures forall i | 0 <= i < |log| ::
      entries[i] == IdempotencyEntry(KeyOf(log[i].request), log[i].request, log[i].commit, log[i].bytes)
  {
    seq(|log|, i requires 0 <= i < |log| =>
      IdempotencyEntry(KeyOf(log[i].request), log[i].request, log[i].commit, log[i].bytes))
  }

  function SumBytes(entries: seq<IdempotencyEntry>): nat {
    if entries == [] then 0 else entries[0].accountedBytes + SumBytes(entries[1..])
  }

  predicate Fits(entries: seq<IdempotencyEntry>, limits: Limits) {
    |entries| <= limits.window && SumBytes(entries) <= limits.windowBytes
  }

  function LongestFitting(entries: seq<IdempotencyEntry>, limits: Limits): seq<IdempotencyEntry> {
    if Fits(entries, limits) then entries else LongestFitting(entries[1..], limits)
  }

  function Window(cfg: HostConfig, log: seq<LogEntry>): seq<IdempotencyEntry> {
    LongestFitting(Remembered(log), cfg.limits)
  }

  function Lookup(entries: seq<IdempotencyEntry>, key: RequestKey): (found: Option<IdempotencyEntry>)
    ensures found.Some? ==> found.value in entries && found.value.key == key
    ensures found.None? ==> forall entry | entry in entries :: entry.key != key
  {
    if entries == [] then None
    else if entries[0].key == key then Some(entries[0])
    else Lookup(entries[1..], key)
  }

  // ----- Text leases -----

  function LiveLeases(leases: seq<TextLease>, now: nat): seq<TextLease> {
    if leases == [] then []
    else if leases[0].expiresAt > now then [leases[0]] + LiveLeases(leases[1..], now)
    else LiveLeases(leases[1..], now)
  }

  /** The groups around an element, outermost first. */
  function AncestorGroupIds(elements: seq<Element>, id: Id): Option<seq<Id>>
    decreases elements
  {
    if elements == [] then None
    else if elements[0].Id() == id then Some([])
    else
      var nested := if elements[0].Group? then AncestorGroupIds(elements[0].children, id) else None;
      if nested.Some? then Some([elements[0].Id()] + nested.value)
      else AncestorGroupIds(elements[1..], id)
  }

  function ProtectedKeys(document: DeckDocument, lease: TextLease): set<EntityKey> {
    var slide := FindSlide(document.slides, lease.slideId);
    var ancestors := if slide.None? then None else AncestorGroupIds(slide.value.elements, lease.elementId);
    {SlideEntity(lease.slideId), ElementEntity(lease.elementId)} +
    if ancestors.None? then {} else ElementKeys(ancestors.value)
  }

  /** The error one lease raises against a batch that writes one of its protected keys. */
  function LeaseError(document: DeckDocument, lease: TextLease, request: Request, access: CommandAccess)
    : Option<ErrorCode>
  {
    if ProtectedKeys(document, lease) !! access.writeSet then None
    else if lease.clientId != request.clientId then Some(TextLeaseHeld)
    else if lease.elementId !in request.lockTokens then Some(LockTokenRequired)
    else if request.lockTokens[lease.elementId] != lease.token then Some(InvalidLockToken)
    else None
  }

  function FirstLeaseError(
    document: DeckDocument, leases: seq<TextLease>, request: Request, access: CommandAccess)
    : (code: Option<ErrorCode>)
    ensures code.None? <==> forall lease | lease in leases :: LeaseError(document, lease, request, access).None?
  {
    if leases == [] then None
    else
      var head := LeaseError(document, leases[0], request, access);
      if head.Some? then head else FirstLeaseError(document, leases[1..], request, access)
  }

  // ----- The decision on one submission -----

  function MetadataOf(request: Request, timestamp: string, transactionId: Id): Metadata {
    Metadata(transactionId, request.clientId, request.origin, request.labelText, timestamp)
  }

  /** The commit that follows `sequence` commits ending at `revision`. */
  function NextCommit(
    sequence: nat, revision: Revision, request: Request, timestamp: string, transactionId: Id,
    access: CommandAccess, rebased: bool, afterRevision: Revision): Commit
  {
    Commit(
      sequence + 1, transactionId, request.clientId, request.clientRequestId, revision, afterRevision,
      if rebased then Some(request.baseRevision) else None,
      request.commands, MetadataOf(request, timestamp, transactionId), access)
  }

  function MakeCommit(
    cfg: HostConfig, log: seq<LogEntry>, context: Context, request: Request,
    access: CommandAccess, rebased: bool, afterRevision: Revision): Commit
  {
    NextCommit(
      |log|, CurrentRevision(cfg, log), request, context.timestamp, context.transactionId,
      access, rebased, afterRevision)
  }

  function LongestRevision(): Revision {
    seq(160, i => 'x')
  }

  /** The reservation is measured before the commit exists, with the longest revision token. */
  function Reservation(
    cfg: HostConfig, log: seq<LogEntry>, context: Context, request: Request,
    access: CommandAccess, rebased: bool): nat
  {
    cfg.reservation(
      request, MakeCommit(cfg, log, context, request, access, rebased, LongestRevision()))
  }

  /** The conflict rule over the full log: no later commit wrote a key the batch touches. */
  ghost predicate Conflicts(log: seq<LogEntry>, base: nat, access: CommandAccess) {
    exists key :: key in Touched(access) && WrittenAfter(log, base, key)
  }

  ghost function Decide(cfg: HostConfig, log: seq<LogEntry>, context: Context, request: Request): Decision {
    if cfg.requestBytes(request) > cfg.limits.payload then Reject(PayloadTooLarge)
    else if !RequestSchema(request) then Reject(InvalidRequest)
    else if request.sessionId != cfg.sessionId then Reject(SessionMismatch)
    else if request.documentId != cfg.documentId then Reject(DocumentMismatch)
    else if |request.commands| > cfg.limits.batch then Reject(InvalidRequest)
    else
      var previous := Lookup(Window(cfg, log), KeyOf(request));
      if previous.Some? then
        if previous.value.fingerprint != request then Reject(IdempotencyKeyReuse)
        else Replay(previous.value.transaction)
      else if cfg.engine.revision(context.document) != CurrentRevision(cfg, log) then Reject(RevisionConflict)
      else if request.baseSeq > |log| then Reject(FutureBase)
      else
        var access := cfg.footprint(request.commands, context.document);
        var rebased := request.baseSeq != |log|;
        if !rebased && request.baseRevision != CurrentRevision(cfg, log) then Reject(RevisionConflict)
        else if rebased && request.baseSeq < MinBase(cfg, log) then Reject(RevisionConflict)
        else if rebased && Conflicts(log, request.baseSeq, access) then Reject(RevisionConflict)
        else
          var leaseError :=
            FirstLeaseError(context.document, LiveLeases(context.leases, context.now), request, access);
          if leaseError.Some? then Reject(leaseError.value)
          else if Reservation(cfg, log, context, request, access, rebased) > cfg.limits.windowBytes then
            Reject(IdempotencyCapacity)
          else Accept(access, rebased)
  }

  /** The transaction an accepted submission runs on the adapter's document. */
  function Outcome(
    cfg: HostConfig, log: seq<LogEntry>, context: Context, request: Request, access: CommandAccess, rebased: bool)
    : Option<DeckDocument>
  {
    var draft := MakeCommit(cfg, log, context, request, access, rebased, "");
    cfg.engine.transact(context.document, draft.commands, draft.metadata)
  }

  function MakeEntry(
    cfg: HostConfig, log: seq<LogEntry>, context: Context, request: Request,
    access: CommandAccess, rebased: bool, after: DeckDocument): LogEntry
  {
    LogEntry(
      request, context,
      MakeCommit(cfg, log, context, request, access, rebased, cfg.engine.revision(after)),
      after, Reservation(cfg, log, context, request, access, rebased))
  }

  /** `entry` is what the host appends to `log` for the submission it records. */
  ghost predicate Produced(cfg: HostConfig, log: seq<LogEntry>, entry: LogEntry) {
    var decision := Decide(cfg, log, entry.context, entry.request);
    decision.Accept? &&
    Outcome(cfg, log, entry.context, entry.request, decision.access, decision.rebased) == Some(entry.after) &&
    entry == MakeEntry(cfg, log, entry.context, entry.request, decision.access, decision.rebased, entry.after)
  }

  /** A log some run of the host can have: every entry was produced from the log before it. */
  ghost predicate RunLog(cfg: HostConfig, log: seq<LogEntry>) {
    forall i {:trigger Produced(cfg, log[..i], log[i])} | 0 <= i < |log| :: Produced(cfg, log[..i], log[i])
  }
}
