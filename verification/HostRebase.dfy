/** What the host's conflict rule buys a client whose batch is committed on top of newer commits. */
module HostRebase {
  import opened Wrappers
  import opened DeckModel
  import opened Commands
  import opened Access
  import opened Engine
  import opened LocalEdits
  import opened ParsedDeck
  import opened Rebase
  import HostLog
  import HostTheorems

  /** No transform of the batch targets a connector of the document. */
  ghost predicate MovesNoConnector(document: DeckDocument, commands: seq<Command>) {
    forall i, id, slide | 0 <= i < |commands| && commands[i].ElementTransform? &&
        id in TransformTargets(commands[i].transforms) && slide in document.slides && slide.id == commands[i].slideId ::
      var element := FindElement(slide.elements, id);
      element.Some? ==> !element.value.Connector?
  }

  ghost predicate InPlace(document: DeckDocument, commands: seq<Command>) {
    AllLocal(commands) && ParsedCommands(commands) && MovesNoConnector(document, commands)
  }

  /**
   On parsed documents, where parsing changes nothing, the engine runs in-place batches as modelled, stamps
   the time, and may still refuse the result.
   */
  ghost predicate RunsInPlaceBatches(engine: Engine) {
    forall document, commands, metadata {:trigger engine.transact(document, commands, metadata)} ::
      ParsedDocument(document) && InPlace(document, commands) && engine.transact(document, commands, metadata).Some? ==>
      ExecuteAll(document, commands).Ok? &&
      engine.transact(document, commands, metadata).value ==
        ExecuteAll(document, commands).value.(modifiedAt := metadata.timestamp)
  }

  /** The declared footprint of an in-place command covers what it really reads and writes. */
  lemma FootprintCoversCommand(command: Command, document: Option<DeckDocument>)
    requires IsLocal(command)
    ensures LocalWrites(command) <= CommandFootprint(command, document).writeSet
    ensures LocalTouched(command) <= Touched(CommandFootprint(command, document))
  {
    if command.ElementTransform? {
      var ids := TransformTargets(command.transforms);
      forall i | 0 <= i < |command.transforms|
        ensures ElementEntity(command.transforms[i].elementId) in ElementKeys(ids)
      {
        assert ids[i] in ids;
      }
    }
  }

  lemma {:induction false} FootprintCoversBatch(commands: seq<Command>, all: seq<Command>, document: Option<DeckDocument>)
    requires AllLocal(commands) && |commands| <= |all| && commands == all[|all| - |commands|..]
    ensures BatchWrites(commands) <= BatchFootprint(all, document).writeSet
    ensures BatchTouched(commands) <= Touched(BatchFootprint(all, document))
    decreases |commands|
  {
    if commands != [] {
      FootprintCoversCommand(commands[0], document);
      BatchContains(all, document, |all| - |commands|);
      FootprintCoversBatch(commands[1..], all, document);
    }
  }

  lemma DeclaredFootprintCovers(cfg: HostLog.HostConfig, commands: seq<Command>, document: DeckDocument)
    requires HostLog.UsesCommandFootprints(cfg) && AllLocal(commands)
    ensures BatchWrites(commands) <= cfg.footprint(commands, document).writeSet
    ensures BatchTouched(commands) <= Touched(cfg.footprint(commands, document))
  {
    assert commands == commands[0..];
    FootprintCoversBatch(commands, commands, Some(document));
    assert cfg.footprint(commands, document) == BatchFootprint(commands, Some(document));
  }

  /** One in-place commit changes the host's document only in the keys it declared. */
  lemma CommitChangesOnlyItsWrites(
    cfg: HostLog.HostConfig, initial: DeckDocument, log: seq<HostLog.LogEntry>, i: nat)
    requires HostLog.UsesCommandFootprints(cfg) && HostLog.RunLog(cfg, log) && RunsInPlaceBatches(cfg.engine)
    requires HostTheorems.Undisturbed(initial, log) && i < |log|
    requires InPlace(log[i].context.document, log[i].request.commands)
    requires ParsedDocument(HostTheorems.DocumentAt(initial, log, i))
    ensures ParsedDocument(HostTheorems.DocumentAt(initial, log, i + 1))
    ensures ChangedOnly(
      HostTheorems.DocumentAt(initial, log, i), HostTheorems.DocumentAt(initial, log, i + 1),
      log[i].commit.access.writeSet)
  {
    hide ParsedDocument, ParsedCommands, MovesNoConnector;
    var before, commands := log[i].context.document, log[i].request.commands;
    HostTheorems.EntryFacts(cfg, log, i);
    assert before == HostTheorems.DocumentAt(initial, log, i);
    BatchFrames(before, commands);
    BatchStaysParsed(before, commands);
    DeclaredFootprintCovers(cfg, commands, before);
    var after := ExecuteAll(before, commands).value;
    TimeStampStaysParsed(after, log[i].after.modifiedAt);
    SlidesAgreementNarrows(
      before.slides, after.slides, Outside(BatchWrites(commands)), Outside(log[i].commit.access.writeSet));
  }

  /** Between a batch's base and its own turn, nothing it touches was changed. */
  lemma {:induction false} InterveningCommitsMissTheBatch(
    cfg: HostLog.HostConfig, initial: DeckDocument, log: seq<HostLog.LogEntry>, at: nat, j: nat)
    returns (changed: set<EntityKey>)
    requires HostLog.UsesCommandFootprints(cfg) && HostLog.RunLog(cfg, log) && RunsInPlaceBatches(cfg.engine)
    requires HostTheorems.Undisturbed(initial, log) && at <= j < |log| && log[j].request.baseSeq <= at
    requires forall i | log[j].request.baseSeq <= i < at ::
      InPlace(log[i].context.document, log[i].request.commands)
    requires ParsedDocument(HostTheorems.DocumentAt(initial, log, log[j].request.baseSeq))
    ensures ParsedDocument(HostTheorems.DocumentAt(initial, log, at))
    ensures changed !! Touched(log[j].commit.access)
    ensures ChangedOnly(
      HostTheorems.DocumentAt(initial, log, log[j].request.baseSeq), HostTheorems.DocumentAt(initial, log, at), changed)
    decreases at
  {
    hide ParsedDocument, InPlace, RunsInPlaceBatches;
    var base := HostTheorems.DocumentAt(initial, log, log[j].request.baseSeq);
    if at == log[j].request.baseSeq {
      changed := {};
      SlidesAgreeWithThemselves(base.slides, Outside({}));
    } else {
      var earlier := InterveningCommitsMissTheBatch(cfg, initial, log, at - 1, j);
      CommitChangesOnlyItsWrites(cfg, initial, log, at - 1);
      HostTheorems.FirstCommitterWins(cfg, log, at - 1, j);
      changed := earlier + log[at - 1].commit.access.writeSet;
      ChangesCompose(
        base, HostTheorems.DocumentAt(initial, log, at - 1), HostTheorems.DocumentAt(initial, log, at),
        earlier, log[at - 1].commit.access.writeSet);
    }
  }

  /**
   Rebase stability: a committed stale batch would also have run at its base, left there the same
   values in everything it touches, and changed nothing else of the document it landed on.
   */
  lemma AcceptedRebaseIsStable(
    cfg: HostLog.HostConfig, initial: DeckDocument, log: seq<HostLog.LogEntry>, j: nat)
    requires HostLog.UsesCommandFootprints(cfg) && HostLog.RunLog(cfg, log) && RunsInPlaceBatches(cfg.engine)
    requires HostTheorems.Undisturbed(initial, log) && j < |log|
    requires log[j].request.baseSeq <= j
    requires InPlace(log[j].context.document, log[j].request.commands)
    requires forall i | log[j].request.baseSeq <= i < j ::
      InPlace(log[i].context.document, log[i].request.commands)
    requires ParsedDocument(HostTheorems.DocumentAt(initial, log, log[j].request.baseSeq))
    ensures var commands := log[j].request.commands;
      var atBase := ExecuteAll(HostTheorems.DocumentAt(initial, log, log[j].request.baseSeq), commands);
      && atBase.Ok?
      && DocumentsAgree(atBase.value, log[j].after, Inside(BatchTouched(commands)))
      && ChangedOnly(HostTheorems.DocumentAt(initial, log, j), log[j].after, BatchWrites(commands))
  {
    hide ParsedDocument, ParsedCommands, MovesNoConnector;
    var commands := log[j].request.commands;
    var base := HostTheorems.DocumentAt(initial, log, log[j].request.baseSeq);
    var current := HostTheorems.DocumentAt(initial, log, j);
    var changed := InterveningCommitsMissTheBatch(cfg, initial, log, j, j);
    HostTheorems.EntryFacts(cfg, log, j);
    assert current == log[j].context.document;
    DeclaredFootprintCovers(cfg, commands, current);
    StaleBatchIsStable(base, current, changed, commands);
  }
}
