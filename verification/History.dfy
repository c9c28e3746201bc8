/** Undo history of a session: a timeline of documents with a cursor on the current one. */
module History {
  import opened Wrappers
  import opened DeckModel
  import opened Engine

  datatype Entry = Entry(
    before: DeckDocument, after: DeckDocument, revisionBefore: Revision, revisionAfter: Revision,
    metadata: seq<Metadata>, groupId: Option<string>)

  /** The newest entry is the last one of either stack. */
  datatype Timeline = Timeline(undo: seq<Entry>, redo: seq<Entry>, current: DeckDocument)

  predicate Coalesces(engine: Engine, timeline: Timeline, groupId: Option<string>) {
    && groupId.Some? && timeline.undo != []
    && var latest := timeline.undo[|timeline.undo| - 1];
       latest.groupId == groupId && latest.revisionAfter == engine.revision(timeline.current)
  }

  /** Recording an edit from the current document to `after`. */
  function Recorded(
    engine: Engine, limit: nat, timeline: Timeline, after: DeckDocument, metadata: Metadata, groupId: Option<string>)
    : Timeline
  {
    var undo := timeline.undo;
    if Coalesces(engine, timeline, groupId) then
      var latest := undo[|undo| - 1];
      var merged := latest.(
        after := after, revisionAfter := engine.revision(after), metadata := latest.metadata + [metadata]);
      Timeline(undo[..|undo| - 1] + [merged], [], after)
    else
      var entry := Entry(
        timeline.current, after, engine.revision(timeline.current), engine.revision(after), [metadata], groupId);
      var pushed := undo + [entry];
      Timeline(if |pushed| > limit then pushed[1..] else pushed, [], after)
  }

  function Undone(timeline: Timeline): Timeline
    requires timeline.undo != []
  {
    var last := |timeline.undo| - 1;
    var entry := timeline.undo[last];
    Timeline(timeline.undo[..last], timeline.redo + [entry], entry.before)
  }

  function Redone(timeline: Timeline): Timeline
    requires timeline.redo != []
  {
    var last := |timeline.redo| - 1;
    var entry := timeline.redo[last];
    Timeline(timeline.undo + [entry], timeline.redo[..last], entry.after)
  }

  ghost predicate Faithful(engine: Engine, entries: seq<Entry>) {
    forall i | 0 <= i < |entries| ::
      entries[i].revisionBefore == engine.revision(entries[i].before) &&
      entries[i].revisionAfter == engine.revision(entries[i].after)
  }

  /** Undo entries lead up to the current document, redo entries lead on from it. */
  ghost predicate Linked(timeline: Timeline) {
    var undo, redo := timeline.undo, timeline.redo;
    && (forall i, j | 0 <= i && j == i + 1 < |undo| :: undo[i].after == undo[j].before)
    && (undo != [] ==> undo[|undo| - 1].after == timeline.current)
    && (forall i, j | 0 <= i && j == i + 1 < |redo| :: redo[i].before == redo[j].after)
    && (redo != [] ==> redo[|redo| - 1].before == timeline.current)
  }

  ghost predicate WellKept(engine: Engine, limit: nat, timeline: Timeline) {
    && Linked(timeline) && Faithful(engine, timeline.undo) && Faithful(engine, timeline.redo)
    && |timeline.undo| + |timeline.redo| <= limit
  }

  lemma RecordKeepsTimeline(
    engine: Engine, limit: nat, timeline: Timeline, after: DeckDocument, metadata: Metadata, groupId: Option<string>)
    requires limit >= 1 && WellKept(engine, limit, timeline)
    ensures WellKept(engine, limit, Recorded(engine, limit, timeline, after, metadata, groupId))
  {
  }

  lemma UndoKeepsTimeline(engine: Engine, limit: nat, timeline: Timeline)
    requires timeline.undo != [] && WellKept(engine, limit, timeline)
    ensures WellKept(engine, limit, Undone(timeline))
  {
  }

  lemma RedoKeepsTimeline(engine: Engine, limit: nat, timeline: Timeline)
    requires timeline.redo != [] && WellKept(engine, limit, timeline)
    ensures WellKept(engine, limit, Redone(timeline))
  {
  }

  function UndoneTimes(timeline: Timeline, k: nat): Timeline
    requires k <= |timeline.undo|
    decreases k
  {
    if k == 0 then timeline else UndoneTimes(Undone(timeline), k - 1)
  }

  function RedoneTimes(timeline: Timeline, k: nat): Timeline
    requires k <= |timeline.redo|
    decreases k
  {
    if k == 0 then timeline else RedoneTimes(Redone(timeline), k - 1)
  }

  lemma UndoneStaysLinked(timeline: Timeline)
    requires timeline.undo != [] && Linked(timeline)
    ensures Linked(Undone(timeline))
    ensures timeline.undo[|timeline.undo| - 1].after == timeline.current
  {
  }

  /** A redo takes back the undo before it. */
  lemma RedoTakesBackUndo(timeline: Timeline)
    requires timeline.undo != [] && timeline.undo[|timeline.undo| - 1].after == timeline.current
    ensures Redone(Undone(timeline)) == timeline
  {
    var last := |timeline.undo| - 1;
    assert timeline.undo[..last] + [timeline.undo[last]] == timeline.undo;
    assert (timeline.redo + [timeline.undo[last]])[..|timeline.redo|] == timeline.redo;
  }

  lemma {:induction false} RedoneTimesSplits(timeline: Timeline, k: nat)
    requires 0 < k <= |timeline.redo|
    ensures |RedoneTimes(timeline, k - 1).redo| == |timeline.redo| - (k - 1)
    ensures RedoneTimes(timeline, k) == Redone(RedoneTimes(timeline, k - 1))
    decreases k
  {
    if k > 1 {
      RedoneTimesSplits(Redone(timeline), k - 1);
    }
  }

  /** Any number of undos followed by as many redos changes nothing. */
  lemma {:induction false} UndosThenRedosAreIdentity(timeline: Timeline, k: nat)
    requires k <= |timeline.undo| && Linked(timeline)
    ensures var undone := UndoneTimes(timeline, k);
      |undone.redo| == |timeline.redo| + k && RedoneTimes(undone, k) == timeline
    decreases k
  {
    hide Linked, Redone;
    if k > 0 {
      UndoneStaysLinked(timeline);
      RedoTakesBackUndo(timeline);
      UndosThenRedosAreIdentity(Undone(timeline), k - 1);
      RedoneTimesSplits(UndoneTimes(timeline, k), k);
    }
  }

  /** The document `k` undos lead to is the one before the `k`-th newest entry. */
  lemma {:induction false} UndosWalkBack(timeline: Timeline, k: nat)
    requires 0 < k <= |timeline.undo|
    ensures UndoneTimes(timeline, k).current == timeline.undo[|timeline.undo| - k].before
    decreases k
  {
    if k > 1 {
      UndosWalkBack(Undone(timeline), k - 1);
    }
  }

  /** A run of edits recorded under one group. */
  function RecordedGroup(
    engine: Engine, limit: nat, timeline: Timeline, edits: seq<(DeckDocument, Metadata)>, groupId: string): Timeline
  {
    if edits == [] then timeline
    else
      var earlier := RecordedGroup(engine, limit, timeline, edits[..|edits| - 1], groupId);
      Recorded(engine, limit, earlier, edits[|edits| - 1].0, edits[|edits| - 1].1, Some(groupId))
  }

  /** The document the newest group entry will go back to. */
  function GroupStart(timeline: Timeline, groupId: string): DeckDocument {
    if timeline.undo != [] && timeline.undo[|timeline.undo| - 1].groupId == Some(groupId)
    then timeline.undo[|timeline.undo| - 1].before
    else timeline.current
  }

  lemma {:induction false} GroupIsOneEntry(
    engine: Engine, limit: nat, timeline: Timeline, edits: seq<(DeckDocument, Metadata)>, groupId: string)
    requires limit >= 1 && WellKept(engine, limit, timeline) && edits != []
    ensures var grouped := RecordedGroup(engine, limit, timeline, edits, groupId);
      && WellKept(engine, limit, grouped) && grouped.undo != [] && grouped.redo == []
      && grouped.current == edits[|edits| - 1].0
      && var newest := grouped.undo[|grouped.undo| - 1];
         newest.groupId == Some(groupId) && newest.before == GroupStart(timeline, groupId)
    decreases |edits|
  {
    var last := |edits| - 1;
    if last > 0 {
      GroupIsOneEntry(engine, limit, timeline, edits[..last], groupId);
    } else {
      assert edits[..last] == [];
    }
    var earlier := RecordedGroup(engine, limit, timeline, edits[..last], groupId);
    RecordKeepsTimeline(engine, limit, earlier, edits[last].0, edits[last].1, Some(groupId));
  }

  /** One undo of a coalesced group goes back to the document before its first edit. */
  lemma {:induction false} GroupUndoesAtOnce(
    engine: Engine, limit: nat, timeline: Timeline, edits: seq<(DeckDocument, Metadata)>, groupId: string)
    requires limit >= 1 && WellKept(engine, limit, timeline) && edits != []
    requires timeline.undo != [] ==> timeline.undo[|timeline.undo| - 1].groupId != Some(groupId)
    ensures var grouped := RecordedGroup(engine, limit, timeline, edits, groupId);
      grouped.undo != [] && Undone(grouped).current == timeline.current
  {
    GroupIsOneEntry(engine, limit, timeline, edits, groupId);
  }
}
