/** The bounded stand-ins a host keeps for its log: the pruned write index and the retained tail. */
module HostIndex {
  import opened Wrappers
  import opened DeckModel
  import opened Commands
  import opened Access
  import opened Engine
  import opened HostLog
  import opened HostTheorems

  type WriteIndex = map<EntityKey, nat>

  /** `sequence` is the last commit that wrote `key`. */
  ghost predicate LastWriter(log: seq<LogEntry>, key: EntityKey, sequence: nat) {
    && 1 <= sequence <= |log|
    && key in log[sequence - 1].commit.access.writeSet
    && !WrittenAfter(log, sequence, key)
  }

  /** The index knows `key` exactly when the retained tail wrote it, and knows the last such commit. */
  ghost predicate Indexed(cfg: HostConfig, log: seq<LogEntry>, index: WriteIndex, key: EntityKey) {
    && (key in index <==> WrittenAfter(log, MinBase(cfg, log), key))
    && (key in index ==> LastWriter(log, key, index[key]))
  }

  ghost predicate IndexMatches(cfg: HostConfig, log: seq<LogEntry>, index: WriteIndex) {
    forall key {:trigger Indexed(cfg, log, index, key)} :: Indexed(cfg, log, index, key)
  }

  function LastKnown(index: WriteIndex, key: EntityKey): nat {
    if key in index then index[key] else 0
  }

  function ConflictKeys(index: WriteIndex, base: nat, access: CommandAccess): set<EntityKey> {
    set key | key in Touched(access) && LastKnown(index, key) > base
  }

  lemma IndexedKeyDecides(
    cfg: HostConfig, log: seq<LogEntry>, index: WriteIndex, base: nat, key: EntityKey)
    requires Indexed(cfg, log, index, key) && MinBase(cfg, log) <= base <= |log|
    ensures LastKnown(index, key) > base <==> WrittenAfter(log, base, key)
  {
    if WrittenAfter(log, base, key) {
      var i :| base <= i < |log| && key in log[i].commit.access.writeSet;
      assert WrittenAfter(log, MinBase(cfg, log), key);
    }
    if key in index && index[key] > base {
      assert key in log[index[key] - 1].commit.access.writeSet;
    }
  }

  /** Within the tail the pruned index finds a conflict exactly when the full log holds one. */
  lemma PrunedIndexRefinesLog(
    cfg: HostConfig, log: seq<LogEntry>, index: WriteIndex, base: nat, access: CommandAccess)
    requires IndexMatches(cfg, log, index) && MinBase(cfg, log) <= base <= |log|
    ensures ConflictKeys(index, base, access) != {} <==> Conflicts(log, base, access)
  {
    forall key ensures LastKnown(index, key) > base <==> WrittenAfter(log, base, key) {
      assert Indexed(cfg, log, index, key);
      IndexedKeyDecides(cfg, log, index, base, key);
    }
    if Conflicts(log, base, access) {
      var key :| key in Touched(access) && WrittenAfter(log, base, key);
      assert key in ConflictKeys(index, base, access);
    }
    if key :| key in ConflictKeys(index, base, access) {
      assert WrittenAfter(log, base, key);
    }
  }

  function Stamp(index: WriteIndex, keys: set<EntityKey>, sequence: nat): WriteIndex {
    index + map key | key in keys :: sequence
  }

  function Prune(index: WriteIndex, minimum: int): WriteIndex {
    map key | key in index && index[key] > minimum :: index[key]
  }

  lemma WrittenAfterCommit(log: seq<LogEntry>, entry: LogEntry, base: nat, key: EntityKey)
    requires base <= |log|
    ensures WrittenAfter(log + [entry], base, key) <==>
      WrittenAfter(log, base, key) || key in entry.commit.access.writeSet
  {
    var next := log + [entry];
    if key in entry.commit.access.writeSet {
      assert key in next[|log|].commit.access.writeSet;
    }
    if WrittenAfter(log, base, key) {
      var i :| base <= i < |log| && key in log[i].commit.access.writeSet;
      assert next[i] == log[i];
    }
  }

  lemma CommitKeepsKeyIndexed(
    cfg: HostConfig, log: seq<LogEntry>, entry: LogEntry, index: WriteIndex, key: EntityKey)
    requires cfg.limits.Positive() && Indexed(cfg, log, index, key)
    ensures var next := log + [entry];
      Indexed(cfg, next, Prune(Stamp(index, entry.commit.access.writeSet, |next|), MinBase(cfg, next)), key)
  {
    var next := log + [entry];
    var keys := entry.commit.access.writeSet;
    WrittenAfterCommit(log, entry, MinBase(cfg, log), key);
    WrittenAfterCommit(log, entry, MinBase(cfg, next), key);
    if key in keys {
      assert key in next[|log|].commit.access.writeSet;
    } else if key in index {
      WrittenAfterCommit(log, entry, index[key], key);
      IndexedKeyDecides(cfg, log, index, MinBase(cfg, next), key);
    }
  }

  /** Stamping a commit and forgetting what left the tail keeps the index exact. */
  lemma CommitKeepsIndex(cfg: HostConfig, log: seq<LogEntry>, entry: LogEntry, index: WriteIndex)
    requires cfg.limits.Positive() && IndexMatches(cfg, log, index)
    ensures var next := log + [entry];
      IndexMatches(cfg, next, Prune(Stamp(index, entry.commit.access.writeSet, |next|), MinBase(cfg, next)))
  {
    var next := log + [entry];
    var after := Prune(Stamp(index, entry.commit.access.writeSet, |next|), MinBase(cfg, next));
    forall key ensures Indexed(cfg, next, after, key) {
      assert Indexed(cfg, log, index, key);
      CommitKeepsKeyIndexed(cfg, log, entry, index, key);
    }
  }

  function Retained(cfg: HostConfig, log: seq<LogEntry>): seq<Commit> {
    Commits(log[MinBase(cfg, log)..])
  }

  /** Push one commit and shift the oldest out when the limit is passed. */
  function Pushed(tail: seq<Commit>, commit: Commit, limit: nat): seq<Commit> {
    if |tail| + 1 > limit then (tail + [commit])[1..] else tail + [commit]
  }

  /** The oldest base that can still be checked, as the retained commits name it. */
  function NamedMinimum(tail: seq<Commit>, sequence: nat): int {
    if tail == [] then sequence else tail[0].sessionSeq - 1
  }

  /** Pushing a commit keeps the last `tail` commits. */
  lemma CommitKeepsTail(cfg: HostConfig, log: seq<LogEntry>, entry: LogEntry)
    requires cfg.limits.Positive()
    ensures Retained(cfg, log + [entry]) == Pushed(Retained(cfg, log), entry.commit, cfg.limits.tail)
  {
  }

  lemma TailNamesMinBase(cfg: HostConfig, log: seq<LogEntry>)
    requires cfg.limits.Positive() && RunLog(cfg, log)
    ensures NamedMinimum(Retained(cfg, log), |log|) == MinBase(cfg, log)
  {
    if log != [] {
      EntryFacts(cfg, log, MinBase(cfg, log));
    }
  }

  predicate Contiguous(tail: seq<Commit>, first: nat) {
    forall i | 0 <= i < |tail| :: tail[i].sessionSeq == first + i + 1
  }

  /** The tail is contiguous: its sequences count up by one to the current sequence. */
  lemma TailIsContiguous(cfg: HostConfig, log: seq<LogEntry>, i: nat)
    requires RunLog(cfg, log) && i < |Retained(cfg, log)|
    ensures Retained(cfg, log)[i].sessionSeq == MinBase(cfg, log) + i + 1
    ensures Retained(cfg, log)[i].beforeRevision ==
      if MinBase(cfg, log) + i == 0 then cfg.initialRevision else log[MinBase(cfg, log) + i - 1].commit.afterRevision
  {
    EntryFacts(cfg, log, MinBase(cfg, log) + i);
  }

  lemma TailFrom(cfg: HostConfig, log: seq<LogEntry>, afterSeq: nat)
    requires RunLog(cfg, log) && MinBase(cfg, log) <= afterSeq <= |log|
    ensures Contiguous(Retained(cfg, log), MinBase(cfg, log))
    ensures Retained(cfg, log)[afterSeq - MinBase(cfg, log)..] == Commits(log[afterSeq..])
  {
    forall i | 0 <= i < |Retained(cfg, log)|
      ensures Retained(cfg, log)[i].sessionSeq == MinBase(cfg, log) + i + 1
    {
      TailIsContiguous(cfg, log, i);
    }
  }

  method CommitsAfter(tail: seq<Commit>, afterSeq: nat, ghost first: nat) returns (transactions: seq<Commit>)
    requires Contiguous(tail, first) && first <= afterSeq <= first + |tail|
    ensures transactions == tail[afterSeq - first..]
  {
    transactions := [];
    for n := 0 to |tail|
      invariant transactions == if first + n <= afterSeq then [] else tail[afterSeq - first..n]
    {
      if tail[n].sessionSeq > afterSeq {
        transactions := transactions + [tail[n]];
      }
    }
  }
}
