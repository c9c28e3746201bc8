/** The private recovery directory: generation-based atomic writes and startup reconciliation. */
module Storage {
  import opened Wrappers
  import opened ByteStrings

  type Name = string
  type TransactionId = string

  datatype Kind = Tmp | Ready | Prev

  datatype FileName = Target(name: Name) | Artifact(name: Name, transaction: TransactionId, kind: Kind)

  type Files = map<FileName, Bytes>

  /** What the outside does to one file-system call: a failed or crashed write leaves some prefix. */
  datatype Effect = Proceeds | Fails(partial: nat) | Crashes(partial: nat)

  datatype Outcome = Done | Failed | Exists | Crashed

  ghost predicate Quiet(script: seq<Effect>) {
    forall effect | effect in script :: effect.Proceeds?
  }

  ghost predicate CompleteGeneration(file: FileName, name: Name) {
    file.Artifact? && file.name == name && !file.kind.Tmp?
  }

  /**
   Every complete generation of a target holds one of `versions`, and unless the target may be absent
   one of them is there.
   */
  ghost predicate Recoverable(files: Files, name: Name, versions: set<Bytes>, mustExist: bool) {
    && (Target(name) in files ==> files[Target(name)] in versions)
    && (forall file | file in files && CompleteGeneration(file, name) :: files[file] in versions)
    && (mustExist ==> HasGeneration(files, name))
  }

  ghost predicate HasGeneration(files: Files, name: Name) {
    Target(name) in files || exists file :: file in files && CompleteGeneration(file, name)
  }

  lemma CompleteKinds(name: Name, transaction: TransactionId)
    ensures CompleteGeneration(Artifact(name, transaction, Ready), name)
    ensures CompleteGeneration(Artifact(name, transaction, Prev), name)
  {
  }

  /** A step that no target can lose by. */
  ghost predicate Preserves(before: Files, after: Files) {
    forall name, versions, mustExist {:trigger Recoverable(after, name, versions, mustExist)} ::
      Recoverable(before, name, versions, mustExist) ==> Recoverable(after, name, versions, mustExist)
  }

  /** Only the target and the artifacts of one transaction changed. */
  ghost predicate TouchesOnly(before: Files, after: Files, name: Name, transaction: TransactionId) {
    forall file | file != Target(name) && !(file.Artifact? && file.name == name && file.transaction == transaction) ::
      (file in before <==> file in after) && (file in before ==> before[file] == after[file])
  }

  ghost predicate UnusedTransaction(files: Files, name: Name, transaction: TransactionId) {
    forall kind :: Artifact(name, transaction, kind) !in files
  }

  /** What a write of `bytes` may do to its target: the new bytes join the versions, nothing else is lost. */
  ghost predicate Advances(before: Files, after: Files, name: Name, bytes: Bytes) {
    forall versions, mustExist {:trigger Recoverable(after, name, versions + {bytes}, mustExist)} ::
      Recoverable(before, name, versions, mustExist) ==> Recoverable(after, name, versions + {bytes}, mustExist)
  }

  // ----- The directory between the steps of one write -----

  ghost function Staged(before: Files, name: Name, bytes: Bytes, transaction: TransactionId): Files {
    before[Artifact(name, transaction, Ready) := bytes]
  }

  ghost function Swapped(before: Files, name: Name, bytes: Bytes, transaction: TransactionId): Files {
    var staged := Staged(before, name, bytes, transaction);
    if Target(name) in before
    then (staged - {Target(name)})[Artifact(name, transaction, Prev) := before[Target(name)]]
    else staged
  }

  ghost function Published(before: Files, name: Name, bytes: Bytes, transaction: TransactionId): Files {
    Swapped(before, name, bytes, transaction)[Target(name) := bytes]
  }

  /** The places an atomic write can be interrupted at. */
  ghost predicate Interrupted(before: Files, after: Files, name: Name, bytes: Bytes, transaction: TransactionId) {
    || after == before
    || (Artifact(name, transaction, Tmp) in after &&
        after == before[Artifact(name, transaction, Tmp) := after[Artifact(name, transaction, Tmp)]])
    || after == Staged(before, name, bytes, transaction)
    || after == Swapped(before, name, bytes, transaction)
    || after == Published(before, name, bytes, transaction)
    || after == Published(before, name, bytes, transaction) - {Artifact(name, transaction, Ready)}
    || after == before[Target(name) := bytes]
  }

  /** Wherever it is interrupted, the target can be recovered as one of its old versions or the new bytes. */
  lemma InterruptionAdvances(before: Files, after: Files, name: Name, bytes: Bytes, transaction: TransactionId)
    requires UnusedTransaction(before, name, transaction)
    requires Interrupted(before, after, name, bytes, transaction)
    ensures Advances(before, after, name, bytes)
    ensures TouchesOnly(before, after, name, transaction)
  {
    forall versions, mustExist | Recoverable(before, name, versions, mustExist)
      ensures Recoverable(after, name, versions + {bytes}, mustExist)
    {
      if Target(name) !in after {
        if Artifact(name, transaction, Ready) in after {
          assert CompleteGeneration(Artifact(name, transaction, Ready), name);
        } else {
          KeepsGeneration(before, after, name);
        }
      }
    }
  }

  lemma RemovingTmpPreserves(files: Files, file: FileName)
    requires file.Artifact? && file.kind.Tmp?
    ensures Preserves(files, files - {file})
  {
    forall name, versions, mustExist | Recoverable(files, name, versions, mustExist)
      ensures Recoverable(files - {file}, name, versions, mustExist)
    {
      KeepsGeneration(files, files - {file}, name);
    }
  }

  lemma KeepsGeneration(before: Files, after: Files, name: Name)
    requires forall file | file in before && (file == Target(name) || CompleteGeneration(file, name)) :: file in after
    ensures HasGeneration(before, name) ==> HasGeneration(after, name)
  {
    if HasGeneration(before, name) && Target(name) !in before {
      var file :| file in before && CompleteGeneration(file, name);
      assert file in after;
    }
  }

  /** Once the target is there, its artifacts can go. */
  lemma RemovingSparePreserves(files: Files, file: FileName)
    requires file.Artifact? && Target(file.name) in files
    ensures Preserves(files, files - {file})
  {
    forall name, versions, mustExist | Recoverable(files, name, versions, mustExist)
      ensures Recoverable(files - {file}, name, versions, mustExist)
    {
      if name != file.name {
        KeepsGeneration(files, files - {file}, name);
      }
    }
  }

  /** Publishing a complete generation where the target is missing. */
  lemma PublishingPreserves(files: Files, file: FileName)
    requires file in files && CompleteGeneration(file, file.name) && Target(file.name) !in files
    ensures Preserves(files, files[Target(file.name) := files[file]])
  {
    var after := files[Target(file.name) := files[file]];
    forall name, versions, mustExist | Recoverable(files, name, versions, mustExist)
      ensures Recoverable(after, name, versions, mustExist)
    {
      KeepsGeneration(files, after, name);
    }
  }

  lemma PreservesChain(first: Files, second: Files, third: Files)
    requires Preserves(first, second) && Preserves(second, third)
    ensures Preserves(first, third)
  {
    forall name, versions, mustExist | Recoverable(first, name, versions, mustExist)
      ensures Recoverable(third, name, versions, mustExist)
    {
      assert Recoverable(second, name, versions, mustExist);
    }
  }

  lemma PreservesSame(files: Files)
    ensures Preserves(files, files)
  {
  }

  lemma AdvancesThenPreserves(first: Files, second: Files, third: Files, name: Name, bytes: Bytes)
    requires Advances(first, second, name, bytes) && Preserves(second, third)
    ensures Advances(first, third, name, bytes)
  {
    forall versions, mustExist | Recoverable(first, name, versions, mustExist)
      ensures Recoverable(third, name, versions + {bytes}, mustExist)
    {
      assert Recoverable(second, name, versions + {bytes}, mustExist);
    }
  }

  // ----- Listings -----

  ghost predicate NoTwice(listing: seq<FileName>) {
    forall i, j | 0 <= i < j < |listing| :: listing[i] != listing[j]
  }

  lemma {:induction false} ListingLength(listing: seq<FileName>, names: set<FileName>)
    requires NoTwice(listing) && forall file :: file in listing <==> file in names
    ensures |listing| == |names|
    decreases |listing|
  {
    if listing == [] {
      assert names == {};
    } else {
      var last := |listing| - 1;
      assert listing[last] in names;
      forall file
        ensures file in listing[..last] <==> file in names - {listing[last]}
      {
        if file in names - {listing[last]} {
          var i :| 0 <= i < |listing| && listing[i] == file;
        }
      }
      ListingLength(listing[..last], names - {listing[last]});
    }
  }

  function ArtifactsIn(listing: seq<FileName>): (artifacts: seq<FileName>)
    ensures forall file :: file in artifacts <==> file in listing && file.Artifact?
    ensures |artifacts| <= |listing|
  {
    if listing == [] then []
    else
      var rest := ArtifactsIn(listing[1..]);
      assert listing == [listing[0]] + listing[1..];
      if listing[0].Artifact? then [listing[0]] + rest else rest
  }

  function FirstOfKind(group: seq<FileName>, kind: Kind): (found: Option<FileName>)
    requires forall file | file in group :: file.Artifact?
    ensures found.Some? ==> found.value in group && found.value.kind == kind
    ensures found.None? ==> forall file | file in group :: file.kind != kind
  {
    if group == [] then None
    else if group[0].kind == kind then Some(group[0])
    else
      assert group == [group[0]] + group[1..];
      FirstOfKind(group[1..], kind)
  }

  function WithName(artifacts: seq<FileName>, name: Name): (group: seq<FileName>)
    ensures forall file :: file in group <==> file in artifacts && file.name == name
  {
    if artifacts == [] then []
    else
      assert artifacts == [artifacts[0]] + artifacts[1..];
      if artifacts[0].name == name then [artifacts[0]] + WithName(artifacts[1..], name)
      else WithName(artifacts[1..], name)
  }

  function WithoutName(artifacts: seq<FileName>, name: Name): (rest: seq<FileName>)
    ensures forall file :: file in rest <==> file in artifacts && file.name != name
  {
    if artifacts == [] then []
    else
      assert artifacts == [artifacts[0]] + artifacts[1..];
      if artifacts[0].name != name then [artifacts[0]] + WithoutName(artifacts[1..], name)
      else WithoutName(artifacts[1..], name)
  }

  lemma {:induction false} NamesPartition(artifacts: seq<FileName>, name: Name)
    ensures |WithName(artifacts, name)| + |WithoutName(artifacts, name)| == |artifacts|
    ensures artifacts != [] && artifacts[0].name == name ==> |WithName(artifacts, name)| >= 1
  {
    if artifacts != [] {
      NamesPartition(artifacts[1..], name);
    }
  }

  class PrivateDirectory {
    var files: Files
    /** What will happen to the calls to come; past its end every call proceeds. */
    var script: seq<Effect>
    var alive: bool

    constructor (files: Files)
      ensures this.files == files && script == [] && alive
    {
      this.files, script, alive := files, [], true;
    }

    /** The next process starts over the same files. */
    method Restart(script: seq<Effect>)
      modifies this`script, this`alive
      ensures this.script == script && alive
    {
      this.script, alive := script, true;
    }

    method Next() returns (effect: Effect)
      modifies this`script, this`alive
      ensures !old(alive) ==> effect == Crashes(0)
      ensures alive <==> old(alive) && !effect.Crashes?
      ensures old(alive) && Quiet(old(script)) ==> effect.Proceeds? && Quiet(script)
    {
      if !alive {
        return Crashes(0);
      }
      if script == [] {
        return Proceeds;
      }
      effect := script[0];
      script := script[1..];
      alive := !effect.Crashes?;
    }

    /** A call without an effect of its own on the names and contents: sync, chmod, opening a directory. */
    method Call() returns (outcome: Outcome)
      modifies this`script, this`alive
      ensures outcome == Crashed <==> !alive
      ensures outcome != Exists && (alive ==> old(alive))
      ensures old(alive) && Quiet(old(script)) ==> outcome == Done && Quiet(script)
    {
      var effect := Next();
      return if effect.Proceeds? then Done else if effect.Fails? then Failed else Crashed;
    }

    method Stat(file: FileName) returns (outcome: Outcome, present: bool)
      modifies this`script, this`alive
      ensures outcome == Crashed <==> !alive
      ensures outcome != Exists && (alive ==> old(alive))
      ensures outcome == Done ==> present == (file in files)
      ensures old(alive) && Quiet(old(script)) ==> outcome == Done && Quiet(script)
    {
      outcome := Call();
      present := file in files;
    }

    method Create(file: FileName) returns (outcome: Outcome)
      modifies this
      ensures outcome == Crashed <==> !alive
      ensures files == if outcome == Done then old(files)[file := []] else old(files)
    {
      outcome := Call();
      if outcome == Done {
        if file in files {
          return Exists;
        }
        files := files[file := []];
      }
    }

    method Fill(file: FileName, bytes: Bytes) returns (outcome: Outcome)
      modifies this
      ensures outcome == Crashed <==> !alive
      ensures outcome == Done ==> files == old(files)[file := bytes]
      ensures files == old(files) || (file in files && files == old(files)[file := files[file]])
    {
      if !alive {
        return Crashed;
      }
      var effect := Next();
      if effect.Proceeds? {
        files := files[file := bytes];
        return Done;
      }
      var written := effect.partial;
      files := files[file := if written < |bytes| then bytes[..written] else bytes];
      return if effect.Fails? then Failed else Crashed;
    }

    method Rename(from: FileName, to: FileName) returns (outcome: Outcome)
      requires from in files && from != to
      modifies this
      ensures outcome == Crashed <==> !alive
      ensures outcome != Exists
      ensures files == if outcome == Done then (old(files) - {from})[to := old(files)[from]] else old(files)
    {
      outcome := Call();
      if outcome == Done {
        files := (files - {from})[to := files[from]];
      }
    }

    /** A hard link to a name that must not exist yet. */
    method Link(from: FileName, to: FileName) returns (outcome: Outcome)
      requires from in files
      modifies this
      ensures outcome == Crashed <==> !alive
      ensures alive ==> old(alive)
      ensures outcome == Exists ==> to in files
      ensures outcome == Done ==> to !in old(files)
      ensures files == if outcome == Done then old(files)[to := old(files)[from]] else old(files)
      ensures old(alive) && Quiet(old(script)) && to !in old(files) ==> outcome == Done && Quiet(script)
    {
      outcome := Call();
      if outcome == Done {
        if to in files {
          return Exists;
        }
        files := files[to := files[from]];
      }
    }

    method Remove(file: FileName) returns (outcome: Outcome)
      modifies this
      ensures outcome == Crashed <==> !alive
      ensures alive ==> old(alive)
      ensures outcome != Exists
      ensures files == if outcome == Done then old(files) - {file} else old(files)
      ensures old(alive) && Quiet(old(script)) ==> outcome == Done && Quiet(script)
    {
      outcome := Call();
      if outcome == Done {
        files := files - {file};
      }
    }

    /** `publishGeneration` and the directory sync behind it. */
    method Publish(from: FileName, name: Name) returns (outcome: Outcome)
      requires from in files && CompleteGeneration(from, name)
      modifies this
      ensures outcome == Crashed <==> !alive
      ensures alive ==> old(alive)
      ensures outcome == Exists ==> Target(name) in files
      ensures outcome == Done ==> Target(name) !in old(files) && files == old(files)[Target(name) := old(files)[from]]
      ensures files == old(files) ||
        (Target(name) !in old(files) && files == old(files)[Target(name) := old(files)[from]])
      ensures Preserves(old(files), files)
      ensures old(alive) && Quiet(old(script)) && Target(name) !in old(files) ==> outcome == Done && Quiet(script)
    {
      outcome := Link(from, Target(name));
      if outcome != Done {
        return;
      }
      PublishingPreserves(old(files), from);
      outcome := Call();
      if outcome == Done {
        outcome := Call();
      }
    }

    method RemoveSpare(file: FileName) returns (outcome: Outcome)
      requires file.Artifact? && Target(file.name) in files
      modifies this
      ensures outcome == Crashed <==> !alive
      ensures alive ==> old(alive)
      ensures outcome == Done || files == old(files)
      ensures files == old(files) || files == old(files) - {file}
      ensures outcome == Done ==> file !in files
      ensures Preserves(old(files), files)
      ensures old(alive) && Quiet(old(script)) ==> outcome == Done && Quiet(script)
    {
      RemovingSparePreserves(files, file);
      outcome := Remove(file);
    }

    method RemoveTemporary(file: FileName) returns (outcome: Outcome)
      requires file.Artifact? && file.kind.Tmp?
      modifies this
      ensures outcome == Crashed <==> !alive
      ensures alive ==> old(alive)
      ensures outcome == Done || files == old(files)
      ensures files == old(files) || files == old(files) - {file}
      ensures outcome == Done ==> file !in files
      ensures Preserves(old(files), files)
      ensures old(alive) && Quiet(old(script)) ==> outcome == Done && Quiet(script)
    {
      RemovingTmpPreserves(files, file);
      outcome := Remove(file);
    }

    // ----- One atomic write -----

    /** Temporary file and ready generation. */
    method Stage(name: Name, bytes: Bytes, transaction: TransactionId) returns (outcome: Outcome)
      requires UnusedTransaction(files, name, transaction)
      modifies this
      ensures outcome == Crashed <==> !alive
      ensures outcome == Done ==> files == Staged(old(files), name, bytes, transaction)
      ensures Interrupted(old(files), files, name, bytes, transaction)
    {
      var temporary, ready := Artifact(name, transaction, Tmp), Artifact(name, transaction, Ready);
      outcome := Create(temporary);
      if outcome != Done { return; }
      outcome := Fill(temporary, bytes);
      if outcome != Done { return; }
      outcome := Call();
      if outcome != Done { return; }
      outcome := Rename(temporary, ready);
      if outcome != Done { return; }
      assert files == Staged(old(files), name, bytes, transaction);
      outcome := Call();
    }

    /** The previous generation steps aside and the ready one is published. */
    method Swap(name: Name, bytes: Bytes, transaction: TransactionId, ghost before: Files) returns (outcome: Outcome)
      requires UnusedTransaction(before, name, transaction) && files == Staged(before, name, bytes, transaction)
      modifies this
      ensures outcome == Crashed <==> !alive
      ensures outcome == Done ==> files == Published(before, name, bytes, transaction)
      ensures Interrupted(before, files, name, bytes, transaction)
    {
      var present;
      outcome, present := Stat(Target(name));
      if outcome != Done { return; }
      if present {
        outcome := Rename(Target(name), Artifact(name, transaction, Prev));
        if outcome != Done { return; }
        outcome := Call();
        if outcome != Done { return; }
      }
      assert files == Swapped(before, name, bytes, transaction);
      outcome := Link(Artifact(name, transaction, Ready), Target(name));
      if outcome != Done { return; }
      outcome := Call();
      if outcome != Done { return; }
      outcome := Call();
    }

    method Cleanup(name: Name, bytes: Bytes, transaction: TransactionId, ghost before: Files)
      returns (outcome: Outcome)
      requires UnusedTransaction(before, name, transaction) && files == Published(before, name, bytes, transaction)
      modifies this
      ensures outcome == Crashed <==> !alive
      ensures outcome == Done ==> files == before[Target(name) := bytes]
      ensures Interrupted(before, files, name, bytes, transaction)
    {
      outcome := Remove(Artifact(name, transaction, Ready));
      if outcome != Done { return; }
      outcome := Remove(Artifact(name, transaction, Prev));
      if outcome != Done { return; }
      assert files == before[Target(name) := bytes];
      outcome := Call();
    }

    /** The try block of an atomic write. */
    method WriteGeneration(name: Name, bytes: Bytes, transaction: TransactionId) returns (outcome: Outcome)
      requires UnusedTransaction(files, name, transaction)
      modifies this
      ensures outcome == Crashed <==> !alive
      ensures outcome == Done ==> files == old(files)[Target(name) := bytes]
      ensures Interrupted(old(files), files, name, bytes, transaction)
    {
      outcome := Stage(name, bytes, transaction);
      if outcome != Done { return; }
      outcome := Swap(name, bytes, transaction, old(files));
      if outcome != Done { return; }
      outcome := Cleanup(name, bytes, transaction, old(files));
    }

    /** After a failed step the process repairs its own transaction; every part of the repair may fail too. */
    method RepairKnownTransaction(name: Name, transaction: TransactionId)
      modifies this
      ensures Preserves(old(files), files) && TouchesOnly(old(files), files, name, transaction)
      ensures alive ==> old(alive)
    {
      hide Recoverable, Preserves, CompleteGeneration, HasGeneration;
      PreservesSame(files);
      CompleteKinds(name, transaction);
      var temporary := Artifact(name, transaction, Tmp);
      var candidates := [Artifact(name, transaction, Ready), Artifact(name, transaction, Prev)];
      var outcome, present := Stat(Target(name));
      var targetIsFile, targetIsMissing := outcome == Done && present, outcome == Done && !present;
      if targetIsMissing {
        var i := 0;
        while i < 2 && !targetIsFile
          invariant targetIsFile ==> Target(name) in files
          invariant Preserves(old(files), files) && TouchesOnly(old(files), files, name, transaction)
          invariant alive ==> old(alive)
        {
          outcome, present := Stat(candidates[i]);
          if outcome == Done && present {
            ghost var before := files;
            outcome := Publish(candidates[i], name);
            PreservesChain(old(files), before, files);
            targetIsFile := outcome == Done || outcome == Exists;
          }
          i := i + 1;
        }
      }
      ghost var first := files;
      if targetIsFile {
        outcome := RemoveSpare(temporary);
        ghost var second := files;
        outcome := RemoveSpare(candidates[0]);
        ghost var third := files;
        outcome := RemoveSpare(candidates[1]);
        PreservesChain(second, third, files);
        PreservesChain(first, second, files);
      } else {
        outcome := RemoveTemporary(temporary);
      }
      PreservesChain(old(files), first, files);
    }

    /**
     `atomicWritePrivate`. Whatever the script does, the target stays recoverable as one of its versions so
     far or the new bytes; a write that returns normally leaves exactly the new bytes and no artifact.
     */
    method AtomicWrite(name: Name, bytes: Bytes, transaction: TransactionId) returns (outcome: Outcome)
      requires UnusedTransaction(files, name, transaction)
      modifies this
      ensures Advances(old(files), files, name, bytes) && TouchesOnly(old(files), files, name, transaction)
      ensures outcome == Done ==> files == old(files)[Target(name) := bytes]
      ensures outcome == Crashed <==> !alive
    {
      outcome := WriteGeneration(name, bytes, transaction);
      InterruptionAdvances(old(files), files, name, bytes, transaction);
      ghost var written := files;
      hide Recoverable, Preserves, Interrupted;
      if outcome != Done && outcome != Crashed {
        RepairKnownTransaction(name, transaction);
      } else {
        PreservesSame(files);
      }
      ghost var repaired := files;
      var removed := RemoveTemporary(Artifact(name, transaction, Tmp));
      PreservesChain(written, repaired, files);
      AdvancesThenPreserves(old(files), written, files, name, bytes);
      if !alive {
        outcome := Crashed;
      }
    }

    // ----- Startup reconciliation -----

    /** The directory listing, in any order. */
    method Entries() returns (listing: seq<FileName>)
      ensures forall file :: file in listing <==> file in files
      ensures NoTwice(listing)
    {
      listing := [];
      var rest := files.Keys;
      while rest != {}
        invariant rest <= files.Keys && NoTwice(listing)
        invariant forall file :: file in listing <==> file in files && file !in rest
        decreases |rest|
      {
        var file :| file in rest;
        rest := rest - {file};
        listing := listing + [file];
      }
    }

    /** The artifacts of one target: publish if it is missing, then remove what is spare. */
    method ReconcileTarget(name: Name, group: seq<FileName>, maxActions: nat, done: nat) returns (actions: nat)
      requires forall file | file in group :: file in files && file.Artifact? && file.name == name
      modifies this
      ensures done <= actions <= done + 1 + |group|
      ensures Preserves(old(files), files)
      ensures forall file | file != Target(name) && file !in group ::
        (file in old(files) <==> file in files) && (file in files ==> files[file] == old(files)[file])
      ensures alive ==> old(alive)
      ensures old(alive) && Quiet(old(script)) ==> alive && Quiet(script)
      ensures old(alive) && Quiet(old(script)) && done + 1 + |group| <= maxActions ==>
        forall file | file in group :: file !in files
    {
      hide Recoverable, Preserves;
      PreservesSame(files);
      actions := done;
      var outcome, present := Stat(Target(name));
      var targetIsFile, targetIsMissing := outcome == Done && present, outcome == Done && !present;
      if targetIsMissing {
        var complete := FirstOfKind(group, Ready);
        if complete.None? {
          complete := FirstOfKind(group, Prev);
        }
        if complete.Some? {
          outcome := Publish(complete.value, name);
          targetIsFile := outcome == Done || outcome == Exists;
          targetIsMissing := !targetIsFile;
          actions := if outcome == Done then actions + 1 else actions;
        }
      }
      for i := 0 to |group|
        invariant done <= actions <= done + 1 + i
        invariant targetIsFile ==> Target(name) in files
        invariant alive ==> old(alive)
        invariant Preserves(old(files), files)
        invariant forall file | file != Target(name) && file !in group ::
          (file in old(files) <==> file in files) && (file in files ==> files[file] == old(files)[file])
        invariant old(alive) && Quiet(old(script)) ==> alive && Quiet(script)
        invariant old(alive) && Quiet(old(script)) && done + 1 + |group| <= maxActions ==>
          forall j | 0 <= j < i :: group[j] !in files
      {
        ghost var before := files;
        if actions < maxActions {
          if targetIsFile {
            outcome := RemoveSpare(group[i]);
            actions := if outcome == Done then actions + 1 else actions;
            PreservesChain(old(files), before, files);
          } else if targetIsMissing && group[i].kind.Tmp? {
            outcome := RemoveTemporary(group[i]);
            actions := if outcome == Done then actions + 1 else actions;
            PreservesChain(old(files), before, files);
          }
        }
      }
    }

    /**
     `reconcileInterruptedWrites`. However it is cut short, no target loses its last generation; when it
     runs undisturbed with bounds that fit the directory, no artifact is left.
     */
    method ReconcileInterruptedWrites(maxEntries: nat, maxActions: nat)
      modifies this
      ensures Preserves(old(files), files)
      ensures old(alive) && Quiet(old(script)) && maxEntries >= |old(files)| && maxActions >= 2 * |old(files)| ==>
        alive && forall file | file in files :: file.Target?
    {
      hide Recoverable, Preserves;
      PreservesSame(files);
      var outcome := Call();
      if outcome != Done {
        return;
      }
      var listing := Entries();
      ListingLength(listing, files.Keys);
      var scanned := if maxEntries < |listing| then listing[..maxEntries] else listing;
      var pending := ArtifactsIn(scanned);
      ghost var artifacts := |pending|;
      var actions := 0;
      ghost var enough := old(alive) && Quiet(old(script)) && maxEntries >= |old(files)| && maxActions >= 2 * |old(files)|;
      while pending != [] && actions < maxActions
        invariant Preserves(old(files), files)
        invariant forall file | file in pending :: file in files && file.Artifact?
        invariant actions + 2 * |pending| <= 2 * artifacts
        invariant enough ==> alive && Quiet(script) && forall file | file in files && file.Artifact? :: file in pending
        decreases |pending|
      {
        var name := pending[0].name;
        var group, rest := WithName(pending, name), WithoutName(pending, name);
        NamesPartition(pending, name);
        ghost var before := files;
        actions := ReconcileTarget(name, group, maxActions, actions);
        PreservesChain(old(files), before, files);
        pending := rest;
      }
      if actions > 0 {
        outcome := Call();
      }
    }
  }

  // ----- Whole lifetimes -----

  /** A directory without interrupted writes. */
  ghost predicate Reconciled(files: Files) {
    forall file | file in files :: file.Target?
  }

  /** The complete contents a target holds in a reconciled directory: one version, or none. */
  ghost function Versions(files: Files, name: Name): set<Bytes> {
    if Target(name) in files then {files[Target(name)]} else {}
  }

  lemma ReconciledIsRecoverable(files: Files, name: Name)
    requires Reconciled(files)
    ensures Recoverable(files, name, Versions(files, name), Target(name) in files)
  {
  }

  /** The files of one target are the same on both sides. */
  ghost predicate SameFor(before: Files, after: Files, name: Name) {
    forall file: FileName | file.name == name ::
      (file in before <==> file in after) && (file in before ==> before[file] == after[file])
  }

  lemma RecoveryIsLocal(before: Files, after: Files, name: Name, versions: set<Bytes>, mustExist: bool)
    requires SameFor(before, after, name) && Recoverable(before, name, versions, mustExist)
    ensures Recoverable(after, name, versions, mustExist)
  {
    KeepsGeneration(before, after, name);
  }

  lemma OtherTargetsAreSame(before: Files, after: Files, written: Name, transaction: TransactionId, name: Name)
    requires TouchesOnly(before, after, written, transaction) && name != written
    ensures SameFor(before, after, name)
  {
  }

  datatype Write = Write(name: Name, bytes: Bytes, transaction: TransactionId)

  /** Every write draws its own transaction identifier. */
  ghost predicate DistinctTransactions(writes: seq<Write>) {
    forall i, j | 0 <= i < j < |writes| :: writes[i].transaction != writes[j].transaction
  }

  /** None of the writes so far left anything of this target behind. */
  ghost predicate Clean(writes: seq<Write>, outcomes: seq<Outcome>, name: Name)
    requires |outcomes| <= |writes|
  {
    forall i | 0 <= i < |outcomes| && writes[i].name == name :: outcomes[i] == Done
  }

  /**
   What a target may hold behind some writes: a write that returns, on a target without leftovers, settles it;
   any other write adds its bytes to what was possible before.
   */
  ghost function Possible(before: Files, writes: seq<Write>, outcomes: seq<Outcome>, name: Name): set<Bytes>
    requires |outcomes| <= |writes|
  {
    if outcomes == [] then Versions(before, name)
    else
      var k := |outcomes| - 1;
      if writes[k].name != name then Possible(before, writes, outcomes[..k], name)
      else if Clean(writes, outcomes, name) then {writes[k].bytes}
      else Possible(before, writes, outcomes[..k], name) + {writes[k].bytes}
  }

  /** Whether a target must be there: it was before, or a write of it returned while nothing was left over. */
  ghost predicate Present(before: Files, writes: seq<Write>, outcomes: seq<Outcome>, name: Name)
    requires |outcomes| <= |writes|
  {
    if outcomes == [] then Target(name) in before
    else
      var k := |outcomes| - 1;
      Present(before, writes, outcomes[..k], name) || (writes[k].name == name && Clean(writes, outcomes, name))
  }

  ghost predicate AllRecoverable(before: Files, files: Files, writes: seq<Write>, outcomes: seq<Outcome>)
    requires |outcomes| <= |writes|
  {
    forall name ::
      Recoverable(files, name, Possible(before, writes, outcomes, name), Present(before, writes, outcomes, name))
  }

  /** Artifacts stem from writes that were tried, and from none that returned on a clean target. */
  ghost predicate Leftovers(files: Files, writes: seq<Write>, outcomes: seq<Outcome>)
    requires |outcomes| <= |writes|
  {
    forall file | file in files && file.Artifact? ::
      && !Clean(writes, outcomes, file.name)
      && exists i :: 0 <= i < |outcomes| && writes[i].transaction == file.transaction
  }

  lemma NothingWrittenYet(before: Files, writes: seq<Write>)
    requires Reconciled(before)
    ensures AllRecoverable(before, before, writes, []) && Leftovers(before, writes, [])
  {
    forall name
      ensures Recoverable(before, name, Possible(before, writes, [], name), Present(before, writes, [], name))
    {
      ReconciledIsRecoverable(before, name);
    }
  }

  lemma WrittenTarget(before: Files, after: Files, name: Name, bytes: Bytes)
    requires forall transaction, kind :: Artifact(name, transaction, kind) !in before
    requires after == before[Target(name) := bytes]
    ensures Recoverable(after, name, {bytes}, true)
  {
  }

  lemma CleanStepsBack(writes: seq<Write>, outcomes: seq<Outcome>, outcome: Outcome, name: Name)
    requires |outcomes| < |writes|
    ensures Clean(writes, outcomes + [outcome], name) <==>
      Clean(writes, outcomes, name) && (writes[|outcomes|].name == name ==> outcome == Done)
  {
    var longer := outcomes + [outcome];
    assert longer[|outcomes|] == outcome;
    if Clean(writes, longer, name) {
      forall i | 0 <= i < |outcomes| && writes[i].name == name
        ensures outcomes[i] == Done
      {
        assert longer[i] == Done;
      }
    }
  }

  /** One more write of a target, as far as that target is concerned. */
  lemma OneMoreVersion(
    before: Files, files: Files, after: Files, writes: seq<Write>, outcomes: seq<Outcome>, outcome: Outcome)
    requires |outcomes| < |writes| && AllRecoverable(before, files, writes, outcomes)
    requires Leftovers(files, writes, outcomes)
    requires var write := writes[|outcomes|];
      && Advances(files, after, write.name, write.bytes)
      && (outcome == Done ==> after == files[Target(write.name) := write.bytes])
    ensures var longer, name := outcomes + [outcome], writes[|outcomes|].name;
      Recoverable(after, name, Possible(before, writes, longer, name), Present(before, writes, longer, name))
  {
    hide Recoverable, Clean;
    var longer, write := outcomes + [outcome], writes[|outcomes|];
    assert longer[..|outcomes|] == outcomes;
    CleanStepsBack(writes, outcomes, outcome, write.name);
    assert Recoverable(
      files, write.name, Possible(before, writes, outcomes, write.name),
      Present(before, writes, outcomes, write.name));
    if Clean(writes, longer, write.name) {
      forall transaction, kind
        ensures Artifact(write.name, transaction, kind) !in files
      {
        assert Artifact(write.name, transaction, kind).name == write.name;
      }
      WrittenTarget(files, after, write.name, write.bytes);
    }
  }

  /** One more write, wherever it ended. */
  lemma OneMoreWrite(
    before: Files, files: Files, after: Files, writes: seq<Write>, outcomes: seq<Outcome>, outcome: Outcome)
    requires |outcomes| < |writes| && AllRecoverable(before, files, writes, outcomes)
    requires Leftovers(files, writes, outcomes)
    requires var write := writes[|outcomes|];
      && Advances(files, after, write.name, write.bytes) && TouchesOnly(files, after, write.name, write.transaction)
      && (outcome == Done ==> after == files[Target(write.name) := write.bytes])
    ensures AllRecoverable(before, after, writes, outcomes + [outcome])
  {
    hide Recoverable, Clean;
    var longer, write := outcomes + [outcome], writes[|outcomes|];
    assert longer[..|outcomes|] == outcomes;
    forall name
      ensures Recoverable(after, name, Possible(before, writes, longer, name), Present(before, writes, longer, name))
    {
      if name == write.name {
        OneMoreVersion(before, files, after, writes, outcomes, outcome);
      } else {
        var versions, present := Possible(before, writes, outcomes, name), Present(before, writes, outcomes, name);
        assert Recoverable(files, name, versions, present);
        OtherTargetsAreSame(files, after, write.name, write.transaction, name);
        RecoveryIsLocal(files, after, name, versions, present);
      }
    }
  }

  lemma OneMoreLeftover(
    files: Files, after: Files, writes: seq<Write>, outcomes: seq<Outcome>, outcome: Outcome)
    requires |outcomes| < |writes| && Leftovers(files, writes, outcomes)
    requires var write := writes[|outcomes|];
      && TouchesOnly(files, after, write.name, write.transaction)
      && (outcome == Done ==> after == files[Target(write.name) := write.bytes])
    ensures Leftovers(after, writes, outcomes + [outcome])
  {
    hide Clean;
    var longer, write := outcomes + [outcome], writes[|outcomes|];
    forall file | file in after && file.Artifact?
      ensures !Clean(writes, longer, file.name)
      ensures exists i :: 0 <= i < |longer| && writes[i].transaction == file.transaction
    {
      CleanStepsBack(writes, outcomes, outcome, file.name);
      if file in files {
        var i :| 0 <= i < |outcomes| && writes[i].transaction == file.transaction;
        assert 0 <= i < |longer|;
      } else {
        assert file.name == write.name && file.transaction == write.transaction && outcome != Done;
      }
    }
  }

  lemma TransactionIsUnused(files: Files, writes: seq<Write>, outcomes: seq<Outcome>)
    requires |outcomes| < |writes| && DistinctTransactions(writes) && Leftovers(files, writes, outcomes)
    ensures UnusedTransaction(files, writes[|outcomes|].name, writes[|outcomes|].transaction)
  {
    forall kind
      ensures Artifact(writes[|outcomes|].name, writes[|outcomes|].transaction, kind) !in files
    {
      var file := Artifact(writes[|outcomes|].name, writes[|outcomes|].transaction, kind);
      assert file.Artifact?;
    }
  }

  lemma PreservesAll(before: Files, files: Files, after: Files, writes: seq<Write>, outcomes: seq<Outcome>)
    requires |outcomes| <= |writes| && AllRecoverable(before, files, writes, outcomes) && Preserves(files, after)
    ensures AllRecoverable(before, after, writes, outcomes)
  {
    hide Recoverable;
  }

  ghost predicate Holds(files: Files, name: Name, bytes: Bytes) {
    Target(name) in files && files[Target(name)] == bytes
  }

  /** Every target holds one complete possible version, or is absent where it may be. */
  ghost predicate TookEffectOrNot(before: Files, after: Files, writes: seq<Write>, outcomes: seq<Outcome>)
    requires |outcomes| <= |writes|
  {
    forall name ::
      if Target(name) in after then after[Target(name)] in Possible(before, writes, outcomes, name)
      else !Present(before, writes, outcomes, name)
  }

  lemma WritesWereAtomic(before: Files, after: Files, writes: seq<Write>, outcomes: seq<Outcome>)
    requires Reconciled(after) && |outcomes| <= |writes| && AllRecoverable(before, after, writes, outcomes)
    ensures TookEffectOrNot(before, after, writes, outcomes)
  {
    hide Possible, Present;
    forall name
      ensures if Target(name) in after then after[Target(name)] in Possible(before, writes, outcomes, name)
        else !Present(before, writes, outcomes, name)
    {
      assert Recoverable(
        after, name, Possible(before, writes, outcomes, name), Present(before, writes, outcomes, name));
    }
  }

  /** The last write of a target among those tried. */
  ghost predicate LastOf(writes: seq<Write>, outcomes: seq<Outcome>, name: Name, last: nat)
    requires |outcomes| <= |writes|
  {
    last < |outcomes| && writes[last].name == name &&
    forall i | last < i < |outcomes| :: writes[i].name != name
  }

  lemma {:induction false} LaterWritesElsewhere(
    before: Files, writes: seq<Write>, outcomes: seq<Outcome>, name: Name, k: nat)
    requires k <= |outcomes| <= |writes| && forall i | k <= i < |outcomes| :: writes[i].name != name
    ensures Possible(before, writes, outcomes, name) == Possible(before, writes, outcomes[..k], name)
    ensures Present(before, writes, outcomes, name) <==> Present(before, writes, outcomes[..k], name)
    decreases |outcomes|
  {
    if k == |outcomes| {
      assert outcomes[..k] == outcomes;
    } else {
      var shorter := outcomes[..|outcomes| - 1];
      assert shorter[..k] == outcomes[..k];
      LaterWritesElsewhere(before, writes, shorter, name, k);
    }
  }

  /** A target none of the writes named is as it was. */
  lemma UnwrittenTargetStays(before: Files, after: Files, writes: seq<Write>, outcomes: seq<Outcome>, name: Name)
    requires |outcomes| <= |writes| && TookEffectOrNot(before, after, writes, outcomes)
    requires forall i | 0 <= i < |outcomes| :: writes[i].name != name
    ensures Target(name) in before <==> Target(name) in after
    ensures Target(name) in before ==> before[Target(name)] == after[Target(name)]
  {
    LaterWritesElsewhere(before, writes, outcomes, name, 0);
    assert outcomes[..0] == [];
  }

  /** When every write of a target returned, it holds what the last of them wrote. */
  lemma ReturnedWriteHolds(
    before: Files, after: Files, writes: seq<Write>, outcomes: seq<Outcome>, name: Name, last: nat)
    requires |outcomes| <= |writes| && TookEffectOrNot(before, after, writes, outcomes)
    requires LastOf(writes, outcomes, name, last) && Clean(writes, outcomes, name)
    ensures Holds(after, name, writes[last].bytes)
  {
    LaterWritesElsewhere(before, writes, outcomes, name, last + 1);
    var upTo := outcomes[..last + 1];
    assert upTo[..last] == outcomes[..last] && Clean(writes, upTo, name);
  }

  /** When only the last write of a target failed, it holds the version before that write, or the new bytes. */
  lemma FailedWriteIsAtomic(
    before: Files, after: Files, writes: seq<Write>, outcomes: seq<Outcome>, name: Name, last: nat)
    requires |outcomes| <= |writes| && TookEffectOrNot(before, after, writes, outcomes)
    requires LastOf(writes, outcomes, name, last) && Clean(writes, outcomes[..last], name) && outcomes[last] != Done
    ensures Holds(after, name, writes[last].bytes) ||
      if exists i: nat :: LastOf(writes, outcomes[..last], name, i)
      then exists i: nat :: LastOf(writes, outcomes[..last], name, i) && Holds(after, name, writes[i].bytes)
      else
        && (Target(name) in before <==> Target(name) in after)
        && (Target(name) in before ==> before[Target(name)] == after[Target(name)])
  {
    LaterWritesElsewhere(before, writes, outcomes, name, last + 1);
    var earlier, upTo := outcomes[..last], outcomes[..last + 1];
    assert upTo[..last] == earlier && upTo[last] == outcomes[last];
    if i: nat :| LastOf(writes, earlier, name, i) {
      LaterWritesElsewhere(before, writes, earlier, name, i + 1);
      assert earlier[..i + 1][..i] == earlier[..i] && Clean(writes, earlier[..i + 1], name);
    } else {
      NoneWritten(writes, earlier, name);
      LaterWritesElsewhere(before, writes, earlier, name, 0);
      assert earlier[..0] == [];
    }
  }

  lemma {:induction false} NoneWritten(writes: seq<Write>, outcomes: seq<Outcome>, name: Name)
    requires |outcomes| <= |writes| && !exists i: nat :: LastOf(writes, outcomes, name, i)
    ensures forall i | 0 <= i < |outcomes| :: writes[i].name != name
    decreases |outcomes|
  {
    if outcomes != [] {
      var k := |outcomes| - 1;
      if writes[k].name == name {
        assert LastOf(writes, outcomes, name, k);
      }
      forall i: nat
        ensures !LastOf(writes, outcomes[..k], name, i)
      {
        if LastOf(writes, outcomes[..k], name, i) {
          assert LastOf(writes, outcomes, name, i);
        }
      }
      NoneWritten(writes, outcomes[..k], name);
    }
  }

  /**
   One process life with any number of writes, and the process starts behind it: each start reconciles under
   its own bounds and effects.
   */
  datatype Generation = Generation(writes: seq<Write>, script: seq<Effect>, restarts: seq<Start>)

  datatype Start = Start(maxEntries: nat, maxActions: nat, script: seq<Effect>)

  /** The writes of one life, in order; behind a crash they all fail. */
  method WriteAll(directory: PrivateDirectory, writes: seq<Write>) returns (outcomes: seq<Outcome>)
    requires Reconciled(directory.files) && DistinctTransactions(writes)
    modifies directory
    ensures |outcomes| == |writes| && AllRecoverable(old(directory.files), directory.files, writes, outcomes)
  {
    hide Recoverable, Advances, TouchesOnly, AllRecoverable, Leftovers;
    ghost var before := directory.files;
    outcomes := [];
    NothingWrittenYet(before, writes);
    for k := 0 to |writes|
      invariant |outcomes| == k
      invariant AllRecoverable(before, directory.files, writes, outcomes)
      invariant Leftovers(directory.files, writes, outcomes)
    {
      ghost var files := directory.files;
      TransactionIsUnused(files, writes, outcomes);
      var outcome := directory.AtomicWrite(writes[k].name, writes[k].bytes, writes[k].transaction);
      OneMoreWrite(before, files, directory.files, writes, outcomes, outcome);
      OneMoreLeftover(files, directory.files, writes, outcomes, outcome);
      outcomes := outcomes + [outcome];
    }
  }

  /**
   Writes that may fail or crash anywhere, any number of starts whose reconciliation may fail or crash
   anywhere, and one reconciliation that finishes: every target is left with one complete possible version.
   */
  method SurviveGeneration(directory: PrivateDirectory, generation: Generation) returns (outcomes: seq<Outcome>)
    requires Reconciled(directory.files) && DistinctTransactions(generation.writes)
    modifies directory
    ensures Reconciled(directory.files) && |outcomes| == |generation.writes|
    ensures TookEffectOrNot(old(directory.files), directory.files, generation.writes, outcomes)
  {
    hide Recoverable, Preserves, AllRecoverable, TookEffectOrNot;
    ghost var before := directory.files;
    directory.Restart(generation.script);
    outcomes := WriteAll(directory, generation.writes);
    for i := 0 to |generation.restarts|
      invariant AllRecoverable(before, directory.files, generation.writes, outcomes)
    {
      ghost var files := directory.files;
      directory.Restart(generation.restarts[i].script);
      directory.ReconcileInterruptedWrites(generation.restarts[i].maxEntries, generation.restarts[i].maxActions);
      PreservesAll(before, files, directory.files, generation.writes, outcomes);
    }
    ghost var last := directory.files;
    directory.Restart([]);
    directory.ReconcileInterruptedWrites(|directory.files|, 2 * |directory.files|);
    PreservesAll(before, last, directory.files, generation.writes, outcomes);
    WritesWereAtomic(before, directory.files, generation.writes, outcomes);
  }

  ghost predicate GenerationTookEffect(
    before: Files, after: Files, generation: Generation, outcomes: seq<Outcome>)
  {
    |outcomes| == |generation.writes| && TookEffectOrNot(before, after, generation.writes, outcomes)
  }

  /** Over any sequence of process lives, every write of every life takes effect as a whole or not at all. */
  method SurviveGenerations(directory: PrivateDirectory, generations: seq<Generation>)
    returns (outcomes: seq<seq<Outcome>>, ghost snapshots: seq<Files>)
    requires Reconciled(directory.files)
    requires forall i | 0 <= i < |generations| :: DistinctTransactions(generations[i].writes)
    modifies directory
    ensures Reconciled(directory.files)
    ensures |outcomes| == |generations| && |snapshots| == |generations| + 1
    ensures snapshots[0] == old(directory.files) && snapshots[|generations|] == directory.files
    ensures forall i | 0 <= i < |generations| ::
      GenerationTookEffect(snapshots[i], snapshots[i + 1], generations[i], outcomes[i])
  {
    hide TookEffectOrNot, DistinctTransactions, Reconciled;
    outcomes, snapshots := [], [directory.files];
    for i := 0 to |generations|
      invariant Reconciled(directory.files)
      invariant |outcomes| == i && |snapshots| == i + 1
      invariant snapshots[0] == old(directory.files) && snapshots[i] == directory.files
      invariant forall j | 0 <= j < i ::
        GenerationTookEffect(snapshots[j], snapshots[j + 1], generations[j], outcomes[j])
    {
      var ended := SurviveGeneration(directory, generations[i]);
      outcomes, snapshots := outcomes + [ended], snapshots + [directory.files];
    }
  }
}
