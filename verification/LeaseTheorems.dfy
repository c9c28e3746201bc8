/** Safety of the writer lease over every interleaving of every set of stores. */
module LeaseTheorems {
  import opened Wrappers
  import opened WriterLease

  // ----- The sidecar's history -----

  ghost predicate FreshIn(history: seq<Option<Lease>>, leaseId: LeaseId) {
    forall v | 0 <= v < |history| :: history[v].Some? ==> history[v].value.leaseId != leaseId
  }

  ghost predicate Continues(before: Lease, after: Lease) {
    && after.leaseId == before.leaseId && after.heartbeatSeq == before.heartbeatSeq + 1
    && after.writer == before.writer && after.session == before.session && after.key == before.key
    && after.issuedAt == before.issuedAt
  }

  /** Every lease in the sidecar renews the one before it, or starts under an identifier never seen there. */
  ghost predicate Follows(history: seq<Option<Lease>>, v: nat)
    requires 0 < v < |history|
  {
    history[v].Some? ==>
      || (history[v - 1].Some? && Continues(history[v - 1].value, history[v].value))
      || (FreshIn(history[..v], history[v].value.leaseId) && history[v].value.heartbeatSeq == 0)
  }

  ghost predicate Lineage(history: seq<Option<Lease>>) {
    forall v {:trigger Follows(history, v)} | 0 < v < |history| :: Follows(history, v)
  }

  lemma LineageExtends(history: seq<Option<Lease>>, content: Option<Lease>)
    requires Lineage(history) && history != []
    requires content.Some? ==>
      || (history[|history| - 1].Some? && Continues(history[|history| - 1].value, content.value))
      || (FreshIn(history, content.value.leaseId) && content.value.heartbeatSeq == 0)
    ensures Lineage(history + [content])
  {
    var longer := history + [content];
    forall v | 0 < v < |longer|
      ensures Follows(longer, v)
    {
      if v < |history| {
        assert Follows(history, v) && longer[..v] == history[..v];
      } else {
        assert longer[..v] == history;
      }
    }
  }

  /** As long as a lease is in the sidecar its sequence number grows by one at every change. */
  lemma {:induction false} HeartbeatsGrow(history: seq<Option<Lease>>, i: nat, j: nat)
    requires Lineage(history) && i < j < |history|
    requires history[i].Some? && history[j].Some? && history[i].value.leaseId == history[j].value.leaseId
    ensures history[j].value.heartbeatSeq == history[i].value.heartbeatSeq + (j - i)
    ensures history[j].value.writer == history[i].value.writer
    decreases j
  {
    assert Follows(history, j);
    assert history[..j][i] == history[i];
    if j - 1 > i {
      HeartbeatsGrow(history, i, j - 1);
    }
  }

  /** A lease that left the sidecar never comes back. */
  lemma {:induction false} LeaseNeverReturns(history: seq<Option<Lease>>, i: nat, k: nat, j: nat)
    requires Lineage(history) && i <= k <= j < |history|
    requires history[i].Some? && history[j].Some? && history[i].value.leaseId == history[j].value.leaseId
    ensures history[k].Some? && history[k].value.leaseId == history[i].value.leaseId
    decreases j
  {
    if k < j {
      assert Follows(history, j);
      assert history[..j][i] == history[i];
      LeaseNeverReturns(history, i, k, j - 1);
    }
  }

  /** No content ever recurs. */
  lemma ContentsNeverRecur(history: seq<Option<Lease>>, i: nat, j: nat)
    requires Lineage(history) && i < j < |history| && history[i].Some?
    ensures history[i] != history[j]
  {
    if history[i] == history[j] {
      HeartbeatsGrow(history, i, j);
    }
  }

  // ----- The invariant -----

  ghost predicate Known(w: World, lease: Lease) {
    lease.leaseId in w.creators && w.creators[lease.leaseId].1 == lease.writer
  }

  ghost predicate Seen(w: World, seen: Sighting) {
    seen.version < |w.history| && w.history[seen.version] == Some(seen.lease)
  }

  ghost predicate OpOk(w: World, id: OpId, writer: string, op: Op) {
    match op
    case ClaimUnclaimed(_, _) => true
    case ClaimStale => true
    case ClaimWatching(seen, _) => Seen(w, seen)
    case ClaimExpired(seen) => Seen(w, seen) && Expired(w, seen.lease)
    case ClaimReady(over, lease) =>
      && Known(w, lease) && lease.writer == writer && w.creators[lease.leaseId].0 == id
      && FreshIn(w.history, lease.leaseId) && lease.heartbeatSeq == 0
      && (over.Some? ==> Seen(w, over.value) && Expired(w, over.value.lease))
    case ClaimWritten(mine) => Seen(w, mine) && mine.lease.writer == writer
    case ClaimCleanup(mine) => Seen(w, mine) && mine.lease.writer == writer
    case OwnerStarted(owned) => Known(w, owned) && owned.writer == writer
    case Renewing(seen, renewed, _) =>
      Seen(w, seen) && seen.lease.writer == writer && Continues(seen.lease, renewed)
    case Confirming(renewed, _) => Known(w, renewed) && renewed.writer == writer
    case Releasing(seen) => Seen(w, seen) && seen.lease.writer == writer
  }

  ghost predicate HistoryOk(w: World) {
    && w.history != [] && Lineage(w.history)
    && forall v | 0 <= v < |w.history| && w.history[v].Some? :: Known(w, w.history[v].value)
  }

  ghost predicate StoreOk(w: World, store: Store) {
    store.owned.Some? ==> Known(w, store.owned.value) && store.owned.value.writer == store.writer
  }

  ghost predicate StoresOk(w: World) {
    && (forall s | s in w.stores :: StoreOk(w, w.stores[s]))
    && (forall s, t | s in w.stores && t in w.stores && s != t :: w.stores[s].writer != w.stores[t].writer)
  }

  ghost predicate FlightOk(w: World, id: OpId)
    requires id in w.flights
  {
    w.flights[id].store in w.stores && OpOk(w, id, w.stores[w.flights[id].store].writer, w.flights[id].op)
  }

  ghost predicate FlightsOk(w: World) {
    forall id {:trigger FlightOk(w, id)} | id in w.flights :: FlightOk(w, id)
  }

  ghost predicate Inv(w: World) {
    HistoryOk(w) && StoresOk(w) && FlightsOk(w)
  }

  /** Before any store has joined: some sidecar left from earlier, or none. */
  ghost predicate Initial(w: World) {
    && |w.history| == 1 && w.stores == map[] && w.flights == map[]
    && (w.history[0].Some? ==> Known(w, w.history[0].value))
  }

  // ----- Steps that only read the sidecar -----

  /** Nothing shared moved except that time passed or an identifier was handed out. */
  ghost predicate Quietly(w: World, v: World) {
    && v.history == w.history && w.clock <= v.clock
    && forall leaseId | leaseId in w.creators :: leaseId in v.creators && v.creators[leaseId] == w.creators[leaseId]
  }

  lemma OpStaysOk(w: World, v: World, id: OpId, writer: string, op: Op)
    requires OpOk(w, id, writer, op) && Quietly(w, v)
    ensures OpOk(v, id, writer, op)
  {
  }

  /** All flights but the moved one are as they were, and their stores are still there. */
  ghost predicate OthersFly(w: World, v: World, moved: Option<OpId>) {
    forall id | id in v.flights && moved != Some(id) ::
      id in w.flights && v.flights[id] == w.flights[id] && v.flights[id].store in v.stores
  }

  ghost predicate SameWriters(w: World, v: World) {
    forall s | s in v.stores && s in w.stores :: v.stores[s].writer == w.stores[s].writer
  }

  lemma QuietStepKeepsInv(w: World, v: World, moved: Option<OpId>)
    requires Inv(w) && Quietly(w, v) && StoresOk(v) && SameWriters(w, v) && OthersFly(w, v, moved)
    requires moved.Some? && moved.value in v.flights ==> FlightOk(v, moved.value)
    ensures Inv(v)
  {
    forall id | id in v.flights
      ensures FlightOk(v, id)
    {
      if moved != Some(id) {
        assert FlightOk(w, id);
        OpStaysOk(w, v, id, w.stores[w.flights[id].store].writer, w.flights[id].op);
      }
    }
  }

  // ----- Steps that change the sidecar -----

  /** One content was added by operation `moved`; nothing else that is shared moved. */
  ghost predicate Writes(w: World, v: World, content: Option<Lease>) {
    v.history == w.history + [content] && v.clock == w.clock && v.creators == w.creators
  }

  /** Why the new content is in order: it renews the present one, or its identifier is this operation's own. */
  ghost predicate InOrder(w: World, moved: OpId, content: Option<Lease>)
    requires w.history != []
  {
    content.Some? ==>
      && Known(w, content.value)
      && (|| (Now(w).Some? && Continues(Now(w).value, content.value))
          || (FreshIn(w.history, content.value.leaseId) && content.value.heartbeatSeq == 0 &&
              w.creators[content.value.leaseId].0 == moved))
  }

  lemma OpSurvivesWrite(w: World, v: World, moved: OpId, content: Option<Lease>, id: OpId, writer: string, op: Op)
    requires w.history != [] && InOrder(w, moved, content) && Writes(w, v, content)
    requires OpOk(w, id, writer, op) && id != moved
    ensures OpOk(v, id, writer, op)
  {
    if op.ClaimReady? && content.Some? {
      assert Now(w) == w.history[|w.history| - 1];
      assert content.value.leaseId != op.lease.leaseId;
    }
  }

  lemma WriteStepKeepsInv(w: World, v: World, moved: OpId, content: Option<Lease>)
    requires Inv(w) && InOrder(w, moved, content) && Writes(w, v, content)
    requires StoresOk(v) && SameWriters(w, v) && OthersFly(w, v, Some(moved))
    requires moved in v.flights ==> FlightOk(v, moved)
    ensures Inv(v)
  {
    LineageExtends(w.history, content);
    forall id | id in v.flights
      ensures FlightOk(v, id)
    {
      if id != moved {
        assert FlightOk(w, id);
        OpSurvivesWrite(w, v, moved, content, id, w.stores[w.flights[id].store].writer, w.flights[id].op);
      }
    }
  }

  lemma OwningKeepsStores(w: World, store: StoreId, owned: Option<Lease>)
    requires StoresOk(w) && store in w.stores
    requires owned.Some? ==> Known(w, owned.value) && owned.value.writer == w.stores[store].writer
    ensures StoresOk(Own(w, store, owned))
  {
  }

  // ----- Every step keeps the invariant -----

  lemma AllFly(w: World)
    requires FlightsOk(w)
    ensures OthersFly(w, w, None)
  {
    forall id | id in w.flights
      ensures w.flights[id].store in w.stores
    {
      assert FlightOk(w, id);
    }
  }

  lemma OutsideKeepsInv(w: World, action: Action)
    requires Inv(w) && ApplyOutside(w, action).Some?
    ensures Inv(ApplyOutside(w, action).value)
  {
    hide OpOk, Lineage;
    AllFly(w);
    var v := ApplyOutside(w, action).value;
    QuietStepKeepsInv(w, v, None);
  }

  lemma InspectionKeepsInv(w: World, action: Action)
    requires Inv(w) && ApplyInspection(w, action).Some?
    requires action.InspectSelf? || action.InspectUnclaimed? || action.InspectStale?
    ensures Inv(ApplyInspection(w, action).value)
  {
    hide Lineage;
    AllFly(w);
    var v := ApplyInspection(w, action).value;
    if action.InspectSelf? {
      OwningKeepsStores(w, action.store, Now(w));
      QuietStepKeepsInv(w, v, None);
    } else {
      QuietStepKeepsInv(w, v, Some(w.nextOp));
    }
  }

  lemma WatchingKeepsInv(w: World, action: Action)
    requires Inv(w) && ApplyInspection(w, action).Some?
    requires action.ConfirmUnclaimed? || action.ReadStale? || action.ConfirmStale?
    ensures Inv(ApplyInspection(w, action).value)
  {
    hide Lineage;
    AllFly(w);
    assert FlightOk(w, action.op);
    QuietStepKeepsInv(w, ApplyInspection(w, action).value, Some(action.op));
  }

  lemma SignKeepsInv(w: World, action: Action)
    requires Inv(w) && ApplyClaim(w, action).Some? && action.Sign?
    ensures Inv(ApplyClaim(w, action).value)
  {
    hide Lineage;
    AllFly(w);
    assert FlightOk(w, action.op);
    var v := ApplyClaim(w, action).value;
    assert FreshIn(w.history, action.leaseId) by {
      forall i | 0 <= i < |w.history| && w.history[i].Some?
        ensures w.history[i].value.leaseId != action.leaseId
      {
        assert Known(w, w.history[i].value);
      }
    }
    QuietStepKeepsInv(w, v, Some(action.op));
  }

  lemma WriteClaimKeepsInv(w: World, action: Action)
    requires Inv(w) && ApplyClaim(w, action).Some? && action.WriteClaim?
    ensures Inv(ApplyClaim(w, action).value)
  {
    hide Lineage, FreshIn;
    AllFly(w);
    assert FlightOk(w, action.op);
    WriteStepKeepsInv(w, ApplyClaim(w, action).value, action.op, Some(w.flights[action.op].op.lease));
  }

  lemma ConfirmationKeepsInv(w: World, action: Action)
    requires Inv(w) && ApplyClaim(w, action).Some? && (action.ConfirmClaim? || action.DoubtClaim?)
    ensures Inv(ApplyClaim(w, action).value)
  {
    hide Lineage, FreshIn;
    AllFly(w);
    assert FlightOk(w, action.op);
    if action.ConfirmClaim? {
      OwningKeepsStores(w, w.flights[action.op].store, Now(w));
    }
    QuietStepKeepsInv(w, ApplyClaim(w, action).value, Some(action.op));
  }

  lemma CleanupKeepsInv(w: World, action: Action)
    requires Inv(w) && ApplyClaim(w, action).Some? && action.CleanUpClaim?
    ensures Inv(ApplyClaim(w, action).value)
  {
    hide Lineage, FreshIn;
    AllFly(w);
    assert FlightOk(w, action.op);
    OwningKeepsStores(w, w.flights[action.op].store, Some(w.flights[action.op].op.mine.lease));
    if action.committed {
      WriteStepKeepsInv(w, ApplyClaim(w, action).value, action.op, None);
    } else {
      QuietStepKeepsInv(w, ApplyClaim(w, action).value, Some(action.op));
    }
  }

  lemma OwnerReadKeepsInv(w: World, action: Action)
    requires Inv(w) && ApplyOwner(w, action).Some? && (action.ReadForRenewal? || action.ReadForRelease?)
    ensures Inv(ApplyOwner(w, action).value)
  {
    hide Lineage, FreshIn;
    AllFly(w);
    assert FlightOk(w, action.op);
    QuietStepKeepsInv(w, ApplyOwner(w, action).value, Some(action.op));
  }

  lemma StartKeepsInv(w: World, action: Action)
    requires Inv(w) && ApplyOwner(w, action).Some? && action.StartOwnerOp?
    ensures Inv(ApplyOwner(w, action).value)
  {
    hide Lineage, FreshIn;
    AllFly(w);
    QuietStepKeepsInv(w, ApplyOwner(w, action).value, Some(w.nextOp));
  }

  lemma SwapKeepsInv(w: World, action: Action)
    requires Inv(w) && ApplyOwner(w, action).Some? && action.SwapRenewal?
    ensures Inv(ApplyOwner(w, action).value)
  {
    hide Lineage, FreshIn;
    AllFly(w);
    assert FlightOk(w, action.op);
    WriteStepKeepsInv(w, ApplyOwner(w, action).value, action.op, Some(w.flights[action.op].op.renewed));
  }

  lemma RenewedOwnershipKeepsInv(w: World, action: Action)
    requires Inv(w) && ApplyOwner(w, action).Some? && (action.ConfirmRenewal? || action.FindReleased?)
    ensures Inv(ApplyOwner(w, action).value)
  {
    hide Lineage, FreshIn;
    AllFly(w);
    assert FlightOk(w, action.op);
    var owned := if action.ConfirmRenewal? then Some(w.flights[action.op].op.renewed) else None;
    OwningKeepsStores(w, w.flights[action.op].store, owned);
    QuietStepKeepsInv(w, ApplyOwner(w, action).value, Some(action.op));
  }

  lemma DeleteKeepsInv(w: World, action: Action)
    requires Inv(w) && ApplyOwner(w, action).Some? && action.DeleteReleased?
    ensures Inv(ApplyOwner(w, action).value)
  {
    hide Lineage, FreshIn;
    AllFly(w);
    assert FlightOk(w, action.op);
    OwningKeepsStores(w, w.flights[action.op].store, None);
    WriteStepKeepsInv(w, ApplyOwner(w, action).value, action.op, None);
  }

  lemma StepKeepsInv(w: World, action: Action)
    requires w.history != [] && Inv(w) && Apply(w, action).Some?
    ensures Inv(Apply(w, action).value)
  {
    hide Inv, ApplyOutside, ApplyInspection, ApplyClaim, ApplyOwner;
    match action {
      case Tick(_) => OutsideKeepsInv(w, action);
      case Join(_, _, _, _, _) => OutsideKeepsInv(w, action);
      case Crash(_) => OutsideKeepsInv(w, action);
      case Abort(_) => OutsideKeepsInv(w, action);
      case InspectSelf(_) => InspectionKeepsInv(w, action);
      case InspectUnclaimed(_, _) => InspectionKeepsInv(w, action);
      case InspectStale(_) => InspectionKeepsInv(w, action);
      case ConfirmUnclaimed(_) => WatchingKeepsInv(w, action);
      case ReadStale(_) => WatchingKeepsInv(w, action);
      case ConfirmStale(_) => WatchingKeepsInv(w, action);
      case Sign(_, _, _) => SignKeepsInv(w, action);
      case WriteClaim(_, _) => WriteClaimKeepsInv(w, action);
      case ConfirmClaim(_) => ConfirmationKeepsInv(w, action);
      case DoubtClaim(_) => ConfirmationKeepsInv(w, action);
      case CleanUpClaim(_, _, _) => CleanupKeepsInv(w, action);
      case StartOwnerOp(_) => StartKeepsInv(w, action);
      case ReadForRenewal(_, _) => OwnerReadKeepsInv(w, action);
      case SwapRenewal(_, _) => SwapKeepsInv(w, action);
      case ConfirmRenewal(_) => RenewedOwnershipKeepsInv(w, action);
      case ReadForRelease(_) => OwnerReadKeepsInv(w, action);
      case FindReleased(_) => RenewedOwnershipKeepsInv(w, action);
      case DeleteReleased(_, _) => DeleteKeepsInv(w, action);
    }
  }

  // ----- Whole runs -----

  /** The world after a run; a step the code refuses ends it. */
  function Run(w: World, actions: seq<Action>): (v: Option<World>)
    requires w.history != []
    ensures v.Some? ==> v.value.history != []
    decreases |actions|
  {
    if actions == [] then Some(w)
    else
      var before := Run(w, actions[..|actions| - 1]);
      if before.None? then None else Apply(before.value, actions[|actions| - 1])
  }

  lemma {:induction false} RunKeepsInv(w: World, actions: seq<Action>)
    requires Initial(w) && Run(w, actions).Some?
    ensures Inv(Run(w, actions).value)
    decreases |actions|
  {
    if actions == [] {
    } else {
      RunKeepsInv(w, actions[..|actions| - 1]);
      StepKeepsInv(Run(w, actions[..|actions| - 1]).value, actions[|actions| - 1]);
    }
  }

  ghost predicate Owns(w: World, s: StoreId)
    requires w.history != []
  {
    && s in w.stores && w.stores[s].owned.Some? && Now(w).Some?
    && w.stores[s].owned.value.leaseId == Now(w).value.leaseId
  }

  /** In every run, at most one store owns the lease the sidecar names. */
  lemma AtMostOneOwner(w: World, actions: seq<Action>, s: StoreId, t: StoreId)
    requires Initial(w) && Run(w, actions).Some?
    requires Owns(Run(w, actions).value, s) && Owns(Run(w, actions).value, t)
    ensures s == t
  {
    RunKeepsInv(w, actions);
  }

  /** What an operation that is about to swap or delete has read. */
  function Expectation(op: Op): Option<Sighting> {
    match op
    case ClaimReady(over, _) => over
    case ClaimCleanup(mine) => Some(mine)
    case Renewing(seen, _, _) => Some(seen)
    case Releasing(seen) => Some(seen)
    case _ => None
  }

  predicate Mutates(action: Action) {
    || action.WriteClaim? || action.SwapRenewal? || action.DeleteReleased?
    || (action.CleanUpClaim? && action.committed)
  }

  /** A mutation finds what its operation expects. */
  lemma MutationHasFlight(w: World, last: Action)
    requires w.history != [] && Inv(w) && Mutates(last) && Apply(w, last).Some?
    ensures last.op in w.flights && FlightOk(w, last.op)
    ensures var seen := Expectation(w.flights[last.op].op);
      seen.Some? ==> Now(w) == Some(seen.value.lease) && Seen(w, seen.value)
  {
    hide Lineage, FreshIn;
    assert FlightOk(w, last.op);
  }

  /**
   A swap or delete that succeeds replaces the very version the operation read: between the read and
   the swap the sidecar was not written at all.
   */
  lemma SwapReplacesWhatWasRead(w: World, actions: seq<Action>, last: Action)
    requires Initial(w) && Run(w, actions).Some? && Mutates(last)
    requires Apply(Run(w, actions).value, last).Some?
    ensures var v := Run(w, actions).value;
      && last.op in v.flights
      && (Expectation(v.flights[last.op].op).Some? ==>
           Expectation(v.flights[last.op].op).value.version == |v.history| - 1)
  {
    hide Run;
    RunKeepsInv(w, actions);
    var v := Run(w, actions).value;
    MutationHasFlight(v, last);
    var seen := Expectation(v.flights[last.op].op);
    if seen.Some? && seen.value.version < |v.history| - 1 {
      ContentsNeverRecur(v.history, seen.value.version, |v.history| - 1);
    }
  }

  lemma OnlyMutationsWrite(w: World, action: Action)
    requires w.history != [] && Apply(w, action).Some?
    ensures !Mutates(action) ==> Apply(w, action).value.history == w.history
    ensures Mutates(action) ==> |Apply(w, action).value.history| == |w.history| + 1
  {
  }

  /** The lease in the sidecar has expired, or the step is its writer's: a renewal or a removal. */
  ghost predicate Licensed(w: World, action: Action, next: World)
    requires w.history != [] && next.history != [] && Mutates(action)
  {
    Now(w).Some? ==>
      || Expired(w, Now(w).value)
      || (Flying(w, action.op) && StoreOf(w, action.op).writer == Now(w).value.writer &&
          (Now(next).Some? ==> Continues(Now(w).value, Now(next).value)))
  }

  lemma MutationIsLicensed(w: World, action: Action)
    requires w.history != [] && Inv(w) && Mutates(action) && Apply(w, action).Some?
    ensures Licensed(w, action, Apply(w, action).value)
  {
    hide Inv, Lineage, FreshIn;
    MutationHasFlight(w, action);
  }

  /** In every run a lease in the sidecar changes only for its own writer, or by takeover after it expired. */
  lemma TakeoverOnlyAfterExpiry(w: World, actions: seq<Action>, last: Action)
    requires Initial(w) && Run(w, actions).Some? && Apply(Run(w, actions).value, last).Some?
    ensures var v := Run(w, actions).value;
      var next := Apply(v, last).value;
      if Mutates(last) then |next.history| == |v.history| + 1 && Licensed(v, last, next)
      else next.history == v.history
  {
    hide Run, Inv, Apply;
    RunKeepsInv(w, actions);
    OnlyMutationsWrite(Run(w, actions).value, last);
    if Mutates(last) {
      MutationIsLicensed(Run(w, actions).value, last);
    }
  }

  /** Over a whole run: sequence numbers of a lease grow strictly, no content recurs, no lease returns. */
  lemma SidecarHistoryIsLinear(w: World, actions: seq<Action>, i: nat, j: nat)
    requires Initial(w) && Run(w, actions).Some? && i < j < |Run(w, actions).value.history|
    ensures var history := Run(w, actions).value.history;
      && (history[i].Some? ==> history[i] != history[j])
      && (history[i].Some? && history[j].Some? && history[i].value.leaseId == history[j].value.leaseId ==>
           && history[i].value.heartbeatSeq < history[j].value.heartbeatSeq
           && forall k | i <= k <= j ::
                history[k].Some? && history[k].value.leaseId == history[i].value.leaseId)
  {
    RunKeepsInv(w, actions);
    var history := Run(w, actions).value.history;
    if history[i].Some? {
      ContentsNeverRecur(history, i, j);
      if history[j].Some? && history[i].value.leaseId == history[j].value.leaseId {
        HeartbeatsGrow(history, i, j);
        forall k | i <= k <= j
          ensures history[k].Some? && history[k].value.leaseId == history[i].value.leaseId
        {
          LeaseNeverReturns(history, i, k, j);
        }
      }
    }
  }
}
