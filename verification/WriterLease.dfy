/**
 The writer lease of a shared file: any number of stores, each with any number of operations in flight,
 take turns in steps that read the sidecar file or change it by compare-and-swap. Clock, lease
 identifiers and the fingerprint of the shared target come from outside.
 */
module WriterLease {
  import opened Wrappers

  type Fingerprint = string
  type LeaseId = string
  type StoreId = nat
  type OpId = nat

  const MAX_EXTENSION_MS := 600_000

  /** A signed lease; its signature verifies exactly for holders of `key`. */
  datatype Lease = Lease(
    key: string, writer: string, session: string, leaseId: LeaseId, target: Option<Fingerprint>,
    issuedAt: nat, heartbeatAt: nat, expiresAt: nat, heartbeatSeq: nat)

  datatype Store = Store(key: string, writer: string, session: string, ttl: nat, owned: Option<Lease>)

  datatype Renewal =
    | Heartbeat(extension: nat)
    | Snapshot(previous: Option<Fingerprint>, written: Option<Fingerprint>)

  /** A lease as it was read, and which version of the sidecar that was. */
  datatype Sighting = Sighting(lease: Lease, version: nat)

  /** Where an operation of a store stands between two of its file-system calls. */
  datatype Op =
    | ClaimUnclaimed(since: nat, confirmed: bool)
    | ClaimStale
    | ClaimWatching(seen: Sighting, since: nat)
    | ClaimExpired(seen: Sighting)
    | ClaimReady(over: Option<Sighting>, lease: Lease)
    | ClaimWritten(mine: Sighting)
    | ClaimCleanup(mine: Sighting)
    | OwnerStarted(owned: Lease)
    | Renewing(seen: Sighting, renewed: Lease, renewal: Renewal)
    | Confirming(renewed: Lease, renewal: Renewal)
    | Releasing(seen: Sighting)

  datatype Flight = Flight(store: StoreId, op: Op)

  /** `history` holds every content the sidecar ever had, the present one last; `None` is no file. */
  datatype World = World(
    history: seq<Option<Lease>>, clock: nat, creators: map<LeaseId, (OpId, string)>,
    stores: map<StoreId, Store>, flights: map<OpId, Flight>, nextOp: OpId)

  datatype Action =
    | Tick(elapsed: nat)
    | Join(store: StoreId, key: string, writer: string, session: string, ttl: nat)
    | Crash(store: StoreId)
    | Abort(op: OpId)
    | InspectSelf(store: StoreId)
    | InspectUnclaimed(store: StoreId, takeover: bool)
    | InspectStale(store: StoreId)
    | ConfirmUnclaimed(op: OpId)
    | ReadStale(op: OpId)
    | ConfirmStale(op: OpId)
    | Sign(op: OpId, leaseId: LeaseId, target: Option<Fingerprint>)
    | WriteClaim(op: OpId, reported: bool)
    | ConfirmClaim(op: OpId)
    | DoubtClaim(op: OpId)
    | CleanUpClaim(op: OpId, committed: bool, reported: bool)
    | StartOwnerOp(store: StoreId)
    | ReadForRenewal(op: OpId, renewal: Renewal)
    | SwapRenewal(op: OpId, reported: bool)
    | ConfirmRenewal(op: OpId)
    | ReadForRelease(op: OpId)
    | FindReleased(op: OpId)
    | DeleteReleased(op: OpId, reported: bool)

  function Now(w: World): Option<Lease>
    requires w.history != []
  {
    w.history[|w.history| - 1]
  }

  function Sight(w: World): Sighting
    requires w.history != [] && Now(w).Some?
  {
    Sighting(Now(w).value, |w.history| - 1)
  }

  predicate Flying(w: World, op: OpId) {
    op in w.flights && w.flights[op].store in w.stores
  }

  function StoreOf(w: World, op: OpId): Store
    requires Flying(w, op)
  {
    w.stores[w.flights[op].store]
  }

  function Launch(w: World, store: StoreId, op: Op): World {
    w.(flights := w.flights[w.nextOp := Flight(store, op)], nextOp := w.nextOp + 1)
  }

  function Advance(w: World, id: OpId, op: Op): World
    requires Flying(w, id)
  {
    w.(flights := w.flights[id := Flight(w.flights[id].store, op)])
  }

  function Land(w: World, id: OpId): World {
    w.(flights := w.flights - {id})
  }

  function Own(w: World, store: StoreId, owned: Option<Lease>): World
    requires store in w.stores
  {
    w.(stores := w.stores[store := w.stores[store].(owned := owned)])
  }

  function Write(w: World, content: Option<Lease>): World {
    w.(history := w.history + [content])
  }

  predicate Verifies(store: Store, lease: Lease) { lease.key == store.key }

  predicate Expired(w: World, lease: Lease) { lease.expiresAt <= w.clock }

  /** `inspect` with a readable sidecar: what the store takes the lease for. */
  datatype Inspection = ActiveSelf | Stale | Refused

  function Inspect(w: World, store: Store, lease: Lease): Inspection {
    if !Verifies(store, lease) then
      if store.owned.None? && Expired(w, lease) then Stale else Refused
    else if store.owned.Some? && lease.leaseId != store.owned.value.leaseId then Refused
    else if Expired(w, lease) then Stale
    else if lease.writer == store.writer && lease.session == store.session then ActiveSelf
    else Refused
  }

  // ----- Claiming -----

  function ApplyInspection(w: World, action: Action): (next: Option<World>)
    requires w.history != []
    ensures next.Some? ==> w.history <= next.value.history
  {
    match action
    case InspectSelf(s) =>
      if s in w.stores && Now(w).Some? && Inspect(w, w.stores[s], Now(w).value) == ActiveSelf
      then Some(Own(w, s, Now(w))) else None
    case InspectUnclaimed(s, takeover) =>
      if s in w.stores && Now(w).None? then Some(Launch(w, s, ClaimUnclaimed(w.clock, !takeover))) else None
    case InspectStale(s) =>
      if s in w.stores && Now(w).Some? && Inspect(w, w.stores[s], Now(w).value) == Stale
      then Some(Launch(w, s, ClaimStale)) else None
    case ConfirmUnclaimed(id) =>
      if Flying(w, id) && w.flights[id].op.ClaimUnclaimed? && Now(w).None? &&
         w.clock >= w.flights[id].op.since + StoreOf(w, id).ttl
      then Some(Advance(w, id, w.flights[id].op.(confirmed := true))) else None
    case ReadStale(id) =>
      if Flying(w, id) && w.flights[id].op.ClaimStale? && Now(w).Some?
      then Some(Advance(w, id, ClaimWatching(Sight(w), w.clock))) else None
    case ConfirmStale(id) =>
      if Flying(w, id) && w.flights[id].op.ClaimWatching? && Now(w) == Some(w.flights[id].op.seen.lease) &&
         Expired(w, w.flights[id].op.seen.lease) && w.clock >= w.flights[id].op.since + StoreOf(w, id).ttl
      then Some(Advance(w, id, ClaimExpired(w.flights[id].op.seen))) else None
    case _ => None
  }

  function NewLease(w: World, store: Store, leaseId: LeaseId, target: Option<Fingerprint>): Lease {
    Lease(store.key, store.writer, store.session, leaseId, target, w.clock, w.clock, w.clock + store.ttl, 0)
  }

  /** What a claim that may be written now goes over: nothing, or the expired lease it watched. */
  function Overwrites(op: Op): Option<Option<Sighting>> {
    match op
    case ClaimUnclaimed(_, true) => Some(None)
    case ClaimExpired(seen) => Some(Some(seen))
    case _ => None
  }

  predicate Matches(w: World, over: Option<Sighting>)
    requires w.history != []
  {
    if over.Some? then Now(w) == Some(over.value.lease) else Now(w).None?
  }

  function ApplyClaim(w: World, action: Action): (next: Option<World>)
    requires w.history != []
    ensures next.Some? ==> w.history <= next.value.history
  {
    match action
    case Sign(id, leaseId, target) =>
      if Flying(w, id) && leaseId !in w.creators && Overwrites(w.flights[id].op).Some? then
        var store := StoreOf(w, id);
        var signed := w.(creators := w.creators[leaseId := (id, store.writer)]);
        Some(Advance(
          signed, id, ClaimReady(Overwrites(w.flights[id].op).value, NewLease(w, store, leaseId, target))))
      else None
    case WriteClaim(id, reported) =>
      if Flying(w, id) && w.flights[id].op.ClaimReady? && Matches(w, w.flights[id].op.over) then
        var lease := w.flights[id].op.lease;
        var written := Write(w, Some(lease));
        Some(if reported then Advance(written, id, ClaimWritten(Sighting(lease, |w.history|))) else Land(written, id))
      else None
    case ConfirmClaim(id) =>
      if Flying(w, id) && w.flights[id].op.ClaimWritten? && Now(w) == Some(w.flights[id].op.mine.lease)
      then Some(Land(Own(w, w.flights[id].store, Now(w)), id)) else None
    case DoubtClaim(id) =>
      if Flying(w, id) && w.flights[id].op.ClaimWritten?
      then Some(Advance(w, id, ClaimCleanup(w.flights[id].op.mine))) else None
    case CleanUpClaim(id, committed, reported) =>
      if Flying(w, id) && w.flights[id].op.ClaimCleanup? &&
         (committed ==> Now(w) == Some(w.flights[id].op.mine.lease)) then
        var after := if committed then Write(w, None) else w;
        Some(Land(
          if committed && reported then after
          else Own(after, w.flights[id].store, Some(w.flights[id].op.mine.lease)), id))
      else None
    case _ => None
  }

  // ----- Renewing and releasing -----

  /** The sidecar still names this store under the lease it owned when the operation started. */
  predicate StillNames(store: Store, owned: Lease, current: Lease) {
    Verifies(store, current) && current.leaseId == owned.leaseId && current.writer == store.writer
  }

  predicate MayRenew(w: World, store: Store, current: Lease, renewal: Renewal) {
    && !Expired(w, current)
    && match renewal
       case Heartbeat(extension) => store.ttl <= extension <= MAX_EXTENSION_MS
       case Snapshot(previous, _) => current.target == previous
  }

  function Renewed(w: World, store: Store, current: Lease, renewal: Renewal): Lease {
    var beaten := current.(heartbeatAt := w.clock, heartbeatSeq := current.heartbeatSeq + 1);
    match renewal
    case Heartbeat(extension) => beaten.(expiresAt := w.clock + extension)
    case Snapshot(_, written) => beaten.(expiresAt := w.clock + store.ttl, target := written)
  }

  /** The read-back behind a swap; a snapshot looks at the target and not at the sequence number. */
  predicate ReadsBack(current: Lease, renewed: Lease, renewal: Renewal) {
    && current.leaseId == renewed.leaseId
    && if renewal.Heartbeat? then current.heartbeatSeq == renewed.heartbeatSeq else current.target == renewed.target
  }

  function ApplyOwner(w: World, action: Action): (next: Option<World>)
    requires w.history != []
    ensures next.Some? ==> w.history <= next.value.history
  {
    match action
    case StartOwnerOp(s) =>
      if s in w.stores && w.stores[s].owned.Some?
      then Some(Launch(w, s, OwnerStarted(w.stores[s].owned.value))) else None
    case ReadForRenewal(id, renewal) =>
      if Flying(w, id) && w.flights[id].op.OwnerStarted? && Now(w).Some? &&
         StillNames(StoreOf(w, id), w.flights[id].op.owned, Now(w).value) &&
         MayRenew(w, StoreOf(w, id), Now(w).value, renewal)
      then Some(Advance(w, id, Renewing(Sight(w), Renewed(w, StoreOf(w, id), Now(w).value, renewal), renewal)))
      else None
    case SwapRenewal(id, reported) =>
      if Flying(w, id) && w.flights[id].op.Renewing? && Now(w) == Some(w.flights[id].op.seen.lease) then
        var op := w.flights[id].op;
        var written := Write(w, Some(op.renewed));
        Some(if reported then Advance(written, id, Confirming(op.renewed, op.renewal)) else Land(written, id))
      else None
    case ConfirmRenewal(id) =>
      if Flying(w, id) && w.flights[id].op.Confirming? && Now(w).Some? &&
         Verifies(StoreOf(w, id), Now(w).value) &&
         ReadsBack(Now(w).value, w.flights[id].op.renewed, w.flights[id].op.renewal)
      then Some(Land(Own(w, w.flights[id].store, Some(w.flights[id].op.renewed)), id)) else None
    case ReadForRelease(id) =>
      if Flying(w, id) && w.flights[id].op.OwnerStarted? && Now(w).Some? &&
         StillNames(StoreOf(w, id), w.flights[id].op.owned, Now(w).value)
      then Some(Advance(w, id, Releasing(Sight(w)))) else None
    case FindReleased(id) =>
      if Flying(w, id) && w.flights[id].op.OwnerStarted? && Now(w).None?
      then Some(Land(Own(w, w.flights[id].store, None), id)) else None
    case DeleteReleased(id, reported) =>
      if Flying(w, id) && w.flights[id].op.Releasing? && Now(w) == Some(w.flights[id].op.seen.lease) then
        var deleted := Write(w, None);
        Some(Land(if reported then Own(deleted, w.flights[id].store, None) else deleted, id))
      else None
    case _ => None
  }

  function ApplyOutside(w: World, action: Action): (next: Option<World>)
    ensures next.Some? ==> next.value.history == w.history
  {
    match action
    case Tick(elapsed) => Some(w.(clock := w.clock + elapsed))
    case Join(s, key, writer, session, ttl) =>
      if s !in w.stores && ttl >= 1 && (forall other | other in w.stores :: w.stores[other].writer != writer)
      then Some(w.(stores := w.stores[s := Store(key, writer, session, ttl, None)])) else None
    case Crash(s) => Some(w.(stores := w.stores - {s}, flights := Grounded(w.flights, s)))
    case Abort(id) => Some(Land(w, id))
    case _ => None
  }

  function Grounded(flights: map<OpId, Flight>, store: StoreId): map<OpId, Flight> {
    map id | id in flights && flights[id].store != store :: flights[id]
  }

  /** One step of the protocol, or `None` where the code would stop with an error instead. */
  function Apply(w: World, action: Action): (next: Option<World>)
    requires w.history != []
    ensures next.Some? ==> w.history <= next.value.history
  {
    match action
    case Tick(_) => ApplyOutside(w, action)
    case Join(_, _, _, _, _) => ApplyOutside(w, action)
    case Crash(_) => ApplyOutside(w, action)
    case Abort(_) => ApplyOutside(w, action)
    case InspectSelf(_) => ApplyInspection(w, action)
    case InspectUnclaimed(_, _) => ApplyInspection(w, action)
    case InspectStale(_) => ApplyInspection(w, action)
    case ConfirmUnclaimed(_) => ApplyInspection(w, action)
    case ReadStale(_) => ApplyInspection(w, action)
    case ConfirmStale(_) => ApplyInspection(w, action)
    case Sign(_, _, _) => ApplyClaim(w, action)
    case WriteClaim(_, _) => ApplyClaim(w, action)
    case ConfirmClaim(_) => ApplyClaim(w, action)
    case DoubtClaim(_) => ApplyClaim(w, action)
    case CleanUpClaim(_, _, _) => ApplyClaim(w, action)
    case _ => ApplyOwner(w, action)
  }
}
