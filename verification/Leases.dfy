/** Exact withdrawal and leases: expiring claims on a resource, ordered by supersession. */
module Leases {
  import opened Bytes
  import opened Terms
  import opened Frames
  import opened TermStore
  import opened Coordinates
  import opened Requests
  import opened Durability

  // ----- exact withdrawal -----

  /** The position recorded at a coordinate. */
  function FindFrom(s: Store, coordinate: Term, p: nat): (r: Option<nat>)
    requires p <= |s.rows|
    ensures r.Some? ==> p <= r.value < |s.rows| && CoordinateAt(s, r.value) == coordinate
    ensures r.None? ==> forall q :: p <= q < |s.rows| ==> CoordinateAt(s, q) != coordinate
    decreases |s.rows| - p
  {
    if p == |s.rows| then None else
    if CoordinateAt(s, p) == coordinate then Some(p) else FindFrom(s, coordinate, p + 1)
  }

  /** The last of `positions` that records `x`. */
  function LastEqual(s: Store, positions: seq<nat>, x: Term): (r: Option<nat>)
    requires Within(s, positions)
    ensures r.Some? ==> r.value in positions && s.rows[r.value].proposition == x
  {
    if positions == [] then None else
    var n := |positions| - 1;
    if s.rows[positions[n]].proposition == x then Some(positions[n]) else LastEqual(s, positions[..n], x)
  }

  /** Retracts the proposition of `target`, refusing any target the retraction would not withdraw. */
  function WithdrawOccurrence(s: Store, target: Term, actor: Option<Term>): Decision {
    match FindFrom(s, target, 0)
    case None => Reject(UnknownOccurrence)
    case Some(p) =>
      if s.rows[p].action.Retract? then Reject(NotAssertionOccurrence) else
      if !Effective(s, p) then Reject(OccurrenceNotLive) else
      if LastEqual(s, LivePositions(s), s.rows[p].proposition) != Some(p) then Reject(WithdrawalTargetNotCurrent) else
      Submit(Request([Plain(Retract, s.rows[p].proposition)], None, None, actor))
  }

  // ----- lease records -----

  predicate IsLease(t: Term) {
    t.Triple? && t.t2 == LEASE && t.t3.Triple? && t.t3.t2 == EXPIRES_AT && t.t3.t3.Int?
  }

  function LeaseTerm(resource: Term, holder: Term, expires: int): (t: Term)
    ensures IsLease(t) && Resource(t) == resource && Holder(t) == holder && Expires(t) == expires
  {
    Triple(resource, LEASE, Triple(holder, EXPIRES_AT, Int(expires)))
  }

  function Resource(t: Term): Term requires IsLease(t) { t.t1 }

  function Holder(t: Term): Term requires IsLease(t) { t.t3.t1 }

  function Expires(t: Term): int requires IsLease(t) { t.t3.t3.value }

  /** Whether row `p` records a lease on `resource`. */
  predicate LeaseAt(s: Store, p: nat, resource: Term) {
    p < |s.rows| && IsLease(s.rows[p].proposition) && Resource(s.rows[p].proposition) == resource
  }

  function LastLease(s: Store, positions: seq<nat>, resource: Term): (r: Option<nat>)
    ensures r.Some? ==> r.value in positions && LeaseAt(s, r.value, resource)
    ensures r.None? ==> forall p :: p in positions ==> !LeaseAt(s, p, resource)
  {
    if positions == [] then None else
    var n := |positions| - 1;
    if LeaseAt(s, positions[n], resource) then Some(positions[n]) else LastLease(s, positions[..n], resource)
  }

  /** The newest effective lease on a resource. */
  function CurrentLease(s: Store, resource: Term): (r: Option<nat>)
    ensures r.Some? ==> Effective(s, r.value) && LeaseAt(s, r.value, resource)
    ensures r.None? ==> forall p: nat :: LeaseAt(s, p, resource) ==> !Effective(s, p)
  {
    LastLease(s, EffectivePositions(s), resource)
  }

  // ----- the lease operations -----

  function LeaseRequest(resource: Term, holder: Term, expires: int, supersedes: Option<Term>): Request {
    Request([Plain(Assert, LeaseTerm(resource, holder, expires)).(supersedes := supersedes)], None, None, Some(holder))
  }

  function AcquireLease(s: Store, resource: Term, holder: Term, ttl: int, now: int): Decision {
    if ttl <= 0 then Reject(InvalidLeaseRequest) else
    match CurrentLease(s, resource)
    case None => Submit(LeaseRequest(resource, holder, now + ttl, None))
    case Some(p) =>
      if Expires(s.rows[p].proposition) > now then Reject(LeaseHeld) else
      Submit(LeaseRequest(resource, holder, now + ttl, Some(CoordinateAt(s, p))))
  }

  /** Whether `epoch` names the current lease and `holder` holds it. */
  predicate Holds(s: Store, resource: Term, holder: Term, epoch: Term) {
    match CurrentLease(s, resource)
    case None => false
    case Some(p) => Holder(s.rows[p].proposition) == holder && CoordinateAt(s, p) == epoch
  }

  predicate LeaseFenceValid(s: Store, resource: Term, holder: Term, epoch: Term, now: int) {
    Holds(s, resource, holder, epoch) && Expires(s.rows[CurrentLease(s, resource).value].proposition) > now
  }

  function RenewLease(s: Store, resource: Term, holder: Term, epoch: Term, ttl: int, now: int): Decision {
    if !LeaseFenceValid(s, resource, holder, epoch, now) then Reject(LeaseFenceMismatch) else
    Submit(LeaseRequest(resource, holder, now + ttl, Some(epoch)))
  }

  function ReleaseLease(s: Store, resource: Term, holder: Term, epoch: Term): Decision {
    if !Holds(s, resource, holder, epoch) then Reject(LeaseFenceMismatch) else
    WithdrawOccurrence(s, epoch, Some(holder))
  }
}
