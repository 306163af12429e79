/** What the lease operations answer, and when. */
module LeaseAnswers {
  import opened Bytes
  import opened Terms
  import opened Frames
  import opened FrameLog
  import opened TermStore
  import opened Coordinates
  import opened Requests
  import opened Durability
  import opened Fence
  import opened Leases
  import opened LeaseSafety
  import opened LeaseFencing
  import opened LeaseRuns
  import opened Receipts
  import Preflight

  /** Open for writing, with no torn tail in the way. */
  predicate Writes(db: Db) { db.status.Ready? && db.torn.None? }

  /** Somebody's lease on the resource is in force. */
  ghost predicate Held(s: Store, resource: Term, now: int) {
    exists p: nat :: LeaseAt(s, p, resource) && Effective(s, p) && Expires(s.rows[p].proposition) > now
  }

  /** The frame a granted lease is recorded in reaches the log, if there is one. */
  predicate Landing(h: Host, db: Db, e: LeaseEvent, fault: Option<nat>) {
    Decide(db.store, e).Submit? && Recordable(h, db, Decide(db.store, e).request, fault)
  }

  lemma SubmittedAnswers(h: Host, db: Db, e: LeaseEvent, fault: Option<nat>)
    requires LeaseSafe(db.store) && Sequenced(db.store) && Decide(db.store, e).Submit?
    ensures var (after, r) := LeaseStep(h, db, e, fault);
      && (r.Committed? <==> Writes(db) && Granted(db.store, Decide(db.store, e)) && Landing(h, db, e, fault))
      && (r.Refused? <==> !(Writes(db) && Granted(db.store, Decide(db.store, e))))
      && (r.Refused? ==> after == db)
      && (r.Committed? ==> Tells(db.store, after.store, Decide(db.store, e).request, r.receipt))
  {
    hide Decide, CommitStep, Prepare, Tells, Consistent, Recordable;
    var request := Decide(db.store, e).request;
    CommitAnswers(h, db, request, fault);
    PrepareAcceptsIff(db.store, false, request);
    PrepareAcceptsIff(db.store, db.torn.Some?, request);
    assert AcceptedRequest(db.store, db.torn.Some?, request) <==> AcceptedRequest(db.store, false, request) && db.torn.None?;
  }

  /** An acquisition is refused for a time to live that is not positive, then for a lease in force; otherwise it
      commits exactly when the database is open for writing and the lease can be recorded. */
  lemma AcquireAnswers(h: Host, db: Db, resource: Term, holder: Term, ttl: int, now: int, fault: Option<nat>)
    requires LeaseSafe(db.store) && Sequenced(db.store)
    ensures var e := Acquire(resource, holder, ttl, now);
      var (after, r) := LeaseStep(h, db, e, fault);
      && (ttl <= 0 ==> r == Refused(InvalidLeaseRequest) && after == db)
      && (ttl > 0 && Held(db.store, resource, now) ==> r == Refused(LeaseHeld) && after == db)
      && (r.Committed? <==>
            (ttl > 0 && !Held(db.store, resource, now) && Writes(db) && Canonical(LeaseTerm(resource, holder, now + ttl))
             && Landing(h, db, e, fault)))
      && (r.Refused? ==> after == db)
  {
    hide LeaseSafe, Sequenced, Effective, Canonical, CommitStep, Prepare, CurrentLease, Tells, Recordable;
    var e := Acquire(resource, holder, ttl, now);
    AcquireSucceedsIff(db.store, resource, holder, ttl, now);
    if p: nat :| LeaseAt(db.store, p, resource) && Effective(db.store, p) && Expires(db.store.rows[p].proposition) > now {
      Uncontested(db.store, resource, p);
    }
    if Decide(db.store, e).Submit? {
      SubmittedAnswers(h, db, e, fault);
    }
  }

  /** A renewal is refused as a mismatch exactly when its fence is not valid; otherwise it commits exactly when the
      database is open for writing and the lease can be recorded. */
  lemma RenewAnswers(h: Host, db: Db, resource: Term, holder: Term, epoch: Term, ttl: int, now: int, fault: Option<nat>)
    requires LeaseSafe(db.store) && Sequenced(db.store)
    ensures var e := Renew(resource, holder, epoch, ttl, now);
      var (after, r) := LeaseStep(h, db, e, fault);
      && (!LeaseFenceValid(db.store, resource, holder, epoch, now) ==> r == Refused(LeaseFenceMismatch) && after == db)
      && (r.Committed? <==>
            (LeaseFenceValid(db.store, resource, holder, epoch, now) && Writes(db)
             && Canonical(LeaseTerm(resource, holder, now + ttl)) && Landing(h, db, e, fault)))
      && (r.Refused? ==> after == db)
  {
    hide LeaseSafe, Sequenced, Effective, Canonical, CommitStep, Prepare, CurrentLease, Tells, Recordable, LeaseFenceValid;
    var e := Renew(resource, holder, epoch, ttl, now);
    RenewSucceedsIff(db.store, resource, holder, epoch, ttl, now);
    if Decide(db.store, e).Submit? {
      SubmittedAnswers(h, db, e, fault);
    }
  }

  /** A release is refused as a mismatch exactly when the epoch is not the holder's current one; otherwise it
      commits exactly when the database is open for writing and the release can be recorded. Its receipt reports
      one withdrawal: that of the epoch. */
  lemma ReleaseAnswers(h: Host, db: Db, resource: Term, holder: Term, epoch: Term, fault: Option<nat>)
    requires LeaseSafe(db.store) && Sequenced(db.store)
    ensures var e := Release(resource, holder, epoch);
      var (after, r) := LeaseStep(h, db, e, fault);
      && (!Holds(db.store, resource, holder, epoch) ==> r == Refused(LeaseFenceMismatch) && after == db)
      && (r.Committed? <==> Holds(db.store, resource, holder, epoch) && Writes(db) && Landing(h, db, e, fault))
      && (r.Committed? ==> r.receipt.withdrawals == [(NextOccurrence(db.store), epoch)])
      && (r.Refused? ==> after == db)
  {
    hide LeaseSafe, Sequenced, Effective, Canonical, CommitStep, Prepare, CurrentLease, Tells, Recordable, WithdrawOccurrence, Holds;
    var e := Release(resource, holder, epoch);
    if Holds(db.store, resource, holder, epoch) {
      ReleaseSucceeds(db.store, resource, holder, epoch);
      SubmittedAnswers(h, db, e, fault);
      if LeaseStep(h, db, e, fault).1.Committed? {
        ReleaseReports(h, db, resource, holder, epoch, fault);
      }
    }
  }

  lemma ReleaseReports(h: Host, db: Db, resource: Term, holder: Term, epoch: Term, fault: Option<nat>)
    requires LeaseSafe(db.store) && Sequenced(db.store) && Holds(db.store, resource, holder, epoch)
    requires LeaseStep(h, db, Release(resource, holder, epoch), fault).1.Committed?
    ensures LeaseStep(h, db, Release(resource, holder, epoch), fault).1.receipt.withdrawals == [(NextOccurrence(db.store), epoch)]
  {
    hide *;
    var e := Release(resource, holder, epoch);
    CommittedStores(h, db, e, fault);
    DecidesRelease(db.store, resource, holder, epoch);
    ReleaseIsOneRetraction(db.store, resource, holder, epoch);
    var s, request := db.store, Decide(db.store, e).request;
    var f := Prepare(s, false, request).value;
    var p := CurrentLease(s, resource).value;
    ReleaseTakesEffect(s, f, resource, holder, epoch);
    SubmittedAnswers(h, db, e, fault);
    ReleasedReports(s, f, request, LeaseStep(h, db, e, fault).1.receipt, p, resource);
  }

  lemma ReleasedReports(s: Store, f: Frame, request: Request, r: Receipt, p: nat, resource: Term)
    requires Tells(s, Commit(s, f), request, r) && |request.operations| == 1 && p < |s.rows|
    requires Released(s, f, p, resource) && f.sequence == s.next && f.operations != []
    ensures r.withdrawals == [(NextOccurrence(s), CoordinateAt(s, p))]
  {
    hide *;
    ReleasedWithdraws(s, f, p, resource);
    CommittedRows(s, f);
    RetractionAt(s, f);
    OneWithdrawal(s, Commit(s, f), request, r, p);
  }

  /** The coordinate the next operation will get. */
  function NextOccurrence(s: Store): Term {
    OccurrenceCoordinate(TransactionCoordinate(s.space, s.next), 0)
  }

  lemma ReleaseIsOneRetraction(s: Store, resource: Term, holder: Term, epoch: Term)
    requires Holds(s, resource, holder, epoch) && ReleaseLease(s, resource, holder, epoch).Submit?
    ensures |ReleaseLease(s, resource, holder, epoch).request.operations| == 1
    ensures CurrentLease(s, resource).Some? && CurrentLease(s, resource).value < |s.rows|
    ensures CoordinateAt(s, CurrentLease(s, resource).value) == epoch
  {
    hide Effective, CurrentLease;
  }

  lemma DecidesRelease(s: Store, resource: Term, holder: Term, epoch: Term)
    ensures Decide(s, Release(resource, holder, epoch)) == ReleaseLease(s, resource, holder, epoch)
  {
  }

  lemma CommittedStores(h: Host, db: Db, e: LeaseEvent, fault: Option<nat>)
    requires LeaseStep(h, db, e, fault).1.Committed?
    ensures Decide(db.store, e).Submit? && Prepare(db.store, db.torn.Some?, Decide(db.store, e).request).Fine?
    ensures db.torn.None?
    ensures var f := Prepare(db.store, false, Decide(db.store, e).request).value;
      LeaseStep(h, db, e, fault).0.store == Commit(db.store, f) && f.sequence == db.store.next && f.operations != []
  {
    hide Decide, Commit, FenceAndReconcile, Append, Prepare;
    PreparedIsNext(db.store, db.torn.Some?, Decide(db.store, e).request);
  }

  lemma ReleasedWithdraws(s: Store, f: Frame, p: nat, resource: Term)
    requires Released(s, f, p, resource)
    ensures |s.rows| < |Commit(s, f).targets| && Commit(s, f).targets[|s.rows|] == Some(p)
  {
    hide Commit, CurrentLease;
  }

  lemma RetractionAt(s: Store, f: Frame)
    requires f.sequence == s.next && f.operations != []
    ensures |s.rows| < |Commit(s, f).rows| && CoordinateAt(Commit(s, f), |s.rows|) == NextOccurrence(s)
  {
    hide Commit;
    CommittedRows(s, f);
    assert Commit(s, f).rows[|s.rows|] == RowsOf(f)[0];
  }

  lemma OnePosition(t: Store, lo: nat, positions: seq<nat>)
    requires Withdrawing(t, lo, lo + 1, positions) && lo < |t.targets| && t.targets[lo].Some?
    ensures positions == [lo]
  {
    Preflight.AscendingUnique(positions, [lo]);
  }

  lemma OneWithdrawal(s: Store, t: Store, request: Request, r: Receipt, p: nat)
    requires Tells(s, t, request, r) && |request.operations| == 1 && |s.rows| < |t.rows| && s.rows == t.rows[..|s.rows|]
    requires s.space == t.space && |s.rows| < |t.targets| && t.targets[|s.rows|] == Some(p) && p < |s.rows|
    ensures r.withdrawals == [(CoordinateAt(t, |s.rows|), CoordinateAt(s, p))]
  {
    hide Records, Withdrawing, RowCoordinate;
    var lo := |s.rows|;
    var positions :| Withdrawing(t, lo, lo + 1, positions) && Names(t, positions, r.withdrawals);
    OnePosition(t, lo, positions);
    hide CoordinateAt;
    assert CoordinateAt(t, p) == CoordinateAt(s, p) by { SameCoordinate(s, t, p); }
    assert Reports(t, positions[0], r.withdrawals[0]);
  }

  lemma SameCoordinate(s: Store, t: Store, p: nat)
    requires p < |s.rows| <= |t.rows| && s.rows == t.rows[..|s.rows|] && s.space == t.space
    ensures CoordinateAt(t, p) == CoordinateAt(s, p)
  {
    assert t.rows[p] == s.rows[p];
  }
}
