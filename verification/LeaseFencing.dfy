/** Lease fencing over every run: one lease a resource, epochs that never come back, and mutual
    exclusion until a lease expires or its own holder gives it up. */
module LeaseFencing {
  import opened Bytes
  import opened Terms
  import opened Frames
  import opened TermStore
  import opened Coordinates
  import opened Requests
  import opened Durability
  import opened Fence
  import opened Leases
  import opened LeaseSafety

  // ----- frames that leave leases alone -----

  /** A recorded occurrence that is not a lease. */
  predicate NamesOther(s: Store, c: Term) {
    exists p :: 0 <= p < |s.rows| && CoordinateAt(s, p) == c && !LeaseRow(s, p)
  }

  predicate OrdinaryTerm(s: Store, x: Term) {
    !IsLease(x) && (IsSupersession(x) ==> NamesOther(s, x.t3))
  }

  predicate OrdinarySource(s: Store, op: SourceOperation) {
    OrdinaryTerm(s, op.proposition) && (op.supersedes.Some? ==> NamesOther(s, op.supersedes.value))
  }

  /** No operation of the request is about a lease, nor replaces one. */
  predicate OrdinaryRequest(s: Store, request: Request) {
    forall i :: 0 <= i < |request.operations| ==> OrdinarySource(s, request.operations[i])
  }

  ghost predicate OrdinaryOperations(s: Store, operations: seq<Operation>) {
    forall op :: op in operations ==> OrdinaryTerm(s, op.proposition)
  }

  lemma MetadataIsOrdinary(s: Store, subject: Term, op: SourceOperation)
    requires OrdinarySource(s, op)
    ensures OrdinaryOperations(s, MetadataOf(subject, op))
    ensures OrdinaryOperations(s, Asserted(subject, ASSERTED_BY, op.assertedBy))
  {
    hide NamesOther;
    KeywordsDiffer();
  }

  lemma KeywordsDiffer()
    ensures LEASE != SUPERSEDES && LEASE != ASSERTED_BY && LEASE != RECORDED_AT && LEASE != SOURCE_FRAME
    ensures SUPERSEDES != ASSERTED_BY && SUPERSEDES != RECORDED_AT && SUPERSEDES != SOURCE_FRAME
  {
    assert |LEASE.name| == 12 && |SUPERSEDES.name| == 17;
    assert |ASSERTED_BY.name| == 18 && |RECORDED_AT.name| == 18 && |SOURCE_FRAME.name| == 19;
  }

  lemma {:induction false} SourceMetadataIsOrdinary(s: Store, transaction: Term, operations: seq<SourceOperation>, i: nat)
    requires i <= |operations| && SourceMetadata(s, transaction, operations, i).Fine?
    requires forall j :: 0 <= j < |operations| ==> OrdinarySource(s, operations[j])
    ensures OrdinaryOperations(s, SourceMetadata(s, transaction, operations, i).value)
    decreases |operations| - i
  {
    hide OrdinarySource, MetadataOf, MetadataFault, OrdinaryTerm;
    if i < |operations| {
      SourceMetadataIsOrdinary(s, transaction, operations, i + 1);
      MetadataIsOrdinary(s, OccurrenceCoordinate(transaction, i), operations[i]);
    }
  }

  lemma TransactionMetadataIsOrdinary(s: Store, transaction: Term, request: Request)
    requires TransactionMetadata(transaction, request).Fine?
    ensures OrdinaryOperations(s, TransactionMetadata(transaction, request).value)
  {
    hide NamesOther;
    KeywordsDiffer();
  }

  lemma OrdinaryFrame(s: Store, torn: bool, request: Request)
    requires OrdinaryRequest(s, request) && Prepare(s, torn, request).Fine?
    ensures OrdinaryOperations(s, Prepare(s, torn, request).value.operations)
  {
    hide SourceMetadata, TransactionMetadata, OrdinaryTerm;
    var transaction := TransactionCoordinate(s.space, s.next);
    SourceMetadataIsOrdinary(s, transaction, request.operations, 0);
    TransactionMetadataIsOrdinary(s, transaction, request);
    var source := SourceOperations(request.operations).value;
    forall op | op in source ensures OrdinaryTerm(s, op.proposition) {
      var i :| 0 <= i < |source| && source[i] == op;
      assert OrdinarySource(s, request.operations[i]);
    }
  }

  /** An ordinary frame leaves every lease as it was. */
  lemma OrdinaryKeepsLeases(s: Store, f: Frame, p: nat)
    requires LeaseSafe(s) && OrdinaryOperations(s, f.operations) && f.sequence >= s.next
    ensures LeaseFrame(s, f)
    ensures LeaseRow(s, p) ==> (Effective(Commit(s, f), p) <==> Effective(s, p))
  {
    hide Commit, Live, Effective, Consistent;
    forall i | 0 <= i < |f.operations| && IsSupersession(f.operations[i].proposition)
      ensures Past(s, f.operations[i].proposition.t3)
    {
      assert f.operations[i] in f.operations;
    }
    forall i | 0 <= i < |f.operations| ensures !IsLease(f.operations[i].proposition) {
      assert f.operations[i] in f.operations;
    }
    forall q, action | LeaseRow(s, q) ensures !FrameReplaces(f, action, CoordinateAt(s, q)) {
      NothingReplaced(s, f, q, action);
    }
    assert KeepsReplaced(s, f);
    if LeaseRow(s, p) {
      CommittedRows(s, f);
      assert Commit(s, f).rows[p] == s.rows[p];
      EffectiveUnderFrame(s, f, p);
      LiveUnderFrame(s, f, p);
      assert Effective(s, p) ==> Live(s, p) by { EffectiveIsLive(s, p); }
    }
  }

  lemma EffectiveIsLive(s: Store, p: nat)
    ensures Effective(s, p) ==> Live(s, p)
  {
  }

  lemma NothingReplaced(s: Store, f: Frame, q: nat, action: Action)
    requires Numbered(s) && OrdinaryOperations(s, f.operations) && LeaseRow(s, q)
    ensures !FrameReplaces(f, action, CoordinateAt(s, q))
  {
    forall i | 0 <= i < |f.operations| ensures !Replaces(f.operations[i], action, CoordinateAt(s, q)) {
      var op := f.operations[i];
      assert op in f.operations;
      if Replaces(op, action, CoordinateAt(s, q)) {
        var p :| 0 <= p < |s.rows| && CoordinateAt(s, p) == op.proposition.t3 && !LeaseRow(s, p);
        CoordinatesDiffer(s, p, q);
        assert false;
      }
    }
  }

  // ----- frames that grant a lease -----

  function GrantOperations(s: Store, resource: Term, holder: Term, expires: int, prior: Option<Term>): seq<Operation> {
    var transaction := TransactionCoordinate(s.space, s.next);
    [Operation(Assert, LeaseTerm(resource, holder, expires))]
      + Asserted(OccurrenceCoordinate(transaction, 0), SUPERSEDES, prior) + Asserted(transaction, ASSERTED_BY, Some(holder))
  }

  lemma GrantFrame(s: Store, torn: bool, resource: Term, holder: Term, expires: int, prior: Option<Term>)
    requires Prepare(s, torn, LeaseRequest(resource, holder, expires, prior)).Fine?
    ensures Prepare(s, torn, LeaseRequest(resource, holder, expires, prior)).value
      == Frame(s.next, GrantOperations(s, resource, holder, expires, prior))
    ensures Canonical(LeaseTerm(resource, holder, expires))
  {
    hide Canonical, Resolves;
    var request := LeaseRequest(resource, holder, expires, prior);
    var op := request.operations[0];
    assert request.operations[1..] == [];
    var transaction := TransactionCoordinate(s.space, s.next);
    assert SourceMetadata(s, transaction, request.operations, 1) == Fine([]);
    var subject := OccurrenceCoordinate(transaction, 0);
    assert MetadataOf(subject, op) + [] == Asserted(subject, SUPERSEDES, prior);
  }

  /** The coordinate `prior` names, if any. */
  function NameOf(s: Store, prior: Option<nat>): Option<Term>
    requires prior.Some? ==> prior.value < |s.rows|
  {
    if prior.None? then None else Some(CoordinateAt(s, prior.value))
  }

  lemma GrantReplaces(s: Store, resource: Term, holder: Term, expires: int, prior: Option<nat>, c: Term)
    requires prior.Some? ==> prior.value < |s.rows|
    ensures var f := Frame(s.next, GrantOperations(s, resource, holder, expires, NameOf(s, prior)));
      && !FrameReplaces(f, Retract, c)
      && (FrameReplaces(f, Assert, c) ==> NameOf(s, prior) == Some(c))
      && (s.next >= 0 && prior.Some? && c == CoordinateAt(s, prior.value) && IsOccurrenceCoordinate(c) && s.space != [] ==>
        FrameReplaces(f, Assert, c))
  {
    KeywordsDiffer();
    var f := Frame(s.next, GrantOperations(s, resource, holder, expires, NameOf(s, prior)));
    if prior.Some? {
      assert f.operations[1].action.Assert? && f.operations[1].proposition.t3 == CoordinateAt(s, prior.value);
    }
  }

  /** A resource has at most one effective lease. */
  lemma OneLeaseAResource(s: Store, resource: Term, p: nat, q: nat)
    requires LeaseSafe(s) && LeaseAt(s, p, resource) && LeaseAt(s, q, resource)
    requires Effective(s, p) && Effective(s, q)
    ensures p == q && CurrentLease(s, resource) == Some(p)
  {
    hide Live, Consistent;
    EffectiveIsLive(s, p);
    EffectiveIsLive(s, q);
    assert SameResource(s, p, q) && SameResource(s, q, p);
    var r := CurrentLease(s, resource);
    EffectiveIsLive(s, r.value);
    assert SameResource(s, p, r.value) && SameResource(s, r.value, p);
  }

  /** A store, a lease request on it, and the frame that request prepares. */
  ghost predicate Granting(s: Store, f: Frame, resource: Term, holder: Term, expires: int, prior: Option<nat>) {
    && LeaseSafe(s) && CurrentLease(s, resource) == prior
    && Prepare(s, false, LeaseRequest(resource, holder, expires, NameOf(s, prior))) == Fine(f)
  }

  lemma GrantIsLeaseFrame(s: Store, f: Frame, resource: Term, holder: Term, expires: int, prior: Option<nat>)
    requires Granting(s, f, resource, holder, expires, prior)
    ensures LeaseFrame(s, f)
    ensures forall c :: FrameReplaces(f, Assert, c) <==> NameOf(s, prior) == Some(c)
  {
    hide Prepare, Effective, FrameReplaces, Consistent, Canonical, CurrentLease, Suppressor;
    GrantFrame(s, false, resource, holder, expires, NameOf(s, prior));
    KeywordsDiffer();
    PriorIsCoordinate(s, resource, holder, expires, prior);
    forall c ensures !FrameReplaces(f, Retract, c)
      ensures FrameReplaces(f, Assert, c) <==> NameOf(s, prior) == Some(c)
    {
      GrantReplaces(s, resource, holder, expires, prior, c);
    }
    forall p | LeaseAt(s, p, resource) && Effective(s, p) ensures FrameReplaces(f, Assert, CoordinateAt(s, p)) {
      Uncontested(s, resource, p);
    }
  }

  lemma Uncontested(s: Store, resource: Term, p: nat)
    requires LeaseSafe(s) && LeaseAt(s, p, resource) && Effective(s, p)
    ensures CurrentLease(s, resource) == Some(p)
  {
    OneLeaseAResource(s, resource, p, p);
  }

  lemma PriorIsCoordinate(s: Store, resource: Term, holder: Term, expires: int, prior: Option<nat>)
    requires prior.Some? ==> prior.value < |s.rows|
    requires Numbered(s) && Prepare(s, false, LeaseRequest(resource, holder, expires, NameOf(s, prior))).Fine?
    ensures prior.Some? ==> IsOccurrenceCoordinate(CoordinateAt(s, prior.value)) && s.next >= 0 && s.space != []
  {
    hide Resolves, Canonical;
    assert LeaseRequest(resource, holder, expires, NameOf(s, prior)).operations[1..] == [];
  }

  /** The lease at row `n` of `t` is new there, is its resource's one effective lease, and carries an epoch
      newer than everything recorded in `s`. */
  ghost predicate NewEpoch(s: Store, t: Store, n: nat, lease: Term) {
    && IsLease(lease) && n == |s.rows| < |t.rows| && t.rows[n].proposition == lease
    && CurrentLease(t, Resource(lease)) == Some(n)
    && CoordinateAt(t, n) == OccurrenceCoordinate(TransactionCoordinate(s.space, s.next), 0)
    && forall p :: 0 <= p < n ==> s.rows[p].sequence < t.rows[n].sequence
  }

  /** Of the leases recorded in `s`, exactly `gone` has stopped being effective in `t`. */
  ghost predicate OnlyLoses(s: Store, t: Store, gone: Option<nat>) {
    forall p: nat :: LeaseRow(s, p) ==> (Effective(t, p) <==> Effective(s, p) && gone != Some(p))
  }

  /** A granted lease takes effect and replaces exactly the lease that was current. */
  lemma GrantTakesEffect(s: Store, f: Frame, resource: Term, holder: Term, expires: int, prior: Option<nat>)
    requires Granting(s, f, resource, holder, expires, prior)
    ensures LeaseSafe(Commit(s, f))
    ensures NewEpoch(s, Commit(s, f), |s.rows|, LeaseTerm(resource, holder, expires))
    ensures OnlyLoses(s, Commit(s, f), prior)
  {
    hide Prepare, Commit, Effective, Consistent, Canonical, CurrentLease, FrameReplaces, LeaseFrame;
    var t, n := Commit(s, f), |s.rows|;
    GrantIsLeaseFrame(s, f, resource, holder, expires, prior);
    GrantFrame(s, false, resource, holder, expires, NameOf(s, prior));
    CommittedRows(s, f);
    assert t.rows[n] == RowsOf(f)[0];
    LeaseSafeUnderFrame(s, f);
    NewLeaseIsEffective(s, f);
    Uncontested(t, resource, n);
    forall p: nat | LeaseRow(s, p) ensures Effective(t, p) <==> Effective(s, p) && prior != Some(p) {
      EffectiveAfterGrant(s, f, resource, holder, expires, prior, p);
    }
  }

  /** A lease asserted in first place by a frame that replaces only recorded occurrences. */
  lemma NewLeaseIsEffective(s: Store, f: Frame)
    requires LeaseSafe(s) && LeaseFrame(s, f) && f.sequence == s.next && |f.operations| > 0
    requires IsLease(f.operations[0].proposition) && forall i :: 0 <= i < |f.operations| ==> f.operations[i].action.Assert?
    ensures Effective(Commit(s, f), |s.rows|)
  {
    hide Commit, Live, Consistent;
    var t, n := Commit(s, f), |s.rows|;
    CommittedRows(s, f);
    assert t.rows[n] == RowsOf(f)[0];
    LiveUnderFrame(s, f, n);
    var c := CoordinateAt(t, n);
    SuppressedUnderFrame(s, f, c);
  }

  lemma EffectiveAfterGrant(s: Store, f: Frame, resource: Term, holder: Term, expires: int, prior: Option<nat>, p: nat)
    requires Granting(s, f, resource, holder, expires, prior) && LeaseRow(s, p)
    ensures Effective(Commit(s, f), p) <==> Effective(s, p) && prior != Some(p)
  {
    hide Prepare, Commit, Live, Effective, Consistent, Canonical, CurrentLease, FrameReplaces, LeaseFrame;
    GrantIsLeaseFrame(s, f, resource, holder, expires, prior);
    GrantFrame(s, false, resource, holder, expires, NameOf(s, prior));
    CommittedRows(s, f);
    assert Commit(s, f).rows[p] == s.rows[p];
    EffectiveUnderFrame(s, f, p);
    LiveUnderFrame(s, f, p);
    EffectiveIsLive(s, p);
    if prior.Some? && CoordinateAt(s, prior.value) == CoordinateAt(s, p) {
      CoordinatesDiffer(s, prior.value, p);
    }
  }

  // ----- frames that release a lease -----

  lemma ReleaseFrame(s: Store, torn: bool, x: Term, holder: Term)
    requires x.Triple?
    ensures var r := Prepare(s, torn, Request([Plain(Retract, x)], None, None, Some(holder)));
      && (r.Fine? ==> r.value == Frame(s.next,
           [Operation(Retract, x), Operation(Assert, Triple(TransactionCoordinate(s.space, s.next), ASSERTED_BY, holder))]))
      && (!torn && Canonical(x) && Canonical(holder) ==> r.Fine?)
  {
    hide Canonical;
    var request := Request([Plain(Retract, x)], None, None, Some(holder));
    assert request.operations[1..] == [];
    var transaction := TransactionCoordinate(s.space, s.next);
    assert SourceMetadata(s, transaction, request.operations, 1) == Fine([]);
    assert MetadataOf(OccurrenceCoordinate(transaction, 0), request.operations[0]) == [];
    if Canonical(x) && Canonical(holder) {
      assert SourceOperations(request.operations) == Fine([Operation(Retract, x)] + []);
      assert MetadataFault(s, request.operations[0]) == None;
      assert SourceMetadata(s, transaction, request.operations, 0).Fine?;
    }
  }

  /** The proposition of the current lease is the newest live one of its kind. */
  lemma CurrentIsNewestEqual(s: Store, resource: Term, p: nat)
    requires LeaseSafe(s) && CurrentLease(s, resource) == Some(p)
    ensures LastEqual(s, LivePositions(s), s.rows[p].proposition) == Some(p)
    ensures FindFrom(s, CoordinateAt(s, p), 0) == Some(p) && s.rows[p].action.Assert?
  {
    hide Live, Consistent;
    EffectiveIsLive(s, p);
    StillAsserted(s, p);
    var x := s.rows[p].proposition;
    LastEqualIsNewest(s, LivePositions(s), x);
    var q := LastEqual(s, LivePositions(s), x).value;
    assert SameResource(s, p, q);
    CoordinatesDiffer(s, FindFrom(s, CoordinateAt(s, p), 0).value, p);
  }

  // ----- when a request succeeds -----

  /** What every store replayed from nothing has: a named space, and sequences that count up from 0. */
  ghost predicate Sequenced(s: Store) {
    s.space != [] && s.next >= 1 && forall p :: 0 <= p < |s.rows| ==> s.rows[p].sequence >= 0
  }

  lemma {:induction false} ReplayedIsSequenced(space: Octets, fs: seq<Frame>)
    requires space != [] && ReplayAll(NewStore(space), fs).Ok?
    ensures Sequenced(ReplayAll(NewStore(space), fs).value)
    decreases |fs|
  {
    hide Commit;
    if fs != [] {
      var n := |fs| - 1;
      ReplayedIsSequenced(space, fs[..n]);
      CommitFacts(ReplayAll(NewStore(space), fs[..n]).value, fs[n]);
    }
  }

  lemma RecordedIsResolved(s: Store, p: nat)
    requires Sequenced(s) && p < |s.rows|
    ensures IsOccurrenceCoordinate(CoordinateAt(s, p)) && Resolves(s, CoordinateAt(s, p))
  {
  }

  lemma GrantPrepares(s: Store, resource: Term, holder: Term, expires: int, prior: Option<nat>)
    requires Sequenced(s) && (prior.Some? ==> prior.value < |s.rows|)
    ensures Prepare(s, false, LeaseRequest(resource, holder, expires, NameOf(s, prior))).Fine?
      <==> Canonical(LeaseTerm(resource, holder, expires))
  {
    var request := LeaseRequest(resource, holder, expires, NameOf(s, prior));
    PrepareAcceptsIff(s, false, request);
    if prior.Some? {
      RecordedIsResolved(s, prior.value);
    }
    hide Prepare, Resolves;
    var x := LeaseTerm(resource, holder, expires);
    assert Canonical(x) ==> Canonical(x.t3) && Canonical(x.t3.t1);
    assert request.operations[0] == Plain(Assert, LeaseTerm(resource, holder, expires)).(supersedes := NameOf(s, prior));
  }

  predicate Granted(s: Store, d: Decision) {
    d.Submit? && Prepare(s, false, d.request).Fine?
  }

  /** On a database open for writing an acquisition is granted exactly when its time to live is positive, the
      lease can be written, and every effective lease on the resource has expired. */
  lemma AcquireSucceedsIff(s: Store, resource: Term, holder: Term, ttl: int, now: int)
    requires LeaseSafe(s) && Sequenced(s)
    ensures Granted(s, AcquireLease(s, resource, holder, ttl, now)) <==>
      (ttl > 0 && Canonical(LeaseTerm(resource, holder, now + ttl))
       && forall p: nat :: LeaseAt(s, p, resource) && Effective(s, p) ==> Expires(s.rows[p].proposition) <= now)
  {
    hide LeaseSafe, Effective, Canonical, Prepare, Sequenced, CurrentLease;
    GrantPrepares(s, resource, holder, now + ttl, CurrentLease(s, resource));
    forall p: nat | LeaseAt(s, p, resource) && Effective(s, p) ensures CurrentLease(s, resource) == Some(p) {
      Uncontested(s, resource, p);
    }
  }

  /** A renewal is granted exactly when its fence is valid and the new lease can be written; its time to
      live is not checked. */
  lemma RenewSucceedsIff(s: Store, resource: Term, holder: Term, epoch: Term, ttl: int, now: int)
    requires LeaseSafe(s) && Sequenced(s)
    ensures Granted(s, RenewLease(s, resource, holder, epoch, ttl, now)) <==>
      LeaseFenceValid(s, resource, holder, epoch, now) && Canonical(LeaseTerm(resource, holder, now + ttl))
  {
    hide LeaseSafe, Effective, Canonical, Prepare, Sequenced, CurrentLease;
    GrantPrepares(s, resource, holder, now + ttl, CurrentLease(s, resource));
  }

  /** A fence is valid exactly when the epoch names an effective lease of that holder on the resource that
      has not expired. */
  lemma FenceValidIff(s: Store, resource: Term, holder: Term, epoch: Term, now: int)
    requires LeaseSafe(s)
    ensures LeaseFenceValid(s, resource, holder, epoch, now) <==>
      exists p: nat :: LeaseAt(s, p, resource) && Effective(s, p) && CoordinateAt(s, p) == epoch
        && Holder(s.rows[p].proposition) == holder && Expires(s.rows[p].proposition) > now
  {
    hide LeaseSafe, Effective, CurrentLease;
    forall p: nat | LeaseAt(s, p, resource) && Effective(s, p) ensures CurrentLease(s, resource) == Some(p) {
      Uncontested(s, resource, p);
    }
  }

  /** Releasing the current epoch is never refused on a database open for writing. */
  lemma ReleaseSucceeds(s: Store, resource: Term, holder: Term, epoch: Term)
    requires LeaseSafe(s) && Holds(s, resource, holder, epoch)
    ensures var d := ReleaseLease(s, resource, holder, epoch);
      d.Submit? && Prepare(s, false, d.request).Fine?
  {
    hide LeaseSafe, Effective, CurrentLease, Canonical;
    var p := CurrentLease(s, resource).value;
    var x := s.rows[p].proposition;
    CurrentIsNewestEqual(s, resource, p);
    LeasesAreCanonical(s, p);
    ReleaseFrame(s, false, x, holder);
  }

  lemma LeasesAreCanonical(s: Store, p: nat)
    requires LeaseSafe(s) && LeaseRow(s, p)
    ensures Canonical(s.rows[p].proposition) && Canonical(Holder(s.rows[p].proposition))
  {
    hide Consistent, Effective, Live;
    var x := s.rows[p].proposition;
    assert Canonical(x) ==> Canonical(x.t3) && Canonical(x.t3.t1);
  }

  /** Committing `f` withdraws lease `p`, its resource then has no lease, and no other lease changes. */
  ghost predicate Released(s: Store, f: Frame, p: nat, resource: Term) {
    var t := Commit(s, f);
    && |s.rows| < |t.targets| && t.targets[|s.rows|] == Some(p)
    && OnlyLoses(s, t, Some(p)) && CurrentLease(t, resource) == None
  }

  lemma ReleaseTakesEffect(s: Store, f: Frame, resource: Term, holder: Term, epoch: Term)
    requires LeaseSafe(s) && Holds(s, resource, holder, epoch)
    requires ReleaseLease(s, resource, holder, epoch).Submit?
    requires Prepare(s, false, ReleaseLease(s, resource, holder, epoch).request) == Fine(f)
    ensures LeaseFrame(s, f) && LeaseSafe(Commit(s, f))
    ensures Released(s, f, CurrentLease(s, resource).value, resource)
  {
    hide Effective, CurrentLease, Canonical, Commit, Prepare, Consistent, Suppressor, Live;
    var p := CurrentLease(s, resource).value;
    var x := s.rows[p].proposition;
    CurrentIsNewestEqual(s, resource, p);
    ReleaseFrame(s, false, x, holder);
    KeywordsDiffer();
    LeasesAreCanonical(s, p);
    LeaseSafeUnderFrame(s, f);
    WithdrawalIsExact(s, f, x, p);
    var t := Commit(s, f);
    forall q: nat | LeaseRow(s, q) ensures Effective(t, q) <==> Effective(s, q) && q != p {
      EffectiveUnderFrame(s, f, q);
      EffectiveIsLive(s, q);
    }
    NoneLeft(s, f, resource, p);
  }

  lemma NoneLeft(s: Store, f: Frame, resource: Term, p: nat)
    requires LeaseSafe(s) && CurrentLease(s, resource) == Some(p) && OnlyLoses(s, Commit(s, f), Some(p))
    requires |f.operations| == 2 && f.operations[0].action.Retract? && !IsLease(f.operations[1].proposition)
    ensures CurrentLease(Commit(s, f), resource) == None
  {
    hide Effective, CurrentLease, Commit, LeaseSafe;
    var t := Commit(s, f);
    CommittedRows(s, f);
    forall q: nat | LeaseAt(t, q, resource) ensures !Effective(t, q) {
      if q < |s.rows| {
        assert t.rows[q] == s.rows[q];
        if Effective(s, q) {
          Uncontested(s, resource, q);
        }
      } else {
        assert t.rows[q] == RowsOf(f)[q - |s.rows|];
        EffectiveIsAsserted(t, q);
      }
    }
  }

  lemma EffectiveIsAsserted(s: Store, p: nat)
    ensures Effective(s, p) ==> p < |s.rows| && s.rows[p].action.Assert?
  {
  }
}
