/** What a commit and a cohort answer: when they commit, and what their receipts say. */
module Receipts {
  import opened Bytes
  import opened Terms
  import opened Frames
  import opened FrameLog
  import opened RoundTrip
  import opened TermStore
  import opened Coordinates
  import opened Requests
  import opened Durability
  import opened Fence
  import opened GroupCommit
  import opened Leases
  import opened LeaseSafety
  import opened LeaseFencing
  import opened LeaseRuns

  // ----- receipts -----

  /** `positions` are, in order, the rows from `lo` up to `hi` that withdraw an assertion. */
  ghost predicate Withdrawing(t: Store, lo: nat, hi: nat, positions: seq<nat>) {
    && Ascending(positions)
    && forall q: nat :: q in positions <==> lo <= q < hi && q < |t.targets| && t.targets[q].Some?
  }

  /** Each withdrawal names its retraction and the assertion that retraction withdrew. */
  ghost predicate Names(t: Store, positions: seq<nat>, withdrawals: seq<(Term, Term)>) {
    |withdrawals| == |positions| && forall i :: 0 <= i < |positions| ==> Reports(t, positions[i], withdrawals[i])
  }

  predicate Records(x: Occurrence, transaction: Term, ordinal: nat, op: SourceOperation) {
    x == Occurrence(OccurrenceCoordinate(transaction, ordinal), op.action, op.proposition)
  }

  /** A receipt tells everything the request did to the store: its transaction, the occurrences its operations
      became, in order, every assertion they withdrew, once each, and how many rows were added. */
  ghost predicate Tells(s: Store, t: Store, request: Request, r: Receipt) {
    && r.transaction == TransactionCoordinate(s.space, s.next)
    && |r.occurrences| == |request.operations|
    && (forall i: nat :: i < |r.occurrences| ==> Records(r.occurrences[i], r.transaction, i, request.operations[i]))
    && (exists positions :: Withdrawing(t, |s.rows|, |s.rows| + |request.operations|, positions) && Names(t, positions, r.withdrawals))
    && |t.rows| == |s.rows| + r.count
  }

  /** So a pair is reported exactly when one of the request's own rows withdrew it. */
  lemma ReportedIff(s: Store, t: Store, request: Request, r: Receipt, pair: (Term, Term))
    requires Tells(s, t, request, r) && Consistent(t) && |s.rows| + |request.operations| <= |t.rows|
    ensures pair in r.withdrawals <==>
      exists q: nat :: |s.rows| <= q < |s.rows| + |request.operations| && Reports(t, q, pair)
  {
    hide Consistent;
    var lo, hi := |s.rows|, |s.rows| + |request.operations|;
    var positions :| Withdrawing(t, lo, hi, positions) && Names(t, positions, r.withdrawals);
    if pair in r.withdrawals {
      var i :| 0 <= i < |positions| && r.withdrawals[i] == pair;
      assert positions[i] in positions;
    }
    if q: nat :| lo <= q < hi && Reports(t, q, pair) {
      assert q in positions;
      var i :| 0 <= i < |positions| && positions[i] == q;
      assert r.withdrawals[i] == pair;
    }
  }

  lemma TargetsAreRows(s: Store)
    requires Consistent(s)
    ensures |s.targets| == |s.rows|
    ensures forall q :: 0 <= q < |s.targets| && s.targets[q].Some? ==> s.targets[q].value < |s.rows|
  {
    forall q | 0 <= q < |s.targets| && s.targets[q].Some? ensures s.targets[q].value < |s.rows| {
      StackOfMeetsSpec(s.rows[..q], s.rows[q].proposition);
      var stack := StackOf(s.rows[..q], s.rows[q].proposition);
      assert IsLayer(s.rows[..q], s.rows[q].proposition, stack[|stack| - 1], 0);
    }
  }

  lemma {:induction false} WithdrawalsListed(t: Store, lo: nat, hi: nat) returns (positions: seq<nat>)
    requires lo <= hi <= |t.rows| == |t.targets|
    requires forall q :: 0 <= q < |t.targets| && t.targets[q].Some? ==> t.targets[q].value < |t.rows|
    ensures Withdrawing(t, lo, hi, positions) && Names(t, positions, WithdrawalsFrom(t, lo, hi))
    decreases hi
  {
    hide Withdrawing, CoordinateAt, Names;
    if lo == hi {
      positions := [];
      NoneListed(t, lo);
    } else {
      var q := hi - 1;
      var before := WithdrawalsListed(t, lo, q);
      positions := if t.targets[q].Some? then before + [q] else before;
      OneMoreListed(t, lo, hi, before, positions);
      OneMoreNamed(t, before, WithdrawalsFrom(t, lo, q), q);
    }
  }

  lemma NoneListed(t: Store, lo: nat)
    ensures Withdrawing(t, lo, lo, []) && Names(t, [], [])
  {
  }

  lemma OneMoreNamed(t: Store, before: seq<nat>, named: seq<(Term, Term)>, q: nat)
    requires Names(t, before, named) && q < |t.rows| == |t.targets|
    requires t.targets[q].Some? ==> t.targets[q].value < |t.rows|
    ensures t.targets[q].Some? ==>
      Names(t, before + [q], named + [(CoordinateAt(t, q), CoordinateAt(t, t.targets[q].value))])
    ensures Names(t, before, named + [])
  {
    hide CoordinateAt;
    assert named + [] == named;
  }

  lemma OneMoreListed(t: Store, lo: nat, hi: nat, before: seq<nat>, positions: seq<nat>)
    requires lo < hi <= |t.rows| == |t.targets| && Withdrawing(t, lo, hi - 1, before)
    requires positions == if t.targets[hi - 1].Some? then before + [hi - 1] else before
    ensures Withdrawing(t, lo, hi, positions)
  {
    forall i | 0 <= i < |before| ensures before[i] < hi - 1 {
      assert before[i] in before;
    }
    forall q: nat ensures q in positions <==> q in before || (q == hi - 1 && t.targets[hi - 1].Some?) {}
  }

  lemma OccurrencesTell(s: Store, f: Frame, request: Request)
    requires f.sequence == s.next && |request.operations| <= |f.operations|
    requires forall i :: 0 <= i < |request.operations| ==>
      f.operations[i] == Operation(request.operations[i].action, request.operations[i].proposition)
    ensures var n, t := |request.operations|, Commit(s, f);
      && |s.rows| + n <= |t.rows| && |t.rows| == |s.rows| + |f.operations|
      && forall i: nat :: i < n ==>
           Records(OccurrencesFrom(t, |s.rows|, |s.rows| + n)[i], TransactionCoordinate(s.space, s.next), i, request.operations[i])
  {
    hide Commit;
    CommittedRows(s, f);
    var t, lo := Commit(s, f), |s.rows|;
    forall i: nat | i < |request.operations|
      ensures Records(OccurrencesFrom(t, lo, lo + |request.operations|)[i],
                TransactionCoordinate(s.space, s.next), i, request.operations[i])
    {
      assert t.rows[lo + i] == RowsOf(f)[i];
    }
  }

  /** The receipt of a committed request tells it all. */
  lemma CommittedTells(s: Store, torn: bool, request: Request)
    requires Consistent(s) && Prepare(s, torn, request).Fine?
    ensures var f := Prepare(s, torn, request).value;
      Tells(s, Commit(s, f), request, ReceiptOf(s, Commit(s, f), f, |request.operations|))
  {
    hide Consistent, Commit, Prepare, WithdrawalsFrom, OccurrencesFrom, MetadataIn, Says, Withdrawing, Names, Records, RowsOf;
    var f, n := Prepare(s, torn, request).value, |request.operations|;
    PreparedFrameSays(s, torn, request);
    PreparedIsNext(s, torn, request);
    OccurrencesTell(s, f, request);
    CommittedRows(s, f);
    CommitConsistent(s, f);
    var t, lo := Commit(s, f), |s.rows|;
    TargetsAreRows(t);
    var positions := WithdrawalsListed(t, lo, lo + n);
  }

  // ----- one commit -----

  /** The frame of an accepted request can be written, or there is no log to write it to. */
  predicate Recordable(h: Host, db: Db, request: Request, fault: Option<nat>) {
    && Prepare(db.store, db.torn.Some?, request).Fine?
    && (db.log.Some? ==> fault.None? && Writable(h, Prepare(db.store, db.torn.Some?, request).value, db.deflate))
  }

  lemma OneFrameAppends(h: Host, b: Octets, f: Frame, deflate: bool, fault: Option<nat>)
    ensures Append(h, b, [f], deflate, fault).ok <==> fault.None? && Writable(h, f, deflate)
    ensures fault.None? && Writable(h, f, deflate) ==> Append(h, b, [f], deflate, fault).disk == b + EncodeFrame(h, f, deflate)
  {
    hide Writable, EncodeFrame;
    assert [f][1..] == [];
    if Writable(h, f, deflate) {
      SingleFrame(h, f, deflate);
      assert WritablePrefix(h, [f], deflate) == [f] + [];
      assert [f] + [] == [f];
    }
  }

  /** A commit is refused, changing nothing, exactly when the database is not ready or the request is not one
      the store accepts. It commits exactly when its frame is recorded too, and then the log gains exactly that
      frame and the receipt tells what changed. Otherwise it is ambiguous, and the database is fenced. */
  lemma CommitAnswers(h: Host, db: Db, request: Request, fault: Option<nat>)
    requires Consistent(db.store) && db.store.space != [] && db.store.next >= 1
    ensures var (after, r) := CommitStep(h, db, request, fault);
      var accepted := db.status.Ready? && AcceptedRequest(db.store, db.torn.Some?, request);
      && (r.Refused? <==> !accepted)
      && (r.Refused? ==> after == db)
      && (r.Refused? && db.status.Ready? ==> Prepare(db.store, db.torn.Some?, request) == Refuse(r.refusal))
      && (r.Committed? <==> accepted && Recordable(h, db, request, fault))
      && (r.Committed? ==> Tells(db.store, after.store, request, r.receipt) && Gained(h, db, after, request))
      && (r.Ambiguous? ==> after.status == r.status && after.status != Ready)
  {
    hide Commit, ReceiptOf, ParseLog, FenceAndReconcile, Append, Tells, Consistent, AcceptedRequest, Prepare, Writable, EncodeFrame;
    PrepareAcceptsIff(db.store, db.torn.Some?, request);
    if Prepare(db.store, db.torn.Some?, request).Fine? {
      CommittedTells(db.store, db.torn.Some?, request);
      PreparedFrameReplays(db.store, db.torn.Some?, request);
      var f := Prepare(db.store, db.torn.Some?, request).value;
      if db.log.Some? {
        OneFrameAppends(h, db.log.value, f, db.deflate, fault);
        FencedIsNotReady(h, db.(log := Some(Append(h, db.log.value, [f], db.deflate, fault).disk)));
      }
    }
  }

  lemma FencedIsNotReady(h: Host, db: Db)
    ensures FenceAndReconcile(h, db).status != Ready
  {
    hide ParseLog, ReplayAll;
  }

  /** Only the store and the log have changed: by the request's frame. */
  ghost predicate Gained(h: Host, db: Db, after: Db, request: Request) {
    && Prepare(db.store, db.torn.Some?, request).Fine?
    && var f := Prepare(db.store, db.torn.Some?, request).value;
    && after == db.(store := after.store, log := after.log)
    && ReplayFrame(db.store, f) == Ok(after.store)
    && (db.log.None? ==> after.log.None?)
    && (db.log.Some? ==> Writable(h, f, db.deflate) && after.log == Some(db.log.value + EncodeFrame(h, f, db.deflate)))
  }

  /** The transaction a receipt names is the one the next request may give as its base, and no other is. */
  lemma NextBaseIsReceipts(h: Host, db: Db, request: Request, fault: Option<nat>, next: Request, torn: bool)
    requires Consistent(db.store) && db.store.space != [] && db.store.next >= 1
    requires CommitStep(h, db, request, fault).1.Committed? && next.base.Some?
    ensures var (after, r) := CommitStep(h, db, request, fault);
      Prepare(after.store, torn, next).Fine? ==> next.base.value == r.receipt.transaction
    ensures var (after, r) := CommitStep(h, db, request, fault);
      next.base.value == r.receipt.transaction && AcceptedRequest(after.store, torn, next.(base := None)) ==>
        Prepare(after.store, torn, next).Fine?
  {
    hide Commit, ReceiptOf, ParseLog, FenceAndReconcile, Append, Consistent, Prepare, Writable, EncodeFrame, CommitStep, AcceptedOperation;
    CommitAnswers(h, db, request, fault);
    var (after, r) := CommitStep(h, db, request, fault);
    var f := Prepare(db.store, db.torn.Some?, request).value;
    CommitFacts(db.store, f);
    SequenceIsNext(db.store, db.torn.Some?, request);
    PrepareAcceptsIff(after.store, torn, next);
  }

  lemma SequenceIsNext(s: Store, torn: bool, request: Request)
    requires Prepare(s, torn, request).Fine?
    ensures Prepare(s, torn, request).value.sequence == s.next
  {
  }

  /** After any history the current transaction is the last frame's, and 0 before there is any. */
  lemma CurrentIsLast(space: Octets, fs: seq<Frame>)
    requires ReplayAll(NewStore(space), fs).Ok?
    ensures ReplayAll(NewStore(space), fs).value.Current() == if fs == [] then 0 else fs[|fs| - 1].sequence
  {
    hide Commit;
    if fs != [] {
      CommitFacts(ReplayAll(NewStore(space), fs[..|fs| - 1]).value, fs[|fs| - 1]);
    }
  }

  /** Why a database that is not ready refuses. */
  lemma NotReadyBecause(h: Host, db: Db, request: Request, fault: Option<nat>)
    ensures db.status.Fenced? ==> CommitStep(h, db, request, fault) == (db, Refused(RecoveryRequired))
    ensures db.status.Corrupt? ==> CommitStep(h, db, request, fault) == (db, Refused(DatabaseCorrupt))
  {
  }

  // ----- why a request is refused -----

  /** The base names a transaction of this store, and the current one. */
  predicate BaseHolds(s: Store, base: Option<Term>) {
    base.Some? ==> base.value == TransactionCoordinate(s.space, s.Current())
  }

  /** An operation about a triple whose numbers the store can hold. */
  predicate Holdable(op: SourceOperation) {
    op.proposition.Triple? && Canonical(op.proposition)
  }

  lemma {:induction false} SourceRefuses(operations: seq<SourceOperation>, i: nat)
    requires i < |operations| && !Holdable(operations[i]) && forall j :: 0 <= j < i ==> Holdable(operations[j])
    ensures SourceOperations(operations) == Refuse(if operations[i].proposition.Triple? then InvalidInteger else InvalidOperation)
  {
    hide Canonical;
    if i > 0 {
      SourceRefuses(operations[1..], i - 1);
    }
  }

  lemma {:induction false} MetadataRefuses(s: Store, transaction: Term, operations: seq<SourceOperation>, from: nat, i: nat)
    requires from <= i < |operations| && MetadataFault(s, operations[i]).Some?
    requires forall j :: from <= j < i ==> MetadataFault(s, operations[j]).None?
    ensures SourceMetadata(s, transaction, operations, from) == Refuse(MetadataFault(s, operations[i]).value)
    decreases i - from
  {
    hide MetadataFault;
    if from < i {
      MetadataRefuses(s, transaction, operations, from + 1, i);
    }
  }

  /** What is wrong with the base, or with the request as a whole, before its operations are looked at. */
  lemma RequestRefused(s: Store, torn: bool, request: Request)
    ensures request.base.Some? ==> BaseRefused(s, request.base.value, Prepare(s, torn, request))
    ensures BaseHolds(s, request.base) && s.space != [] && s.next >= 1 ==> WholeRefused(torn, request, Prepare(s, torn, request))
  {
  }

  ghost predicate BaseRefused(s: Store, base: Term, r: Checked<Frame>) {
    && (!IsTransactionCoordinate(base) ==> r == Refuse(InvalidBase))
    && (IsTransactionCoordinate(base) && base.t1 != Text(s.space) ==> r == Refuse(WrongSpace))
    && (IsTransactionCoordinate(base) && base.t1 == Text(s.space) && !BaseHolds(s, Some(base)) ==> r == Refuse(Conflict))
  }

  ghost predicate WholeRefused(torn: bool, request: Request, r: Checked<Frame>) {
    && (request.operations == [] ==> r == Refuse(InvalidTransactionFrame))
    && (request.operations != [] && torn ==> r == Refuse(TornTailRepairRequired))
  }

  /** Otherwise the first operation that is not about a triple the store can hold decides. */
  lemma OperationRefused(s: Store, request: Request, i: nat)
    requires s.space != [] && s.next >= 1 && BaseHolds(s, request.base) && i < |request.operations|
    requires !Holdable(request.operations[i]) && forall j :: 0 <= j < i ==> Holdable(request.operations[j])
    ensures Prepare(s, false, request)
      == Refuse(if request.operations[i].proposition.Triple? then InvalidInteger else InvalidOperation)
  {
    hide SourceOperations, Canonical;
    SourceRefuses(request.operations, i);
  }

  predicate NumbersHold(op: SourceOperation) {
    CanonicalOption(op.recordedAt) && CanonicalOption(op.assertedBy) && CanonicalOption(op.sourceFrame)
  }

  /** Why what is said of an operation cannot be recorded. */
  ghost predicate Unattested(s: Store, op: SourceOperation, r: Refusal) {
    if !NumbersHold(op) then r == InvalidInteger else
    if op.supersedes.Some? && !IsOccurrenceCoordinate(op.supersedes.value) then r == InvalidCoordinate else
    if op.supersedes.Some? && op.supersedes.value.t1.t1 != Text(s.space) then r == WrongSpace else
    if op.supersedes.Some? && !Resolves(s, op.supersedes.value) then r == UnknownOccurrence else r == InvalidInstant
  }

  lemma MetadataFaultBecause(s: Store, op: SourceOperation)
    requires Holdable(op)
    ensures MetadataFault(s, op).None? <==> AcceptedOperation(s, op)
    ensures MetadataFault(s, op).Some? ==> Unattested(s, op, MetadataFault(s, op).value)
  {
    hide Canonical, Resolves;
    if op.supersedes.Some? && Resolves(s, op.supersedes.value) {
      ResolvedInSpace(s, op.supersedes.value);
    }
  }

  /** Then what is said of the transaction; then the first operation whose metadata cannot be recorded. */
  lemma MetadataRefused(s: Store, request: Request, i: nat)
    requires s.space != [] && s.next >= 1 && BaseHolds(s, request.base) && i < |request.operations|
    requires forall j :: 0 <= j < |request.operations| ==> Holdable(request.operations[j])
    ensures var r := Prepare(s, false, request);
      if !CanonicalOption(request.recordedAt) || !CanonicalOption(request.actor) then r == Refuse(InvalidInteger) else
      if request.recordedAt.Some? && !request.recordedAt.value.Instant? then r == Refuse(InvalidInstant) else
      FirstUnattested(s, request, i) ==> r.Refuse? && Unattested(s, request.operations[i], r.refusal)
  {
    hide SourceOperations, SourceMetadata, Canonical, MetadataFault, AcceptedOperation, Unattested;
    SourceOperationsFineIff(request.operations);
    if FirstUnattested(s, request, i) {
      forall j | 0 <= j <= i
        ensures MetadataFault(s, request.operations[j]).None? <==> AcceptedOperation(s, request.operations[j])
      {
        MetadataFaultBecause(s, request.operations[j]);
      }
      MetadataFaultBecause(s, request.operations[i]);
      MetadataRefuses(s, TransactionCoordinate(s.space, s.next), request.operations, 0, i);
    }
  }

  ghost predicate FirstUnattested(s: Store, request: Request, i: nat)
    requires i < |request.operations|
  {
    !AcceptedOperation(s, request.operations[i]) && forall j :: 0 <= j < i ==> AcceptedOperation(s, request.operations[j])
  }

  // ----- cohorts -----

  /** The private root before mutation `i`, and after the last. */
  function RootBefore(db: Db, mutations: seq<Mutation>, i: nat): Store
    requires i <= |mutations|
  {
    RunScratch(db.store, db.torn.Some?, mutations[..i]).store
  }

  /** What mutation `i` of a cohort is told. */
  ghost predicate Answered(db: Db, mutations: seq<Mutation>, i: nat, x: Outcome)
    requires i < |mutations|
  {
    var s, t := RootBefore(db, mutations, i), RootBefore(db, mutations, i + 1);
    && x.version == t.Current()
    && (match mutations[i](s)
        case Reject(refusal) => x.result == Refused(refusal) && t == s
        case Submit(request) =>
          if AcceptedRequest(s, db.torn.Some?, request) then x.result.Committed? && Tells(s, t, request, x.result.receipt)
          else Prepare(s, db.torn.Some?, request).Refuse? && x.result == Refused(Prepare(s, db.torn.Some?, request).refusal) && t == s)
  }

  lemma {:induction false} ScratchAnswers(db: Db, mutations: seq<Mutation>, i: nat)
    requires i < |mutations| && Consistent(db.store) && db.store.space != [] && db.store.next >= 1
    ensures var outcomes := RunScratch(db.store, db.torn.Some?, mutations).outcomes;
      |outcomes| == |mutations| && Answered(db, mutations, i, outcomes[i])
    decreases |mutations|
  {
    hide Consistent, Prepare, Commit, ReceiptOf, Tells, AcceptedRequest;
    var n, torn := |mutations| - 1, db.torn.Some?;
    var before := RunScratch(db.store, torn, mutations[..n]);
    RootIsSound(db.store, torn, mutations[..n]);
    StepAnswers(before, torn, mutations[n]);
    hide ScratchStep;
    if i < n {
      ScratchAnswers(db, mutations[..n], i);
      assert mutations[..n][..i] == mutations[..i] && mutations[..n][..i + 1] == mutations[..i + 1];
    } else {
      assert mutations[..i + 1] == mutations;
    }
  }

  lemma StepAnswers(s: Scratch, torn: bool, mutation: Mutation)
    requires Consistent(s.store) && s.store.space != [] && s.store.next >= 1
    ensures var t := ScratchStep(s, torn, mutation);
      && t.outcomes == s.outcomes + [t.outcomes[|t.outcomes| - 1]]
      && var x := t.outcomes[|t.outcomes| - 1];
      && x.version == t.store.Current()
      && (match mutation(s.store)
          case Reject(refusal) => x.result == Refused(refusal) && t.store == s.store
          case Submit(request) =>
            if AcceptedRequest(s.store, torn, request) then x.result.Committed? && Tells(s.store, t.store, request, x.result.receipt)
            else Prepare(s.store, torn, request).Refuse? && x.result == Refused(Prepare(s.store, torn, request).refusal) && t.store == s.store)
  {
    hide Consistent, Prepare, Commit, ReceiptOf, Tells, AcceptedRequest;
    match mutation(s.store)
    case Reject(_) =>
    case Submit(request) =>
      PrepareAcceptsIff(s.store, torn, request);
      if Prepare(s.store, torn, request).Fine? {
        CommittedTells(s.store, torn, request);
      }
  }

  lemma {:induction false} RootIsSound(store: Store, torn: bool, mutations: seq<Mutation>)
    requires Consistent(store) && store.space != [] && store.next >= 1
    ensures var t := RunScratch(store, torn, mutations).store; Consistent(t) && t.space != [] && t.next >= 1
  {
    hide Consistent, ScratchStep, ReplayAll;
    ScratchReplays(store, torn, mutations);
    ReplayConsistent(store, RunScratch(store, torn, mutations).frames);
  }

  lemma AppendsIff(h: Host, b: Octets, frames: seq<Frame>, deflate: bool, fault: Option<nat>)
    ensures Append(h, b, frames, deflate, fault).ok <==> fault.None? && AllWritable(h, frames, deflate)
    ensures fault.None? && AllWritable(h, frames, deflate) ==>
      Append(h, b, frames, deflate, fault).disk == b + EncodeFrames(h, frames, deflate)
  {
    hide Writable, EncodeFrames;
    if AllWritable(h, frames, deflate) {
      WholePrefix(h, frames, deflate);
    }
  }

  /** The frames the mutations of a cohort asked for, in order. */
  function FramesOf(db: Db, mutations: seq<Mutation>): seq<Frame> {
    RunScratch(db.store, db.torn.Some?, mutations).frames
  }

  /** A published cohort: memory is its last private root, the log has gained exactly its frames, and each
      mutation has been told, in order, what a commit on the root it met tells. */
  ghost predicate PublishedWhole(h: Host, db: Db, mutations: seq<Mutation>, after: Db, outcomes: seq<Outcome>, frames: nat) {
    && after == db.(store := RootBefore(db, mutations, |mutations|), log := after.log)
    && ReplayAll(db.store, FramesOf(db, mutations)) == Ok(after.store)
    && (db.log.None? ==> after.log.None?)
    && (db.log.Some? ==> AllWritable(h, FramesOf(db, mutations), db.deflate))
    && (db.log.Some? ==> after.log == Some(db.log.value + EncodeFrames(h, FramesOf(db, mutations), db.deflate)))
    && frames == |FramesOf(db, mutations)| && |outcomes| == |mutations|
    && forall i: nat :: i < |mutations| ==> Answered(db, mutations, i, outcomes[i])
  }

  predicate Recorded(h: Host, frames: seq<Frame>, deflate: bool, fault: Option<nat>) {
    fault.None? && AllWritable(h, frames, deflate)
  }

  /** A cohort is refused, changing nothing, exactly when the database is not ready. It is published exactly when
      its frames are recorded too. Otherwise it is ambiguous, and the database is fenced. */
  lemma CohortAnswers(h: Host, db: Db, mutations: seq<Mutation>, fault: Option<nat>)
    requires Consistent(db.store) && db.store.space != [] && db.store.next >= 1
    ensures var (after, r) := CohortStep(h, db, mutations, fault);
      var frames := FramesOf(db, mutations);
      && (r.CohortRefused? <==> !db.status.Ready?)
      && (r.CohortRefused? ==> after == db)
      && (r.Published? <==> db.status.Ready? && (frames == [] || db.log.None? || Recorded(h, frames, db.deflate, fault)))
      && (r.Published? ==> PublishedWhole(h, db, mutations, after, r.outcomes, r.frames))
      && (r.CohortAmbiguous? ==> after.status == r.status && after.status != Ready)
  {
    hide Consistent, RunScratch, Answered, FenceAndReconcile, Append, EncodeFrames, AllWritable, ReplayAll;
    var s := RunScratch(db.store, db.torn.Some?, mutations);
    forall i: nat | i < |mutations| ensures Answered(db, mutations, i, s.outcomes[i]) {
      ScratchAnswers(db, mutations, i);
    }
    assert mutations[..|mutations|] == mutations;
    ScratchReplays(db.store, db.torn.Some?, mutations);
    NothingAppended(h, db);
    if db.log.Some? {
      AppendsIff(h, db.log.value, s.frames, db.deflate, fault);
      FencedIsNotReady(h, db.(log := Some(Append(h, db.log.value, s.frames, db.deflate, fault).disk)));
    }
  }

  lemma NothingAppended(h: Host, db: Db)
    ensures ReplayAll(db.store, []) == Ok(db.store) && AllWritable(h, [], db.deflate)
    ensures db.log.Some? ==> db.log.value + EncodeFrames(h, [], db.deflate) == db.log.value
  {
  }
}
