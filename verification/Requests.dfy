/** What a commit request asks for, the checks made before anything is written, and the receipt. */
module Requests {
  import opened Bytes
  import opened Terms
  import opened Frames
  import opened TermStore
  import opened Coordinates

  datatype SourceOperation = SourceOperation(
    action: Action,
    proposition: Term,
    recordedAt: Option<Term>,
    assertedBy: Option<Term>,
    sourceFrame: Option<Term>,
    supersedes: Option<Term>)

  datatype Request = Request(
    operations: seq<SourceOperation>,
    base: Option<Term>,
    recordedAt: Option<Term>,
    actor: Option<Term>)

  function Plain(action: Action, proposition: Term): SourceOperation {
    SourceOperation(action, proposition, None, None, None, None)
  }

  /** Why a commit stops before anything is appended. */
  datatype Refusal =
    | RecoveryRequired
    | DatabaseCorrupt
    | InvalidBase
    | WrongSpace
    | Conflict
    | InvalidTransactionFrame
    | TornTailRepairRequired
    | InvalidOperation
    | InvalidInteger
    | InvalidInstant
    | InvalidCoordinate
    | UnknownOccurrence
    | NotAssertionOccurrence
    | OccurrenceNotLive
    | WithdrawalTargetNotCurrent
    | InvalidLeaseRequest
    | LeaseHeld
    | LeaseFenceMismatch
    | Rejected(reason: int)

  datatype Checked<+T> = Fine(value: T) | Refuse(refusal: Refusal) {
    predicate IsFailure() { Refuse? }

    function PropagateFailure<U>(): Checked<U>
      requires Refuse?
    {
      Refuse(refusal)
    }

    function Extract(): T
      requires Fine?
    {
      value
    }
  }

  /** Terms whose integers fit the durable form. */
  predicate Canonical(t: Term) {
    match t
    case Int(v) => IsI64(v)
    case Instant(s, _) => IsI64(s)
    case Triple(a, b, c) => Canonical(a) && Canonical(b) && Canonical(c)
    case _ => true
  }

  /** Every integer in a term: the integers themselves, and the seconds of its instants. */
  function Integers(t: Term): set<int> {
    match t
    case Int(v) => {v}
    case Instant(_, _) => {t.seconds}
    case Triple(_, _, _) => Integers(t.t1) + Integers(t.t2) + Integers(t.t3)
    case _ => {}
  }

  predicate FitI64(ns: set<int>) {
    forall n :: n in ns ==> -0x8000_0000_0000_0000 <= n <= 0x7FFF_FFFF_FFFF_FFFF
  }

  lemma FitTogether(a: set<int>, b: set<int>)
    ensures FitI64(a + b) <==> FitI64(a) && FitI64(b)
  {
    assert forall n :: n in a ==> n in a + b;
    assert forall n :: n in b ==> n in a + b;
  }

  lemma {:induction false} CanonicalIff(t: Term)
    ensures Canonical(t) <==> FitI64(Integers(t))
  {
    if t.Triple? {
      var a, b, c := Integers(t.t1), Integers(t.t2), Integers(t.t3);
      CanonicalIff(t.t1);
      CanonicalIff(t.t2);
      CanonicalIff(t.t3);
      FitTogether(a, b);
      FitTogether(a + b, c);
      hide FitI64;
    }
  }

  predicate CanonicalOption(t: Option<Term>) { t.Some? ==> Canonical(t.value) }

  function SourceOperations(operations: seq<SourceOperation>): (r: Checked<seq<Operation>>)
    ensures r.Fine? ==> |r.value| == |operations| && forall i :: 0 <= i < |operations| ==>
      r.value[i] == Operation(operations[i].action, operations[i].proposition)
  {
    if operations == [] then Fine([]) else
    var op := operations[0];
    if !op.proposition.Triple? then Refuse(InvalidOperation) else
    if !Canonical(op.proposition) then Refuse(InvalidInteger) else
    var rest :- SourceOperations(operations[1..]);
    Fine([Operation(op.action, op.proposition)] + rest)
  }

  function ReferenceFault(s: Store, coordinate: Option<Term>): Option<Refusal> {
    if coordinate.None? then None else
    if !IsOccurrenceCoordinate(coordinate.value) then Some(InvalidCoordinate) else
    if coordinate.value.t1.t1 != Text(s.space) then Some(WrongSpace) else
    if !Resolves(s, coordinate.value) then Some(UnknownOccurrence) else None
  }

  function MetadataFault(s: Store, op: SourceOperation): Option<Refusal> {
    if !CanonicalOption(op.recordedAt) || !CanonicalOption(op.assertedBy) || !CanonicalOption(op.sourceFrame)
    then Some(InvalidInteger) else
    match ReferenceFault(s, op.supersedes)
    case Some(refusal) => Some(refusal)
    case None =>
      if op.recordedAt.Some? && !op.recordedAt.value.Instant? then Some(InvalidInstant) else None
  }

  function Asserted(subject: Term, predicate_: Term, value: Option<Term>): seq<Operation> {
    if value.None? then [] else [Operation(Assert, Triple(subject, predicate_, value.value))]
  }

  /** The metadata assertions of one source operation, in their fixed predicate order. */
  function MetadataOf(source: Term, op: SourceOperation): seq<Operation> {
    Asserted(source, RECORDED_AT, op.recordedAt) + Asserted(source, ASSERTED_BY, op.assertedBy)
      + Asserted(source, SOURCE_FRAME, op.sourceFrame) + Asserted(source, SUPERSEDES, op.supersedes)
  }

  function SourceMetadata(s: Store, transaction: Term, operations: seq<SourceOperation>, i: nat): Checked<seq<Operation>>
    requires i <= |operations|
    decreases |operations| - i
  {
    if i == |operations| then Fine([]) else
    match MetadataFault(s, operations[i])
    case Some(refusal) => Refuse(refusal)
    case None =>
      var rest :- SourceMetadata(s, transaction, operations, i + 1);
      Fine(MetadataOf(OccurrenceCoordinate(transaction, i), operations[i]) + rest)
  }

  function TransactionMetadata(transaction: Term, request: Request): Checked<seq<Operation>> {
    if !CanonicalOption(request.recordedAt) || !CanonicalOption(request.actor) then Refuse(InvalidInteger) else
    if request.recordedAt.Some? && !request.recordedAt.value.Instant? then Refuse(InvalidInstant) else
    Fine(Asserted(transaction, RECORDED_AT, request.recordedAt) + Asserted(transaction, ASSERTED_BY, request.actor))
  }

  /** The frame a request commits on a ready store, or the reason it commits nothing. */
  function Prepare(s: Store, torn: bool, request: Request): (r: Checked<Frame>)
    ensures r.Fine? ==> r.value.sequence == s.next && r.value.operations != []
  {
    if request.base.Some? && !IsTransactionCoordinate(request.base.value) then Refuse(InvalidBase) else
    if request.base.Some? && request.base.value.t1 != Text(s.space) then Refuse(WrongSpace) else
    if request.base.Some? && request.base.value != TransactionCoordinate(s.space, s.Current()) then Refuse(Conflict) else
    if request.operations == [] then Refuse(InvalidTransactionFrame) else
    if torn then Refuse(TornTailRepairRequired) else
    var transaction := TransactionCoordinate(s.space, s.next);
    var source :- SourceOperations(request.operations);
    var late :- TransactionMetadata(transaction, request);
    var early :- SourceMetadata(s, transaction, request.operations, 0);
    Fine(Frame(s.next, source + (early + late)))
  }

  lemma {:induction false} SourceMetadataIsAboutTriples(s: Store, transaction: Term, operations: seq<SourceOperation>, i: nat)
    requires i <= |operations| && SourceMetadata(s, transaction, operations, i).Fine?
    ensures forall op :: op in SourceMetadata(s, transaction, operations, i).value ==>
      op.action.Assert? && op.proposition.Triple?
    decreases |operations| - i
  {
    if i < |operations| {
      SourceMetadataIsAboutTriples(s, transaction, operations, i + 1);
    }
  }

  lemma {:induction false} SourceOperationsAreTriples(operations: seq<SourceOperation>)
    requires SourceOperations(operations).Fine?
    ensures forall op :: op in SourceOperations(operations).value ==> op.proposition.Triple?
  {
    if operations != [] {
      SourceOperationsAreTriples(operations[1..]);
    }
  }

  /** A prepared frame always replays on the store it was prepared for. */
  lemma PreparedFrameReplays(s: Store, torn: bool, request: Request)
    requires s.next >= 1 && Prepare(s, torn, request).Fine?
    ensures ReplayFrame(s, Prepare(s, torn, request).value) == Ok(Commit(s, Prepare(s, torn, request).value))
  {
    var transaction := TransactionCoordinate(s.space, s.next);
    SourceOperationsAreTriples(request.operations);
    SourceMetadataIsAboutTriples(s, transaction, request.operations, 0);
  }

  // ----- what is refused, and what a frame says -----

  /** An operation the store records as it stands. */
  predicate AcceptedOperation(s: Store, op: SourceOperation) {
    && op.proposition.Triple? && Canonical(op.proposition)
    && CanonicalOption(op.recordedAt) && CanonicalOption(op.assertedBy) && CanonicalOption(op.sourceFrame)
    && (op.recordedAt.Some? ==> op.recordedAt.value.Instant?)
    && (op.supersedes.Some? ==> IsOccurrenceCoordinate(op.supersedes.value) && Resolves(s, op.supersedes.value))
  }

  predicate AcceptedRequest(s: Store, torn: bool, request: Request) {
    && (request.base.Some? ==> request.base.value == TransactionCoordinate(s.space, s.Current()))
    && request.operations != [] && !torn
    && (forall i :: 0 <= i < |request.operations| ==> AcceptedOperation(s, request.operations[i]))
    && CanonicalOption(request.recordedAt) && CanonicalOption(request.actor)
    && (request.recordedAt.Some? ==> request.recordedAt.value.Instant?)
  }

  lemma {:induction false} SourceOperationsFineIff(operations: seq<SourceOperation>)
    ensures SourceOperations(operations).Fine? <==>
      forall i :: 0 <= i < |operations| ==> operations[i].proposition.Triple? && Canonical(operations[i].proposition)
  {
    if operations != [] {
      SourceOperationsFineIff(operations[1..]);
      assert forall i :: 1 <= i < |operations| ==> operations[i] == operations[1..][i - 1];
      assert forall i :: 0 <= i < |operations| - 1 ==> operations[1..][i] == operations[i + 1];
    }
  }

  predicate MetadataIn(source: Term, op: SourceOperation, x: Operation) {
    || Says(source, RECORDED_AT, op.recordedAt, x) || Says(source, ASSERTED_BY, op.assertedBy, x)
    || Says(source, SOURCE_FRAME, op.sourceFrame, x) || Says(source, SUPERSEDES, op.supersedes, x)
  }

  predicate Says(source: Term, predicate_: Term, value: Option<Term>, x: Operation) {
    value.Some? && x == Operation(Assert, Triple(source, predicate_, value.value))
  }

  lemma {:induction false} SourceMetadataIsExact(s: Store, transaction: Term, operations: seq<SourceOperation>, from: nat)
    requires from <= |operations|
    ensures SourceMetadata(s, transaction, operations, from).Fine? <==>
      forall i :: from <= i < |operations| ==> MetadataFault(s, operations[i]).None?
    ensures SourceMetadata(s, transaction, operations, from).Fine? ==>
      forall x :: x in SourceMetadata(s, transaction, operations, from).value <==>
        exists i: nat :: from <= i < |operations| && MetadataIn(OccurrenceCoordinate(transaction, i), operations[i], x)
    decreases |operations| - from
  {
    hide MetadataFault, MetadataIn, MetadataOf;
    if from < |operations| {
      SourceMetadataIsExact(s, transaction, operations, from + 1);
      MetadataOfIsExact(OccurrenceCoordinate(transaction, from), operations[from]);
    }
  }

  lemma MetadataOfIsExact(source: Term, op: SourceOperation)
    ensures forall x :: x in MetadataOf(source, op) <==> MetadataIn(source, op, x)
  {
  }

  lemma ResolvedInSpace(s: Store, coordinate: Term)
    requires Resolves(s, coordinate)
    ensures coordinate.Triple? && coordinate.t1.Triple? && coordinate.t1.t1 == Text(s.space)
  {
  }

  /** A request is refused exactly when its base is not the current transaction, it has no operation, the
      log's tail is torn, or some operation or metadatum is not one the store can record. */
  lemma PrepareAcceptsIff(s: Store, torn: bool, request: Request)
    requires s.space != [] && s.next >= 1
    ensures Prepare(s, torn, request).Fine? <==> AcceptedRequest(s, torn, request)
  {
    hide SourceMetadata, SourceOperations, Resolves;
    SourceOperationsFineIff(request.operations);
    SourceMetadataIsExact(s, TransactionCoordinate(s.space, s.next), request.operations, 0);
    forall c | Resolves(s, c) ensures c.Triple? && c.t1.Triple? && c.t1.t1 == Text(s.space) {
      ResolvedInSpace(s, c);
    }
  }

  /** The frame says what was asked, in order, and after it exactly the metadata that was asked for: about
      the coordinate each operation is about to get, and about the transaction. */
  lemma PreparedFrameSays(s: Store, torn: bool, request: Request)
    requires Prepare(s, torn, request).Fine?
    ensures var f, n, transaction := Prepare(s, torn, request).value, |request.operations|, TransactionCoordinate(s.space, s.next);
      && n <= |f.operations|
      && (forall i :: 0 <= i < n ==>
            f.operations[i] == Operation(request.operations[i].action, request.operations[i].proposition))
      && (forall x :: x in f.operations[n..] <==>
            || Says(transaction, RECORDED_AT, request.recordedAt, x) || Says(transaction, ASSERTED_BY, request.actor, x)
            || exists i: nat :: i < n && MetadataIn(OccurrenceCoordinate(transaction, i), request.operations[i], x))
  {
    hide SourceMetadata, SourceOperations, MetadataIn;
    var transaction := TransactionCoordinate(s.space, s.next);
    SourceMetadataIsExact(s, transaction, request.operations, 0);
    var source := SourceOperations(request.operations).value;
    var early, late := SourceMetadata(s, transaction, request.operations, 0).value, TransactionMetadata(transaction, request).value;
    assert (source + (early + late))[|source|..] == early + late;
  }

  // ----- receipts -----

  datatype Occurrence = Occurrence(coordinate: Term, action: Action, proposition: Term)

  datatype Receipt = Receipt(
    transaction: Term,
    occurrences: seq<Occurrence>,
    withdrawals: seq<(Term, Term)>,
    count: nat)

  function OccurrencesFrom(s: Store, lo: nat, hi: nat): (r: seq<Occurrence>)
    requires lo <= hi <= |s.rows|
    ensures |r| == hi - lo
  {
    seq(hi - lo, i requires 0 <= i < hi - lo =>
      Occurrence(CoordinateAt(s, lo + i), s.rows[lo + i].action, s.rows[lo + i].proposition))
  }

  /** The (retraction, assertion) pairs whose retraction lies from `lo` up to `hi`. */
  function WithdrawalsFrom(s: Store, lo: nat, hi: nat): seq<(Term, Term)>
    requires lo <= hi <= |s.rows| == |s.targets|
    decreases hi
  {
    if lo == hi then [] else
    WithdrawalsFrom(s, lo, hi - 1) + (
      if s.targets[hi - 1].Some? && s.targets[hi - 1].value < |s.rows|
      then [(CoordinateAt(s, hi - 1), CoordinateAt(s, s.targets[hi - 1].value))] else [])
  }

  /** The receipt of a frame with `source` source operations committed on `before`. */
  function ReceiptOf(before: Store, after: Store, f: Frame, source: nat): Receipt {
    var lo, hi := |before.rows|, |before.rows| + source;
    Receipt(
      TransactionCoordinate(after.space, f.sequence),
      if hi <= |after.rows| then OccurrencesFrom(after, lo, hi) else [],
      if hi <= |after.rows| == |after.targets| then WithdrawalsFrom(after, lo, hi) else [],
      |f.operations|)
  }

  /** A receipt reports a withdrawal exactly when one of its retractions has a target. */
  lemma {:induction false} WithdrawalsAreReported(s: Store, lo: nat, hi: nat, pair: (Term, Term))
    requires lo <= hi <= |s.rows| == |s.targets|
    ensures pair in WithdrawalsFrom(s, lo, hi) <==> exists q: nat :: lo <= q < hi && Reports(s, q, pair)
    decreases hi
  {
    hide CoordinateAt;
    if lo < hi {
      WithdrawalsAreReported(s, lo, hi - 1, pair);
      var before, q := WithdrawalsFrom(s, lo, hi - 1), hi - 1;
      if s.targets[q].Some? && s.targets[q].value < |s.rows| {
        var last := (CoordinateAt(s, q), CoordinateAt(s, s.targets[q].value));
        assert WithdrawalsFrom(s, lo, hi) == before + [last];
        assert pair == last <==> Reports(s, q, pair);
      } else {
        assert WithdrawalsFrom(s, lo, hi) == before + [];
      }
    }
  }

  predicate Reports(s: Store, q: nat, pair: (Term, Term)) {
    && q < |s.rows| && q < |s.targets| && s.targets[q].Some? && s.targets[q].value < |s.rows|
    && pair == (CoordinateAt(s, q), CoordinateAt(s, s.targets[q].value))
  }
}
