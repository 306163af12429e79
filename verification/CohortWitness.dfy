/** A cohort that does more than it reports. */
module CohortWitness {
  import opened Bytes
  import opened Terms
  import opened Frames
  import opened FrameLog
  import opened TermStore
  import opened Coordinates
  import opened Requests
  import opened Durability
  import opened Fence
  import opened GroupCommit

  /** A term nested `n` deep. */
  function Nested(n: nat): Term {
    if n == 0 then Int(0) else Triple(Nested(n - 1), Int(0), Int(0))
  }

  lemma {:induction false} NestedDepth(n: nat)
    ensures Depth(Nested(n)) == n && Canonical(Nested(n)) && (n > 0 ==> Nested(n).Triple?)
  {
    if n > 0 {
      NestedDepth(n - 1);
    }
  }

  /** Asserts a term and nothing more. */
  function Asserting(x: Term): Request {
    Request([Plain(Assert, x)], None, None, None)
  }

  function AsMutation(request: Request): Mutation {
    s => Submit(request)
  }

  lemma AssertingPrepares(s: Store, x: Term)
    requires x.Triple? && Canonical(x)
    ensures Prepare(s, false, Asserting(x)) == Fine(Frame(s.next, [Operation(Assert, x)]))
  {
    hide Canonical;
    var request, transaction := Asserting(x), TransactionCoordinate(s.space, s.next);
    assert request.operations[1..] == [];
    assert SourceOperations(request.operations) == Fine([Operation(Assert, x)] + []);
    assert MetadataFault(s, request.operations[0]) == None;
    assert SourceMetadata(s, transaction, request.operations, 1) == Fine([]);
    assert MetadataOf(OccurrenceCoordinate(transaction, 0), request.operations[0]) == [];
    var none: seq<Operation> := [];
    assert none + none == none;
    assert SourceMetadata(s, transaction, request.operations, 0) == Fine(none);
    assert TransactionMetadata(transaction, request) == Fine(none);
    assert [Operation(Assert, x)] + none + (none + none) == [Operation(Assert, x)];
  }

  /** One triple of numbers always fits a frame. */
  lemma ShallowIsWritable(h: Host, sequence: int)
    requires 0 <= sequence <= I64_MAX
    ensures Writable(h, Frame(sequence, [Operation(Assert, Nested(1))]), false)
  {
    var f, x := Frame(sequence, [Operation(Assert, Nested(1))]), Nested(1);
    NestedDepth(1);
    assert x == Triple(Int(0), Int(0), Int(0)) && Encodable(h, x);
    assert |EncodeTerm(h, Int(0))| == 9;
    assert |EncodeTerm(h, x)| == 28;
    assert |EncodeOperations(h, f.operations, 1)| == 0;
    assert |EncodeOperations(h, f.operations, 0)| == 33;
  }

  lemma DeepIsNotWritable(h: Host, sequence: int, n: nat, deflate: bool)
    requires n > MAX_TERM_DEPTH
    ensures !Writable(h, Frame(sequence, [Operation(Assert, Nested(n))]), deflate)
  {
    NestedDepth(n);
    assert Operation(Assert, Nested(n)) in Frame(sequence, [Operation(Assert, Nested(n))]).operations;
  }

  /** The cohort of a shallow assertion and one too deep to encode. */
  function DeepCohort(n: nat): seq<Mutation> {
    [AsMutation(Asserting(Nested(1))), AsMutation(Asserting(Nested(n)))]
  }

  lemma DeepScratch(store: Store, n: nat)
    requires n > MAX_TERM_DEPTH
    ensures var s := RunScratch(store, false, DeepCohort(n));
      && s.frames == [Frame(store.next, [Operation(Assert, Nested(1))]), Frame(store.next + 1, [Operation(Assert, Nested(n))])]
      && s.outcomes[0].result.Committed?
  {
    hide Prepare, Commit, ReceiptOf, Nested;
    var m := DeepCohort(n);
    NestedDepth(1);
    NestedDepth(n);
    AssertingPrepares(store, Nested(1));
    var f := Frame(store.next, [Operation(Assert, Nested(1))]);
    CommitFacts(store, f);
    AssertingPrepares(Commit(store, f), Nested(n));
    assert m[..1] == [m[0]] && m[..1][..0] == [];
    var s0 := Scratch(store, [], []);
    assert RunScratch(store, false, m[..1]) == ScratchStep(s0, false, m[0]);
    assert [] + [f] == [f];
  }

  lemma TwoFrames(h: Host, f: Frame, deep: Frame)
    requires Writable(h, f, false) && !Writable(h, deep, false)
    ensures AllWritable(h, [f], false) && !AllWritable(h, [f, deep], false) && WritablePrefix(h, [f, deep], false) == [f]
  {
    hide Writable;
    assert [f, deep][1..] == [deep] && [f][1..] == [] && [deep][1..] == [];
  }

  /** The first mutation on its own is reported committed. */
  lemma FirstIsCommitted(h: Host, db: Db, n: nat)
    requires h.Valid() && Safe(h, db) && db.status.Ready? && db.torn.None? && db.log.Some? && !db.deflate
    requires n > MAX_TERM_DEPTH && db.store.next <= I64_MAX
    ensures |Serial(h, db, DeepCohort(n)).1| == 2 && Serial(h, db, DeepCohort(n)).1[0].result.Committed?
  {
    hide Prepare, Commit, ReceiptOf, Nested, Safe, EncodeFrames, FenceAndReconcile, Writable;
    var m, f := DeepCohort(n), Frame(db.store.next, [Operation(Assert, Nested(1))]);
    assert m[..1] == [m[0]] && m[..1][..0] == [];
    SafeIsStarted(h, db);
    ShallowIsWritable(h, db.store.next);
    NestedDepth(1);
    AssertingPrepares(db.store, Nested(1));
    assert [f][1..] == [];
    assert WritablePrefix(h, [f], false) == [f];
    assert SerialStep(h, db, m[0]).1.result.Committed?;
    assert Serial(h, db, m[..1]).1 == [SerialStep(h, db, m[0]).1];
  }

  /** On any healthy database a client can send a cohort whose first mutation is made, durably and in memory,
      and reported ambiguous; on its own that mutation would have been reported committed. */
  lemma DeepCohortIsAmbiguous(h: Host, db: Db, n: nat)
    requires h.Valid() && Safe(h, db) && db.status.Ready? && db.torn.None? && db.log.Some? && !db.deflate
    requires n > MAX_TERM_DEPTH && db.store.next <= I64_MAX
    ensures var (after, result) := CohortStep(h, db, DeepCohort(n), None);
      && result == CohortAmbiguous(Fenced(true))
      && after.store == Commit(db.store, Frame(db.store.next, [Operation(Assert, Nested(1))]))
    ensures |Serial(h, db, DeepCohort(n)).1| == 2 && Serial(h, db, DeepCohort(n)).1[0].result.Committed?
  {
    hide *;
    var f, deep := Frame(db.store.next, [Operation(Assert, Nested(1))]), Frame(db.store.next + 1, [Operation(Assert, Nested(n))]);
    SafeIsStarted(h, db);
    DeepScratch(db.store, n);
    ScratchReplays(db.store, false, DeepCohort(n));
    ShallowIsWritable(h, db.store.next);
    DeepIsNotWritable(h, db.store.next + 1, n, false);
    TwoFrames(h, f, deep);
    StuckIsPrefix(h, db, [f, deep]);
    GroupCommitRefinesSerial(h, db, DeepCohort(n));
    ReplayedShallow(h, db, f, deep);
    FirstIsCommitted(h, db, n);
    FencedCohort(h, db, n, f, deep);
  }

  lemma FencedCohort(h: Host, db: Db, n: nat, f: Frame, deep: Frame)
    requires db.status.Ready? && db.torn.None? && db.log.Some? && !db.deflate
    requires RunScratch(db.store, false, DeepCohort(n)).frames == [f, deep] && !AllWritable(h, [f, deep], false)
    requires !Append(h, db.log.value, [f, deep], false, None).ok
    ensures !Lands(h, db, RunScratch(db.store, db.torn.Some?, DeepCohort(n)))
    ensures CohortStep(h, db, DeepCohort(n), None).0 == FenceAndReconcile(h, Attempted(h, db, [f, deep], None))
  {
    hide RunScratch, Append, FenceAndReconcile, AllWritable;
  }

  lemma ReplayedShallow(h: Host, db: Db, f: Frame, deep: Frame)
    requires ReplayAll(db.store, [f, deep]).Ok?
    ensures ReplayAll(db.store, [f]) == Ok(Commit(db.store, f))
  {
    hide Commit;
    assert [f, deep][..1] == [f];
    ReplayOne(db.store, f);
  }
}
