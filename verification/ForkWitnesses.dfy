/** Stores on which a fork does what its documentation does not say. */
module ForkWitnesses {
  import opened Bytes
  import opened Terms
  import opened Frames
  import opened FrameLog
  import opened RoundTrip
  import opened TermStore
  import opened Requests
  import opened Durability
  import opened Fence
  import opened GroupCommit
  import opened BranchText
  import opened Branches
  import opened Forks
  import opened ForkCrash
  import opened ForkFiles
  import opened ForkOutcome
  import opened ForkHistory

  /** A store with a log and nothing in it. */
  function NewFiles(h: Host, header: Header): Files
    requires ValidHeader(h, header)
  {
    map[STORE := Log(EncodeHeader(h, header))]
  }

  ghost predicate NewStoreOf(h: Host, digest: Digest, header: Header) {
    h.Valid() && ValidHeader(h, header) && !header.continuation && SegmentName(digest(EncodeHeader(h, header)))
  }

  lemma NewStoreFacts(h: Host, digest: Digest, header: Header)
    requires NewStoreOf(h, digest, header)
    ensures h.Valid() && ValidHeader(h, header) && header.space != [] && TailPath(MAIN) in NewFiles(h, header)
    ensures NewStore(header.space).next == 1 && NewStore(header.space).space == header.space
  {
  }

  /** Its one branch opens, and forks into any branch with a valid name. */
  lemma FirstForkPlans(h: Host, digest: Digest, header: Header, child: string) returns (plan: Plan)
    requires NewStoreOf(h, digest, header) && ValidBranchName(child) && child != MAIN
    ensures PlanFork(h, digest, NewFiles(h, header), MAIN, child) == Ok(plan)
    ensures plan.marker == ForkMarker(MAIN, child, digest(EncodeHeader(h, header)))
    ensures plan.document == RefDocument(header.space, [SegmentRecord(plan.marker.segment, 0, 0, 16 + |header.space|)])
    ensures plan.tail == EncodeHeader(h, header.(continuation := true)) && ValidHeader(h, header.(continuation := true))
    ensures plan.mark == PrintMarker(h, plan.marker)
    ensures OpenBranch(h, NewFiles(h, header), MAIN, None, false)
      == Ok(Db(header.space, NewStore(header.space), Some(EncodeHeader(h, header)), header.deflate, None, Ready))
  {
    hide ParseLog, EncodeHeader, SegmentName, PrintRef, PrintMarker, ParseRef, ParseMarker;
    MainIsValid();
    FreshTailReads(h, header);
    HeaderReadsWhole(h, header);
    var fs := NewFiles(h, header);
    assert TailPath(MAIN) == STORE && TailPath(child) !in fs && RefPath(child) !in fs && RefPath(MAIN) !in fs && MARKER !in fs;
    assert [] + [RecordOf(digest, EncodeHeader(h, header), [])] == [RecordOf(digest, EncodeHeader(h, header), [])];
    plan := PlanFork(h, digest, fs, MAIN, child).value;
  }

  lemma HeaderReadsWhole(h: Host, header: Header)
    requires h.Valid() && ValidHeader(h, header) && !header.continuation
    ensures ParseLog(h, EncodeHeader(h, header), false) == ParseLog(h, EncodeHeader(h, header), true)
  {
    hide ParseLog, EncodeHeader;
    FreshTailReads(h, header);
    ReadAsWholeStore(h, EncodeHeader(h, header));
  }

  lemma MainIsValid()
    ensures ValidBranchName(MAIN)
  {
  }

  // ----- a crash that loses the child -----

  const CLASHING := "main.fork-new"

  lemma ClashingIsValid()
    ensures ValidBranchName(CLASHING) && CLASHING == MAIN + PENDING && CLASHING != MAIN
  {
  }

  /** A new store takes a fork of `main` into `main.fork-new`; once prepared, it completes if nothing crashes,
      and a crash after four of its file steps costs the child. */
  lemma CrashLosesChild(h: Host, digest: Digest, header: Header) returns (plan: Plan)
    requires NewStoreOf(h, digest, header)
    ensures PlanFork(h, digest, NewFiles(h, header), MAIN, CLASHING) == Ok(plan)
    ensures var ready := RunSteps(NewFiles(h, header), PreparationSteps(plan));
      && RefPath(CLASHING) in CompleteFork(h, ready)
      && RefPath(CLASHING) !in CompleteFork(h, Crashed(h, ready, [4]))
  {
    hide *;
    NewStoreFacts(h, digest, header);
    ClashingIsValid();
    plan := FirstForkPlans(h, digest, header, CLASHING);
    ClashMarkerReads(plan.marker, digest, h, header);
    PreparationIsPrepared(h, NewFiles(h, header), plan);
    ClashLosesChild(h, RunSteps(NewFiles(h, header), PreparationSteps(plan)), plan.marker);
  }

  lemma ClashMarkerReads(m: ForkMarker, digest: Digest, h: Host, header: Header)
    requires NewStoreOf(h, digest, header) && m == ForkMarker(MAIN, CLASHING, digest(EncodeHeader(h, header)))
    ensures MarkerReads(m)
  {
    hide EncodeHeader, ValidBranchName, SegmentName;
    MainIsValid();
    ClashingIsValid();
  }

  // ----- a forked tail that ends corrupt -----

  /** Once a branch has forked, the first append that fails on it, however many octets arrive, leaves the
      database corrupt. */
  lemma ForkedTailEndsCorrupt(h: Host, digest: Digest, fs: Files, parent: string, child: string, plan: Plan,
                              expected: Option<Octets>, request: Request, fault: nat)
    requires h.Valid() && PlanFork(h, digest, fs, parent, child) == Ok(plan)
    requires OpenBranch(h, fs, parent, expected, false).Ok? && NoCollision(fs, plan)
    requires NamesApart(plan.marker) && Printable(plan) && StartsChain(h, fs, plan)
    ensures OpenBranch(h, Forked(h, fs, plan), child, expected, false).Ok?
    ensures var db := OpenBranch(h, Forked(h, fs, plan), child, expected, false).value;
      Prepare(db.store, false, request).Fine? ==>
        CommitStep(h, db, request, Some(fault)).1 == Ambiguous(Corrupt) && CommitStep(h, db, request, Some(fault)).0.status == Corrupt
  {
    hide *;
    ForkOpensIff(h, digest, fs, parent, child, plan, expected, false);
    assert MARKER !in fs by { OpenHasNoMarker(h, fs, parent, expected, false); }
    var base, octets, p := PlanFacts(h, digest, fs, parent, child, plan);
    var ms := ParentFacts(h, digest, fs, plan, base, octets, p, expected, false);
    var before := OpenBranch(h, fs, parent, expected, false).value;
    OpensStarted(h, fs, base, Member(p, |octets|), ms, before.store);
    TailOfPlan(h, digest, fs, plan, base, octets, p);
    if Prepare(before.store, false, request).Fine? {
      FreshTailFails(h, Header(base.space, p.header.deflate, true), before.(log := Some(plan.tail)), request, fault);
    }
  }

  lemma OpensStarted(h: Host, fs: Files, base: RefDocument, t: Member, ms: seq<Member>, s: Store)
    requires OpensOn(h, fs, base, t, ms, s)
    ensures s.next >= 1 && s.space == base.space
  {
    hide ReadMembers, SealedFit, ReplayAll;
    ReplayKeepsSpace(NewStore(base.space), MemberFrames(ms) + t.parsed.frames);
  }

  lemma TailOfPlan(h: Host, digest: Digest, fs: Files, plan: Plan, base: RefDocument, octets: Octets, p: Parsed)
    requires Planning(h, digest, fs, plan, base, octets, p)
    ensures ValidHeader(h, Header(base.space, p.header.deflate, true))
    ensures plan.tail == EncodeHeader(h, Header(base.space, p.header.deflate, true))
  {
    hide ParseLog, EncodeHeader;
  }

  /** A failed commit over a fresh tail that continues a chain. */
  lemma FreshTailFails(h: Host, header: Header, db: Db, request: Request, fault: nat)
    requires h.Valid() && ValidHeader(h, header) && header.continuation
    requires db == Db(header.space, db.store, Some(EncodeHeader(h, header)), header.deflate, None, Ready)
    requires db.store.next >= 1 && db.store.space == header.space && Prepare(db.store, false, request).Fine?
    ensures var (after, result) := CommitStep(h, db, request, Some(fault));
      after.status == Corrupt && result == Ambiguous(Corrupt)
  {
    hide ParseLog, EncodeHeader, Prepare, Commit, EncodeFrames, FenceAndReconcile, WritablePrefix;
    var f := Prepare(db.store, false, request).value;
    FreshTailReads(h, header);
    PreparedFrameReplays(db.store, false, request);
    ReplayOne(db.store, f);
    FailedAppendReconciles(h, db, db.store, [f], Some(fault));
  }

  /** The request that asserts one triple. */
  const ONE_ASSERTION := Request([Plain(Assert, Triple(Int(0), Int(0), Int(0)))], None, None, None)

  const CHILD := "child"

  lemma ChildIsValid()
    ensures ValidBranchName(CHILD) && CHILD != MAIN && |CHILD| == 5
  {
  }

  /** So a new store whose SpaceId fits a line, forked into `child`: one failed commit and the child is corrupt. */
  lemma NewForkEndsCorrupt(h: Host, digest: Digest, header: Header, fault: nat) returns (plan: Plan)
    requires NewStoreOf(h, digest, header) && OneLine(header.space)
    ensures PlanFork(h, digest, NewFiles(h, header), MAIN, CHILD) == Ok(plan)
    ensures var gs := Forked(h, NewFiles(h, header), plan);
      && OpenBranch(h, gs, CHILD, None, false).Ok?
      && CommitStep(h, OpenBranch(h, gs, CHILD, None, false).value, ONE_ASSERTION, Some(fault)).1 == Ambiguous(Corrupt)
  {
    hide *;
    NewStoreFacts(h, digest, header);
    ChildIsValid();
    plan := FirstForkPlans(h, digest, header, CHILD);
    NewForkOpens(h, digest, header, plan);
    ForkedTailEndsCorrupt(h, digest, NewFiles(h, header), MAIN, CHILD, plan, None, ONE_ASSERTION, fault);
    ForkOpensIff(h, digest, NewFiles(h, header), MAIN, CHILD, plan, None, false);
    OneAssertionPrepares(NewStore(header.space));
  }

  lemma NewForkOpens(h: Host, digest: Digest, header: Header, plan: Plan)
    requires NewStoreOf(h, digest, header) && OneLine(header.space)
    requires plan.marker == ForkMarker(MAIN, CHILD, digest(EncodeHeader(h, header)))
    requires plan.document == RefDocument(header.space, [SegmentRecord(plan.marker.segment, 0, 0, 16 + |header.space|)])
    ensures NoCollision(NewFiles(h, header), plan) && NamesApart(plan.marker) && Printable(plan)
    ensures StartsChain(h, NewFiles(h, header), plan)
  {
    hide EncodeHeader, ParseRef, OneLine;
    ChildIsValid();
    assert |CHILD + PENDING| == 14 && |MAIN| == 4;
  }

  lemma OneAssertionPrepares(s: Store)
    requires s.next >= 1 && s.space != []
    ensures Prepare(s, false, ONE_ASSERTION).Fine?
  {
    PrepareAcceptsIff(s, false, ONE_ASSERTION);
  }
}
