/** What a fork means: parent and child open on the parent's history, and other branches are untouched. */
module ForkOutcome {
  import opened Bytes
  import opened Terms
  import opened Frames
  import opened FrameLog
  import opened RoundTrip
  import opened TermStore
  import opened Durability
  import opened GroupCommit
  import opened BranchText
  import opened Branches
  import opened Forks
  import opened ForkCrash
  import opened ForkFiles

  /** The files once a planned fork has run to completion. */
  function Forked(h: Host, fs: Files, plan: Plan): Files {
    CompleteFork(h, RunSteps(fs, PreparationSteps(plan)))
  }

  /** A plan for two branches whose parent tail is there. */
  predicate Planned(h: Host, fs: Files, plan: Plan) {
    MarkerReads(plan.marker) && plan.mark == PrintMarker(h, plan.marker) && TailPath(plan.marker.parent) in fs
  }

  lemma ForkedRuns(h: Host, fs: Files, plan: Plan)
    requires Planned(h, fs, plan)
    ensures var mid := RunSteps(fs, PreparationSteps(plan));
      && Prepared(h, mid, plan.marker) && Forked(h, fs, plan) == RunSteps(mid, CompletionSteps(plan.marker))
    ensures MARKER !in Forked(h, fs, plan)
  {
    hide RunSteps;
    PreparationIsPrepared(h, fs, plan);
    CompletedRun(h, RunSteps(fs, PreparationSteps(plan)), plan.marker);
  }

  // ----- other branches -----

  /** The names a fork of `parent` into `child` uses for its own files. */
  predicate Reserved(m: ForkMarker, branch: string) {
    || branch == m.parent + PENDING || branch == m.child + PENDING
    || branch == m.parent + PENDING + TEMPORARY || branch == m.child + PENDING + TEMPORARY
    || (m.parent != MAIN && branch == m.parent + SNAPSHOT)
  }

  lemma OtherPathKept(h: Host, fs: Files, plan: Plan, q: Path)
    requires Planned(h, fs, plan) && !Staged(plan.marker, q)
    requires forall i :: 0 <= i < 7 ==> !Touches(CompletionSteps(plan.marker)[i], q)
    ensures Get(Forked(h, fs, plan), q) == Get(fs, q)
  {
    hide RunSteps, PreparationSteps, Forked;
    ForkedRuns(h, fs, plan);
    AfterPreparation(fs, plan, q);
    UntouchedRun(RunSteps(fs, PreparationSteps(plan)), CompletionSteps(plan.marker), q);
  }

  lemma OtherRefKept(h: Host, fs: Files, plan: Plan, branch: string)
    requires Planned(h, fs, plan) && branch != plan.marker.parent && branch != plan.marker.child
    requires !Reserved(plan.marker, branch)
    ensures Get(Forked(h, fs, plan), RefPath(branch)) == Get(fs, RefPath(branch))
  {
    hide *;
    OtherRefNotUsed(plan.marker, branch);
    OtherPathKept(h, fs, plan, RefPath(branch));
  }

  lemma OtherRefNotUsed(m: ForkMarker, branch: string)
    requires branch != m.parent && branch != m.child && !Reserved(m, branch)
    ensures !Staged(m, RefPath(branch)) && forall i :: 0 <= i < 7 ==> !Touches(CompletionSteps(m)[i], RefPath(branch))
  {
  }

  lemma OtherTailKept(h: Host, fs: Files, plan: Plan, branch: string)
    requires Planned(h, fs, plan) && branch != plan.marker.parent && branch != plan.marker.child
    requires !Reserved(plan.marker, branch)
    ensures Get(Forked(h, fs, plan), TailPath(branch)) == Get(fs, TailPath(branch))
  {
    hide *;
    OtherTailNotStaged(plan.marker, branch);
    forall i | 0 <= i < 7 ensures !Touches(CompletionSteps(plan.marker)[i], TailPath(branch)) {
      OtherTailNotTouched(plan.marker, branch, i);
    }
    OtherPathKept(h, fs, plan, TailPath(branch));
  }

  lemma OtherTailNotStaged(m: ForkMarker, branch: string)
    requires branch != m.parent && branch != m.child && !Reserved(m, branch)
    ensures !Staged(m, TailPath(branch))
  {
    TailIsNotMarker(branch);
    assert |PENDING| == 9 && |STORE.name| == 0;
  }

  lemma OtherTailNotTouched(m: ForkMarker, branch: string, i: nat)
    requires branch != m.parent && branch != m.child && !Reserved(m, branch) && i < 7
    ensures !Touches(CompletionSteps(m)[i], TailPath(branch))
  {
    TailIsNotMarker(branch);
    assert |PENDING| == 9 && |SNAPSHOT| == 9 && |STORE.name| == 0;
  }

  /** A branch with a reserved name loses its ref or its tail. */
  lemma ReservedBranchLost(h: Host, fs: Files, plan: Plan, branch: string)
    requires Planned(h, fs, plan) && branch != plan.marker.parent && branch != plan.marker.child
    requires Reserved(plan.marker, branch)
    ensures RefPath(branch) !in Forked(h, fs, plan) || TailPath(branch) !in Forked(h, fs, plan)
  {
    hide Forked, Planned;
    var m := plan.marker;
    if branch == m.parent + PENDING || branch == m.child + PENDING {
      PendingLost(h, fs, plan, branch);
    } else if m.parent != MAIN && branch == m.parent + SNAPSHOT {
      SnapshotLost(h, fs, plan, branch);
    } else {
      TemporaryLost(h, fs, plan, branch);
    }
  }

  lemma PendingLost(h: Host, fs: Files, plan: Plan, branch: string)
    requires Planned(h, fs, plan) && branch != plan.marker.parent && branch != plan.marker.child
    requires branch == plan.marker.parent + PENDING || branch == plan.marker.child + PENDING
    ensures RefPath(branch) !in Forked(h, fs, plan)
  {
    hide RunSteps, PreparationSteps, Forked, Prepared, MarkerReads;
    var m := plan.marker;
    ForkedRuns(h, fs, plan);
    PendingRefMoved(RunSteps(fs, PreparationSteps(plan)), m, branch);
  }

  lemma PendingRefMoved(fs: Files, m: ForkMarker, branch: string)
    requires branch != m.parent && branch != m.child
    requires branch == m.parent + PENDING || branch == m.child + PENDING
    ensures RefPath(branch) !in RunSteps(fs, CompletionSteps(m))
  {
    hide RunSteps;
    if branch == m.child + PENDING {
      RemovedBy(fs, CompletionSteps(m), 3, RefPath(branch));
    } else {
      RemovedBy(fs, CompletionSteps(m), 2, RefPath(branch));
    }
  }

  lemma SnapshotLost(h: Host, fs: Files, plan: Plan, branch: string)
    requires Planned(h, fs, plan) && plan.marker.parent != MAIN && branch == plan.marker.parent + SNAPSHOT
    ensures TailPath(branch) !in Forked(h, fs, plan)
  {
    hide RunSteps, PreparationSteps, Forked;
    ForkedRuns(h, fs, plan);
    assert |branch| > 9;
    RemovedBy(RunSteps(fs, PreparationSteps(plan)), CompletionSteps(plan.marker), 5, TailPath(branch));
  }

  lemma TemporaryLost(h: Host, fs: Files, plan: Plan, branch: string)
    requires Planned(h, fs, plan) && branch != plan.marker.parent && branch != plan.marker.child
    requires branch == plan.marker.parent + PENDING + TEMPORARY || branch == plan.marker.child + PENDING + TEMPORARY
    ensures RefPath(branch) !in Forked(h, fs, plan)
  {
    hide *;
    var m := plan.marker;
    var mid := RunSteps(fs, PreparationSteps(plan));
    ForkedRuns(h, fs, plan);
    PlannedReads(h, fs, plan);
    AfterPreparation(fs, plan, RefPath(branch));
    TemporaryIsStaged(fs, plan, branch);
    forall i | 0 <= i < 7 ensures !Creates(CompletionSteps(m)[i], RefPath(branch)) && !Removes(CompletionSteps(m)[i], RefPath(branch)) {
      TemporaryNotTouched(m, branch, i);
    }
    UntouchedRun(mid, CompletionSteps(m), RefPath(branch));
    NothingThere(Forked(h, fs, plan), RefPath(branch));
  }

  lemma PlannedReads(h: Host, fs: Files, plan: Plan)
    requires Planned(h, fs, plan)
    ensures MarkerReads(plan.marker)
  {
  }

  lemma NothingThere(fs: Files, p: Path)
    ensures Get(fs, p) == None <==> p !in fs
  {
  }

  lemma TemporaryIsStaged(fs: Files, plan: Plan, branch: string)
    requires branch == plan.marker.parent + PENDING + TEMPORARY || branch == plan.marker.child + PENDING + TEMPORARY
    ensures StagedContent(fs, plan, RefPath(branch)) == None
  {
    var m := plan.marker;
    PendingIsNotTemporary(m.parent, m.parent);
    PendingIsNotTemporary(m.parent, m.child);
    PendingIsNotTemporary(m.child, m.parent);
    PendingIsNotTemporary(m.child, m.child);
  }

  lemma TemporaryNotTouched(m: ForkMarker, branch: string, i: nat)
    requires branch != m.parent && branch != m.child && i < 7
    requires branch == m.parent + PENDING + TEMPORARY || branch == m.child + PENDING + TEMPORARY
    ensures !Creates(CompletionSteps(m)[i], RefPath(branch)) && !Removes(CompletionSteps(m)[i], RefPath(branch))
  {
    PendingIsNotTemporary(m.parent, m.parent);
    PendingIsNotTemporary(m.parent, m.child);
    PendingIsNotTemporary(m.child, m.parent);
    PendingIsNotTemporary(m.child, m.child);
  }

  /** A third branch keeps its files exactly when its name is none a fork uses for its own. */
  lemma OtherBranchKeptIff(h: Host, fs: Files, plan: Plan, branch: string)
    requires Planned(h, fs, plan) && branch != plan.marker.parent && branch != plan.marker.child
    requires RefPath(branch) in fs && TailPath(branch) in fs
    ensures (Get(Forked(h, fs, plan), RefPath(branch)) == Get(fs, RefPath(branch))
             && Get(Forked(h, fs, plan), TailPath(branch)) == Get(fs, TailPath(branch))) <==> !Reserved(plan.marker, branch)
  {
    hide Forked, Reserved;
    if Reserved(plan.marker, branch) {
      ReservedBranchLost(h, fs, plan, branch);
    } else {
      OtherRefKept(h, fs, plan, branch);
      OtherTailKept(h, fs, plan, branch);
    }
  }

  // ----- sealed segments -----

  /** Every segment of `fs` is in `gs`, unchanged. */
  ghost predicate SegmentsKept(fs: Files, gs: Files) {
    forall sha: string :: SegmentPath(sha) in fs ==> SegmentPath(sha) in gs && gs[SegmentPath(sha)] == fs[SegmentPath(sha)]
  }

  lemma ForkKeepsSegments(h: Host, fs: Files, plan: Plan)
    requires Planned(h, fs, plan)
    ensures SegmentsKept(fs, Forked(h, fs, plan))
  {
    hide RunSteps, PreparationSteps, Forked;
    ForkedRuns(h, fs, plan);
    var mid := RunSteps(fs, PreparationSteps(plan));
    forall sha: string | SegmentPath(sha) in fs ensures Get(Forked(h, fs, plan), SegmentPath(sha)) == Get(fs, SegmentPath(sha)) {
      AfterPreparation(fs, plan, SegmentPath(sha));
      FinalSegment(mid, plan.marker, sha);
    }
    forall sha: string | SegmentPath(sha) in fs
      ensures SegmentPath(sha) in Forked(h, fs, plan) && Forked(h, fs, plan)[SegmentPath(sha)] == fs[SegmentPath(sha)]
    {
      assert Get(Forked(h, fs, plan), SegmentPath(sha)) == Get(fs, SegmentPath(sha));
    }
  }

  lemma {:induction false} MembersKept(h: Host, fs: Files, gs: Files, segments: seq<SegmentRecord>)
    requires SegmentsKept(fs, gs) && ReadMembers(h, fs, segments).Ok?
    ensures ReadMembers(h, gs, segments) == ReadMembers(h, fs, segments)
    decreases |segments|
  {
    hide ParseLog;
    if segments != [] {
      MembersKept(h, fs, gs, segments[..|segments| - 1]);
      assert SegmentPath(segments[|segments| - 1].sha) in fs;
    }
  }

  /** So a third branch that opens still opens on the same database. */
  lemma OtherBranchOpens(h: Host, fs: Files, plan: Plan, branch: string, expected: Option<Octets>, repair: bool)
    requires Planned(h, fs, plan) && branch != plan.marker.parent && branch != plan.marker.child
    requires !Reserved(plan.marker, branch) && OpenBranch(h, fs, branch, expected, repair).Ok?
    ensures OpenBranch(h, Forked(h, fs, plan), branch, expected, repair) == OpenBranch(h, fs, branch, expected, repair)
  {
    hide ParseLog, ReplayAll, Forked, Planned, Reserved, SegmentsKept, ParseRef, OpenBranch, ReadMembers;
    OtherRefKept(h, fs, plan, branch);
    OtherTailKept(h, fs, plan, branch);
    ForkedRuns(h, fs, plan);
    ForkKeepsSegments(h, fs, plan);
    OpensTheSame(h, fs, Forked(h, fs, plan), branch, expected, repair);
  }

  /** What opening a branch reads: its ref, its tail, and the sealed segments. */
  lemma OpensTheSame(h: Host, fs: Files, gs: Files, branch: string, expected: Option<Octets>, repair: bool)
    requires OpenBranch(h, fs, branch, expected, repair).Ok? && MARKER !in gs && SegmentsKept(fs, gs)
    requires Get(gs, RefPath(branch)) == Get(fs, RefPath(branch)) && Get(gs, TailPath(branch)) == Get(fs, TailPath(branch))
    ensures OpenBranch(h, gs, branch, expected, repair) == OpenBranch(h, fs, branch, expected, repair)
  {
    hide ParseLog, ReplayAll, SealedFit, TailFits, SegmentsKept, ParseRef, ValidBranchName, ReadMembers;
    assert ReadRef(h, gs, branch) == ReadRef(h, fs, branch);
    var document := ReadRef(h, fs, branch);
    if document.Some? {
      MembersKept(h, fs, gs, document.value.value.segments);
      assert ReadMember(h, gs, TailPath(branch)) == ReadMember(h, fs, TailPath(branch));
    }
  }
}
