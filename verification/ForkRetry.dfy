/** Forking again after a crash at any point ends as if no crash had happened. */
module ForkRetry {
  import opened Bytes
  import opened BranchText
  import opened Branches
  import opened Terms
  import opened FrameLog
  import opened Forks
  import opened ForkCrash
  import opened ForkFiles
  import opened ForkOutcome

  /** No name either branch uses for its files is the other's. */
  predicate NamesFree(m: ForkMarker) {
    && m.parent != m.child + PENDING && m.child != m.parent + PENDING
    && m.parent != m.child + PENDING + TEMPORARY && m.child != m.parent + PENDING + TEMPORARY
  }

  lemma OwnFilesNotStaged(m: ForkMarker)
    requires m.parent != m.child && NamesFree(m)
    ensures !Staged(m, RefPath(m.parent)) && !Staged(m, RefPath(m.child))
    ensures !Staged(m, TailPath(m.parent)) && !Staged(m, TailPath(m.child))
  {
    TailIsNotMarker(m.parent);
    TailIsNotMarker(m.child);
    assert |m.parent + PENDING| == |m.parent| + 9 && |m.child + PENDING| == |m.child| + 9;
    assert |m.parent + PENDING + TEMPORARY| == |m.parent| + 13 && |m.child + PENDING + TEMPORARY| == |m.child| + 13;
    assert |STORE.Suffixed(PENDING).name| == 9 && |STORE.name| == 0;
  }

  /** The planning of a fork reads only its two refs and two tails. */
  lemma SamePlan(h: Host, digest: Digest, fs: Files, gs: Files, parent: string, child: string)
    requires Get(fs, RefPath(parent)) == Get(gs, RefPath(parent)) && Get(fs, RefPath(child)) == Get(gs, RefPath(child))
    requires Get(fs, TailPath(parent)) == Get(gs, TailPath(parent)) && Get(fs, TailPath(child)) == Get(gs, TailPath(child))
    ensures PlanFork(h, digest, fs, parent, child) == PlanFork(h, digest, gs, parent, child)
  {
    hide ParseLog, ParseRef, PrintRef, PrintMarker, ParseMarker, ValidBranchName, EncodeHeader, ValidHeader, NamedIn;
  }

  /** The files while a fork of `fs` is still being prepared. */
  ghost predicate Early(fs: Files, plan: Plan, x: Files) {
    MARKER !in x && forall q :: !Staged(plan.marker, q) ==> Get(x, q) == Get(fs, q)
  }

  lemma PreparationTouchesStaged(plan: Plan, i: nat, q: Path)
    requires i < 12 && !Staged(plan.marker, q)
    ensures !Touches(PreparationSteps(plan)[i], q)
  {
  }

  lemma EarlyStays(fs: Files, plan: Plan, x: Files, k: nat)
    requires Early(fs, plan, x) && MarkerReads(plan.marker) && k < 12
    ensures Early(fs, plan, RunSteps(x, PreparationSteps(plan)[..k]))
  {
    hide RunSteps, PreparationSteps, Staged;
    var steps := PreparationSteps(plan)[..k];
    forall q | !Staged(plan.marker, q) ensures Get(RunSteps(x, steps), q) == Get(fs, q) {
      forall i | 0 <= i < k ensures !Touches(steps[i], q) {
        PreparationTouchesStaged(plan, i, q);
      }
      UntouchedRun(x, steps, q);
    }
    NoMarkerYet(plan, k);
    UntouchedOrRemoved(x, steps, MARKER);
  }

  lemma NoMarkerYet(plan: Plan, k: nat)
    requires k < 12
    ensures forall i :: 0 <= i < k ==> !Creates(PreparationSteps(plan)[i], MARKER)
  {
    assert |MARKER.name| == 5 && |MARKER.Suffixed(TEMPORARY).name| == 9 && |STORE.Suffixed(PENDING).name| == 9;
  }

  lemma {:induction false} UntouchedOrRemoved(fs: Files, steps: seq<FileStep>, q: Path)
    requires q !in fs && forall i :: 0 <= i < |steps| ==> !Creates(steps[i], q)
    ensures q !in RunSteps(fs, steps)
    decreases |steps|
  {
    hide Apply;
    if steps != [] {
      var n := |steps| - 1;
      UntouchedOrRemoved(fs, steps[..n], q);
      GetStep(RunSteps(fs, steps[..n]), steps[n], q);
    }
  }

  /** Preparing over a half-prepared fork gives what preparing once gives. */
  lemma PreparedAgain(fs: Files, plan: Plan, x: Files)
    requires Early(fs, plan, x) && MarkerReads(plan.marker)
    ensures RunSteps(x, PreparationSteps(plan)) == RunSteps(fs, PreparationSteps(plan))
  {
    hide RunSteps, PreparationSteps, MarkerReads;
    forall q ensures Get(RunSteps(x, PreparationSteps(plan)), q) == Get(RunSteps(fs, PreparationSteps(plan)), q) {
      AfterPreparation(x, plan, q);
      AfterPreparation(fs, plan, q);
    }
    SameFiles(RunSteps(x, PreparationSteps(plan)), RunSteps(fs, PreparationSteps(plan)));
  }

  /** The fork's marker is up and completing it gives the forked files; or it is complete. */
  ghost predicate Late(h: Host, fs: Files, plan: Plan, x: Files) {
    || x == Forked(h, fs, plan)
    || (PendingFork(h, x) == Some(plan.marker) && Startable(x, plan.marker) && CompleteFork(h, x) == Forked(h, fs, plan))
  }

  lemma LateStays(h: Host, fs: Files, plan: Plan, x: Files, n: nat)
    requires Planned(h, fs, plan) && Late(h, fs, plan, x) && plan.marker.child != plan.marker.parent + PENDING
    ensures Late(h, fs, plan, CompleteUpTo(h, x, n)) && CompleteFork(h, x) == Forked(h, fs, plan)
  {
    hide CompleteUpTo, Startable, Forked, Planned;
    ForkedRuns(h, fs, plan);
    if MARKER in x {
      CrashedOnce(h, x, plan.marker, n);
    } else {
      NothingPending(h, x, n);
      NothingPending(h, x, 7);
    }
  }

  /** One attempt to fork that crashes after `k` of its file steps. */
  function Attempt(h: Host, digest: Digest, fs: Files, parent: string, child: string, k: nat): Files {
    if MARKER in fs then CompleteUpTo(h, fs, k) else
    match PlanFork(h, digest, fs, parent, child)
    case Err(_) => fs
    case Ok(plan) =>
      if k < 12 then RunSteps(fs, PreparationSteps(plan)[..k])
      else CompleteUpTo(h, RunSteps(fs, PreparationSteps(plan)), k - 12)
  }

  function Attempts(h: Host, digest: Digest, fs: Files, parent: string, child: string, ks: seq<nat>): Files
    decreases |ks|
  {
    if ks == [] then fs else
    Attempt(h, digest, Attempts(h, digest, fs, parent, child, ks[..|ks| - 1]), parent, child, ks[|ks| - 1])
  }

  lemma EarlyPlansTheSame(h: Host, digest: Digest, fs: Files, parent: string, child: string, plan: Plan, x: Files)
    requires PlanFork(h, digest, fs, parent, child) == Ok(plan) && NamesFree(plan.marker) && Early(fs, plan, x)
    ensures PlanFork(h, digest, x, parent, child) == Ok(plan) && Planned(h, fs, plan)
  {
    hide ParseLog, ParseRef, PrintRef, PrintMarker, ParseMarker, ValidBranchName, EncodeHeader, ValidHeader, Staged;
    OwnFilesNotStaged(plan.marker);
    SamePlan(h, digest, fs, x, parent, child);
  }

  lemma ChildExists(h: Host, digest: Digest, fs: Files, parent: string, child: string, plan: Plan)
    requires PlanFork(h, digest, fs, parent, child) == Ok(plan) && NamesFree(plan.marker) && Planned(h, fs, plan)
    ensures RefPath(child) in Forked(h, fs, plan) && RefPath(child) !in fs
    ensures PlanFork(h, digest, Forked(h, fs, plan), parent, child) == Err(BranchExists)
  {
    hide ParseLog, ParseRef, PrintRef, PrintMarker, ParseMarker, ValidBranchName, EncodeHeader, ValidHeader, RunSteps, CompletionSteps, PreparationSteps, Forked;
    ForkedRuns(h, fs, plan);
    FinalChildRef(RunSteps(fs, PreparationSteps(plan)), plan.marker);
    assert Get(Forked(h, fs, plan), RefPath(child)).Some?;
  }

  lemma AttemptKeeps(h: Host, digest: Digest, fs: Files, parent: string, child: string, plan: Plan, x: Files, k: nat)
    requires PlanFork(h, digest, fs, parent, child) == Ok(plan) && NamesFree(plan.marker) && Planned(h, fs, plan)
    requires Early(fs, plan, x) || Late(h, fs, plan, x)
    ensures var y := Attempt(h, digest, x, parent, child, k); Early(fs, plan, y) || Late(h, fs, plan, y)
  {
    hide PlanFork, RunSteps, CompleteUpTo, Forked, PreparationSteps, Startable;
    if MARKER in x {
      LateStays(h, fs, plan, x, k);
    } else if Early(fs, plan, x) {
      EarlyPlansTheSame(h, digest, fs, parent, child, plan, x);
      if k < 12 {
        EarlyStays(fs, plan, x, k);
      } else {
        PreparedAgain(fs, plan, x);
        PreparedIsLate(h, fs, plan);
        LateStays(h, fs, plan, RunSteps(fs, PreparationSteps(plan)), k - 12);
      }
    } else {
      ChildExists(h, digest, fs, parent, child, plan);
    }
  }

  lemma PreparedIsLate(h: Host, fs: Files, plan: Plan)
    requires Planned(h, fs, plan)
    ensures Late(h, fs, plan, RunSteps(fs, PreparationSteps(plan)))
  {
    hide RunSteps, PreparationSteps, CompleteUpTo;
    ForkedRuns(h, fs, plan);
  }

  lemma {:induction false} AttemptsKeep(h: Host, digest: Digest, fs: Files, parent: string, child: string, plan: Plan, ks: seq<nat>)
    requires MARKER !in fs && PlanFork(h, digest, fs, parent, child) == Ok(plan) && NamesFree(plan.marker)
    ensures var x := Attempts(h, digest, fs, parent, child, ks); (Early(fs, plan, x) || Late(h, fs, plan, x)) && Planned(h, fs, plan)
    decreases |ks|
  {
    hide PlanFork, Attempt, Forked, Planned, Late, NamesFree;
    EarlyPlansTheSame(h, digest, fs, parent, child, plan, fs);
    if ks != [] {
      var n := |ks| - 1;
      AttemptsKeep(h, digest, fs, parent, child, plan, ks[..n]);
      AttemptKeeps(h, digest, fs, parent, child, plan, Attempts(h, digest, fs, parent, child, ks[..n]), ks[n]);
    }
  }

  /** A fork whose names are free, crashed anywhere any number of times and then run once to the end,
      leaves exactly the files of a fork that never crashed. The retry answers with the plan of that fork,
      unless an attempt had got as far as the marker: then it completes the fork and says the child exists. */
  lemma ForkRetries(h: Host, digest: Digest, fs: Files, parent: string, child: string, plan: Plan, ks: seq<nat>)
    requires MARKER !in fs && PlanFork(h, digest, fs, parent, child) == Ok(plan) && NamesFree(plan.marker)
    ensures Fork(h, digest, Attempts(h, digest, fs, parent, child, ks), parent, child).0 == Fork(h, digest, fs, parent, child).0
    ensures var x := Attempts(h, digest, fs, parent, child, ks);
      Fork(h, digest, x, parent, child).1 == if MARKER in x || x == Forked(h, fs, plan) then Err(BranchExists) else Ok(plan)
    ensures Fork(h, digest, fs, parent, child) == (Forked(h, fs, plan), Ok(plan))
  {
    hide PlanFork, RunSteps, CompleteUpTo, Forked, PreparationSteps, Startable, Attempt, Attempts, NamesFree;
    var x := Attempts(h, digest, fs, parent, child, ks);
    AttemptsKeep(h, digest, fs, parent, child, plan, ks);
    NothingPending(h, fs, 7);
    ForkedUnfolds(h, fs, plan);
    ChildExists(h, digest, fs, parent, child, plan);
    if Early(fs, plan, x) {
      NothingPending(h, x, 7);
      EarlyPlansTheSame(h, digest, fs, parent, child, plan, x);
      PreparedAgain(fs, plan, x);
      EarlyHasNoChild(fs, plan, x);
    } else {
      assert MARKER in x || x == Forked(h, fs, plan);
      assert MARKER in x ==> PendingFork(h, x).Some? by { ForkedRuns(h, fs, plan); }
      LateStays(h, fs, plan, x, 7) by { assert plan.marker.child != plan.marker.parent + PENDING by { FreeMeansApart(plan.marker); } }
    }
  }

  lemma EarlyHasNoChild(fs: Files, plan: Plan, x: Files)
    requires Early(fs, plan, x) && plan.marker.parent != plan.marker.child && NamesFree(plan.marker)
    ensures RefPath(plan.marker.child) in x <==> RefPath(plan.marker.child) in fs
  {
    hide Staged, NamesFree;
    OwnFilesNotStaged(plan.marker);
    assert Get(x, RefPath(plan.marker.child)) == Get(fs, RefPath(plan.marker.child));
  }

  lemma FreeMeansApart(m: ForkMarker)
    requires NamesFree(m)
    ensures m.child != m.parent + PENDING
  {
  }

  lemma ForkedUnfolds(h: Host, fs: Files, plan: Plan)
    ensures Forked(h, fs, plan) == CompleteFork(h, RunSteps(fs, PreparationSteps(plan)))
  {
  }
}
