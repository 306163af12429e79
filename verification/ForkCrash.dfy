/** A fork survives any number of crashes. */
module ForkCrash {
  import opened Bytes
  import opened Terms
  import opened FrameLog
  import opened Durability
  import opened BranchText
  import opened Branches
  import opened Forks

  function Get(fs: Files, p: Path): Option<Content> {
    if p in fs then Some(fs[p]) else None
  }

  lemma SameFiles(fs: Files, gs: Files)
    requires forall p :: Get(fs, p) == Get(gs, p)
    ensures fs == gs
  {
    forall p | p in fs ensures p in gs && fs[p] == gs[p] {
      assert Get(fs, p) == Get(gs, p);
    }
    forall p | p in gs ensures p in fs {
      assert Get(fs, p) == Get(gs, p);
    }
  }

  /** What a step does to each path. */
  function GetAfter(fs: Files, step: FileStep, p: Path): Option<Content> {
    match step
    case Put(path, content) => if p == path then Some(content) else Get(fs, p)
    case Delete(path) => if p == path then None else Get(fs, p)
    case Install(from, to) =>
      if from !in fs then Get(fs, p) else if p == to then Get(fs, from) else if p == from then None else Get(fs, p)
    case Seal(from, to) =>
      if to in fs || from !in fs then Get(fs, p) else if p == to then Get(fs, from) else if p == from then None else Get(fs, p)
  }

  lemma GetStep(fs: Files, step: FileStep, p: Path)
    ensures Get(Apply(fs, step), p) == GetAfter(fs, step, p)
  {
  }

  // ----- steps that stay done -----

  predicate Creates(step: FileStep, p: Path) {
    (step.Put? && step.path == p) || ((step.Install? || step.Seal?) && step.to == p)
  }

  predicate Removes(step: FileStep, p: Path) {
    (step.Delete? && step.path == p) || ((step.Install? || step.Seal?) && step.from == p)
  }

  /** Running the step again would change nothing. */
  predicate Done(fs: Files, step: FileStep) {
    match step
    case Put(_, _) => false
    case Delete(path) => path !in fs
    case Install(from, _) => from !in fs
    case Seal(_, to) => to in fs
  }

  predicate Keeps(step: FileStep, later: FileStep) {
    match step
    case Put(_, _) => false
    case Delete(path) => !Creates(later, path)
    case Install(from, _) => !Creates(later, from)
    case Seal(_, to) => !Removes(later, to)
  }

  /** Each step can finish, and no later step undoes it. */
  predicate Settles(fs: Files, steps: seq<FileStep>) {
    && (forall i, j :: 0 <= i < j < |steps| ==> Keeps(steps[i], steps[j]))
    && (forall i :: 0 <= i < |steps| ==> CanFinish(fs, steps[i]))
  }

  predicate CanFinish(fs: Files, step: FileStep) {
    match step
    case Put(_, _) => false
    case Delete(_) => true
    case Install(from, to) => from != to
    case Seal(from, to) => from != to && (from in fs || to in fs)
  }

  lemma DoneIsIdle(fs: Files, step: FileStep)
    requires Done(fs, step)
    ensures Apply(fs, step) == fs
  {
  }

  lemma DoneStays(fs: Files, step: FileStep, later: FileStep)
    requires Done(fs, step) && Keeps(step, later)
    ensures Done(Apply(fs, later), step)
  {
  }

  /** A run of steps ends with all of them done; and a first step that can finish stays so. */
  lemma {:induction false} RunIsDone(fs: Files, steps: seq<FileStep>, k: nat)
    requires Settles(fs, steps) && k <= |steps| && forall j :: 1 <= j < |steps| ==> !steps[j].Seal?
    ensures forall i :: 0 <= i < k ==> Done(RunSteps(fs, steps[..k]), steps[i])
  {
    if k > 0 {
      RunIsDone(fs, steps, k - 1);
      assert steps[..k][..k - 1] == steps[..k - 1];
      var before := RunSteps(fs, steps[..k - 1]);
      var step := steps[k - 1];
      assert CanFinish(fs, step);
      assert k == 1 ==> before == fs;
      forall i | 0 <= i < k - 1 ensures Done(Apply(before, step), steps[i]) {
        DoneStays(before, steps[i], step);
      }
    }
  }

  lemma {:induction false} IdleRun(fs: Files, steps: seq<FileStep>)
    requires forall i :: 0 <= i < |steps| ==> Done(fs, steps[i])
    ensures RunSteps(fs, steps) == fs
    decreases |steps|
  {
    if steps != [] {
      IdleRun(fs, steps[..|steps| - 1]);
      DoneIsIdle(fs, steps[|steps| - 1]);
    }
  }

  lemma {:induction false} RunConcat(fs: Files, a: seq<FileStep>, b: seq<FileStep>)
    ensures RunSteps(fs, a + b) == RunSteps(RunSteps(fs, a), b)
    decreases |b|
  {
    if b == [] {
      assert a + b == a;
    } else {
      var n := |b| - 1;
      assert (a + b)[..|a| + n] == a + b[..n];
      RunConcat(fs, a, b[..n]);
    }
  }

  /** Stopping after `k` steps and starting over is the same as never having stopped. */
  lemma Resume(fs: Files, steps: seq<FileStep>, k: nat)
    requires Settles(fs, steps) && k <= |steps| && forall j :: 1 <= j < |steps| ==> !steps[j].Seal?
    ensures RunSteps(RunSteps(fs, steps[..k]), steps) == RunSteps(fs, steps)
  {
    hide Apply, Done, Settles, RunSteps;
    var mid := RunSteps(fs, steps[..k]);
    RunIsDone(fs, steps, k);
    assert steps == steps[..k] + steps[k..];
    IdleRun(mid, steps[..k]);
    RunConcat(mid, steps[..k], steps[k..]);
    RunConcat(fs, steps[..k], steps[k..]);
  }

  // ----- forks -----

  /** The parent tail is there to seal, or already sealed. */
  predicate Startable(fs: Files, m: ForkMarker) {
    TailPath(m.parent) in fs || SegmentPath(m.segment) in fs
  }

  lemma CompletionSettles(fs: Files, m: ForkMarker)
    requires MarkerReads(m) && Startable(fs, m) && m.child != m.parent + PENDING
    ensures Settles(fs, CompletionSteps(m))
  {
    var steps := CompletionSteps(m);
    forall i, j | 0 <= i < j < |steps| ensures Keeps(steps[i], steps[j]) {
      StepsKeep(m, i, j);
    }
  }

  lemma StepsKeep(m: ForkMarker, i: nat, j: nat)
    requires MarkerReads(m) && m.child != m.parent + PENDING && i < j < 7
    ensures Keeps(CompletionSteps(m)[i], CompletionSteps(m)[j])
  {
    assert |m.parent + PENDING| == |m.parent| + 9 && |m.child + PENDING| == |m.child| + 9;
    assert |PENDING| == 9 && |SNAPSHOT| == 9 && PENDING[1] != SNAPSHOT[1];
  }

  /** The marker outlives every step but the last. */
  lemma {:induction false} MarkerStays(h: Host, fs: Files, m: ForkMarker, k: nat)
    requires PendingFork(h, fs) == Some(m) && Startable(fs, m) && k < 7
    ensures var mid := RunSteps(fs, CompletionSteps(m)[..k]);
      PendingFork(h, mid) == Some(m) && Startable(mid, m) && (k > 0 ==> SegmentPath(m.segment) in mid)
  {
    hide ParseMarker;
    var steps := CompletionSteps(m);
    if k > 0 {
      MarkerStays(h, fs, m, k - 1);
      assert steps[..k][..k - 1] == steps[..k - 1];
      var before := RunSteps(fs, steps[..k - 1]);
      GetStep(before, steps[k - 1], MARKER);
      GetStep(before, steps[k - 1], SegmentPath(m.segment));
    }
  }

  lemma CompletedRun(h: Host, fs: Files, m: ForkMarker)
    requires PendingFork(h, fs) == Some(m)
    ensures CompleteFork(h, fs) == RunSteps(fs, CompletionSteps(m)) && MARKER !in CompleteFork(h, fs)
  {
    var steps := CompletionSteps(m);
    assert steps[..7] == steps;
    GetStep(RunSteps(fs, steps[..6]), steps[6], MARKER);
  }

  /** After any crash the fork is either complete or can still be completed, to the same files. */
  lemma CrashedOnce(h: Host, fs: Files, m: ForkMarker, n: nat)
    requires PendingFork(h, fs) == Some(m) && Startable(fs, m) && m.child != m.parent + PENDING
    ensures var mid := CompleteUpTo(h, fs, n);
      CompleteFork(h, mid) == CompleteFork(h, fs) && (mid == CompleteFork(h, fs) || (PendingFork(h, mid) == Some(m) && Startable(mid, m)))
  {
    hide RunSteps, Startable;
    var steps := CompletionSteps(m);
    CompletedRun(h, fs, m);
    if n < 7 {
      MarkerStays(h, fs, m, n);
      CompletedRun(h, RunSteps(fs, steps[..n]), m);
      CompletionSettles(fs, m);
      Resume(fs, steps, n);
    } else {
      assert steps[..7] == steps;
    }
  }

  lemma {:induction false} CrashesThenCompletes(h: Host, fs: Files, m: ForkMarker, attempts: seq<nat>)
    requires PendingFork(h, fs) == Some(m) && Startable(fs, m) && m.child != m.parent + PENDING
    ensures var mid := Crashed(h, fs, attempts);
      CompleteFork(h, mid) == CompleteFork(h, fs) && (mid == CompleteFork(h, fs) || (PendingFork(h, mid) == Some(m) && Startable(mid, m)))
    decreases |attempts|
  {
    hide CompleteUpTo, Startable;
    if attempts != [] {
      var n := |attempts| - 1;
      CrashesThenCompletes(h, fs, m, attempts[..n]);
      var mid := Crashed(h, fs, attempts[..n]);
      if PendingFork(h, mid) == Some(m) && Startable(mid, m) {
        CrashedOnce(h, mid, m, attempts[n]);
      } else {
        CompletedRun(h, fs, m);
        NothingPending(h, mid, attempts[n]);
      }
    }
  }

  lemma NothingPending(h: Host, fs: Files, n: nat)
    requires MARKER !in fs
    ensures CompleteUpTo(h, fs, n) == fs
  {
  }

  // ----- the exact condition -----

  /** Files as a fork leaves them when its marker appears. */
  predicate Prepared(h: Host, fs: Files, m: ForkMarker) {
    && PendingFork(h, fs) == Some(m) && TailPath(m.parent) in fs
    && TailPath(m.parent).Suffixed(PENDING) in fs && TailPath(m.child).Suffixed(PENDING) in fs
    && RefPath(m.parent).Suffixed(PENDING) in fs && RefPath(m.child).Suffixed(PENDING) in fs
  }

  /** Crash after the child ref is installed, then complete: when the child's name is the parent's pending
      name, the second attempt takes the child ref for the parent's pending ref. */
  lemma ClashLosesChild(h: Host, fs: Files, m: ForkMarker)
    requires Prepared(h, fs, m) && m.child == m.parent + PENDING
    ensures RefPath(m.child) in CompleteFork(h, fs)
    ensures RefPath(m.child) !in CompleteFork(h, Crashed(h, fs, [4]))
  {
    hide RunSteps, Apply;
    var steps, cr := CompletionSteps(m), RefPath(m.child);
    CompletedRun(h, fs, m);
    UpToInstalls(h, fs, m);
    var mid := RunSteps(fs, steps[..4]);
    assert Crashed(h, fs, [4]) == mid by { CrashedOne(h, fs, m); }
    MarkerStays(h, fs, m, 4);
    CompletedRun(h, mid, m);
    ChildRefKept(h, fs, m);
    ChildRefTaken(mid, m);
  }

  lemma CrashedOne(h: Host, fs: Files, m: ForkMarker)
    requires PendingFork(h, fs) == Some(m)
    ensures Crashed(h, fs, [4]) == RunSteps(fs, CompletionSteps(m)[..4])
  {
    hide RunSteps;
    assert [4][..0] == [];
  }

  /** After four steps the child ref is in place and its pending file gone. */
  lemma UpToInstalls(h: Host, fs: Files, m: ForkMarker)
    requires Prepared(h, fs, m)
    ensures var mid := RunSteps(fs, CompletionSteps(m)[..4]);
      RefPath(m.child) in mid && RefPath(m.child).Suffixed(PENDING) !in mid
  {
    hide RunSteps, Apply;
    var steps := CompletionSteps(m);
    Unroll4(fs, steps);
    var s1 := Apply(fs, steps[0]);
    var s2 := Apply(s1, steps[1]);
    var s3 := Apply(s2, steps[2]);
    var from := RefPath(m.child).Suffixed(PENDING);
    SuffixesDiffer(m.parent, m.child, PENDING);
    GetStep(fs, steps[0], from);
    GetStep(s1, steps[1], from);
    GetStep(s2, steps[2], from);
    GetStep(s3, steps[3], from);
    GetStep(s3, steps[3], RefPath(m.child));
  }

  lemma SuffixesDiffer(a: string, b: string, suffix: string)
    requires a != b
    ensures a + suffix != b + suffix
  {
    assert (a + suffix)[..|a|] == a && (b + suffix)[..|b|] == b;
  }

  lemma RunNext(fs: Files, steps: seq<FileStep>, k: nat)
    requires k < |steps|
    ensures RunSteps(fs, steps[..k + 1]) == Apply(RunSteps(fs, steps[..k]), steps[k])
  {
    assert steps[..k + 1][..k] == steps[..k];
  }

  lemma Unroll4(fs: Files, steps: seq<FileStep>)
    requires |steps| >= 4
    ensures RunSteps(fs, steps[..4]) == Apply(Apply(Apply(Apply(fs, steps[0]), steps[1]), steps[2]), steps[3])
  {
    hide Apply;
    assert RunSteps(fs, steps[..0]) == fs;
    RunNext(fs, steps, 0);
    RunNext(fs, steps, 1);
    RunNext(fs, steps, 2);
    RunNext(fs, steps, 3);
  }

  lemma Unroll7(fs: Files, steps: seq<FileStep>)
    requires |steps| == 7
    ensures RunSteps(fs, steps) == Apply(Apply(Apply(RunSteps(fs, steps[..4]), steps[4]), steps[5]), steps[6])
  {
    hide Apply, RunSteps;
    assert steps[..7] == steps;
    RunNext(fs, steps, 4);
    RunNext(fs, steps, 5);
    RunNext(fs, steps, 6);
  }

  /** The last three steps touch no ref. */
  lemma LastStepsKeepRefs(fs: Files, m: ForkMarker, branch: string)
    ensures var steps := CompletionSteps(m);
      RefPath(branch) in RunSteps(fs, steps) <==> RefPath(branch) in RunSteps(fs, steps[..4])
  {
    hide RunSteps, Apply;
    var steps, p := CompletionSteps(m), RefPath(branch);
    Unroll7(fs, steps);
    var s4 := RunSteps(fs, steps[..4]);
    GetStep(s4, steps[4], p);
    GetStep(Apply(s4, steps[4]), steps[5], p);
    GetStep(Apply(Apply(s4, steps[4]), steps[5]), steps[6], p);
  }

  lemma ChildRefKept(h: Host, fs: Files, m: ForkMarker)
    requires Prepared(h, fs, m)
    ensures RefPath(m.child) in RunSteps(fs, CompletionSteps(m))
  {
    UpToInstalls(h, fs, m);
    LastStepsKeepRefs(fs, m, m.child);
  }

  lemma ChildRefTaken(mid: Files, m: ForkMarker)
    requires m.child == m.parent + PENDING && RefPath(m.child).Suffixed(PENDING) !in mid
    ensures RefPath(m.child) !in RunSteps(mid, CompletionSteps(m))
  {
    hide RunSteps, Apply;
    var steps := CompletionSteps(m);
    var cr, from := RefPath(m.child), RefPath(m.child).Suffixed(PENDING);
    LastStepsKeepRefs(mid, m, m.child);
    Unroll4(mid, steps);
    var s1 := Apply(mid, steps[0]);
    var s2 := Apply(s1, steps[1]);
    var s3 := Apply(s2, steps[2]);
    assert |from.name| == |m.parent| + 18 && |cr.name| == |m.parent| + 9;
    GetStep(mid, steps[0], from);
    GetStep(s1, steps[1], from);
    GetStep(s2, steps[2], from);
    GetStep(s2, steps[2], cr);
    GetStep(s3, steps[3], cr);
  }

  /** A prepared fork survives every number of crashes, each between any two file steps, exactly when the
      child is not named like the parent's pending files. */
  lemma ForkSurvivesCrashesIff(h: Host, fs: Files, m: ForkMarker)
    requires Prepared(h, fs, m)
    ensures (forall attempts :: CompleteFork(h, Crashed(h, fs, attempts)) == CompleteFork(h, fs)) <==> m.child != m.parent + PENDING
  {
    hide CompleteUpTo, Crashed;
    if m.child == m.parent + PENDING {
      ClashLosesChild(h, fs, m);
    } else {
      forall attempts ensures CompleteFork(h, Crashed(h, fs, attempts)) == CompleteFork(h, fs) {
        CrashesThenCompletes(h, fs, m, attempts);
      }
    }
  }

  /** Until a fork is complete, no branch of the store opens. */
  lemma RefusedUntilComplete(h: Host, fs: Files, m: ForkMarker, n: nat, branch: string, expected: Option<Octets>, repair: bool)
    requires PendingFork(h, fs) == Some(m) && Startable(fs, m) && n < 7
    ensures OpenBranch(h, CompleteUpTo(h, fs, n), branch, expected, repair) == Err(ForkIncomplete)
  {
    hide RunSteps, ReadMembers;
    MarkerStays(h, fs, m, n);
  }
}
