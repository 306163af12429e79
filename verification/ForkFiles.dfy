/** The files a fork leaves behind. */
module ForkFiles {
  import opened Bytes
  import opened Terms
  import opened BranchText
  import opened BranchTextRoundTrip
  import opened Branches
  import opened Forks
  import opened ForkCrash

  lemma AfterWrite(fs: Files, p: Path, content: Content, q: Path)
    ensures Get(RunSteps(fs, WriteText(p, content)), q) ==
      if q == p then Some(content) else if q == p.Suffixed(TEMPORARY) then None else Get(fs, q)
  {
    hide RunSteps, Apply;
    var steps := WriteText(p, content);
    assert steps[..2] == steps;
    assert RunSteps(fs, steps[..0]) == fs by { NoSteps(fs, steps[..0]); }
    RunNext(fs, steps, 0);
    RunNext(fs, steps, 1);
    GetStep(fs, steps[0], q);
    GetStep(fs, steps[0], p.Suffixed(TEMPORARY));
    GetStep(Apply(fs, steps[0]), steps[1], q);
    assert |p.Suffixed(TEMPORARY).name| == |p.name| + 4;
  }

  lemma NoSteps(fs: Files, steps: seq<FileStep>)
    requires steps == []
    ensures RunSteps(fs, steps) == fs
  {
  }

  function LogSteps(plan: Plan): seq<FileStep> {
    PreparationSteps(plan)[..6]
  }

  lemma AfterLogs(fs: Files, plan: Plan, q: Path)
    requires MarkerReads(plan.marker)
    ensures var m := plan.marker;
      Get(RunSteps(fs, LogSteps(plan)), q) ==
        if q == TailPath(m.parent).Suffixed(PENDING) || q == TailPath(m.child).Suffixed(PENDING) then Some(Log(plan.tail))
        else if q == RefPath(m.parent).Suffixed(PENDING) || q == RefPath(m.child).Suffixed(PENDING) then None
        else Get(fs, q)
  {
    hide RunSteps, Apply, MarkerReads;
    var steps := LogSteps(plan);
    Unroll4(fs, steps);
    RunNext(fs, steps, 4);
    RunNext(fs, steps, 5);
    assert steps[..6] == steps;
    var s1 := Apply(fs, steps[0]);
    var s2 := Apply(s1, steps[1]);
    var s3 := Apply(s2, steps[2]);
    var s4 := Apply(s3, steps[3]);
    GetStep(fs, steps[0], q);
    GetStep(s1, steps[1], q);
    GetStep(s2, steps[2], q);
    GetStep(s3, steps[3], q);
    GetStep(s4, steps[4], q);
    GetStep(Apply(s4, steps[4]), steps[5], q);
  }

  /** The paths a preparation writes. */
  predicate Staged(m: ForkMarker, q: Path) {
    var pr, cr := RefPath(m.parent).Suffixed(PENDING), RefPath(m.child).Suffixed(PENDING);
    || q == TailPath(m.parent).Suffixed(PENDING) || q == TailPath(m.child).Suffixed(PENDING)
    || q == pr || q == cr || q == pr.Suffixed(TEMPORARY) || q == cr.Suffixed(TEMPORARY)
    || q == MARKER || q == MARKER.Suffixed(TEMPORARY)
  }

  /** What a preparation leaves at each path. */
  function StagedContent(fs: Files, plan: Plan, q: Path): Option<Content> {
    var m := plan.marker;
    if q == MARKER then Some(Document(plan.mark)) else
    if q == TailPath(m.parent).Suffixed(PENDING) || q == TailPath(m.child).Suffixed(PENDING) then Some(Log(plan.tail)) else
    if q == RefPath(m.parent).Suffixed(PENDING) || q == RefPath(m.child).Suffixed(PENDING) then Some(Document(plan.ref)) else
    if Staged(m, q) then None else Get(fs, q)
  }

  lemma PendingIsNotTemporary(a: string, b: string)
    ensures a + PENDING != b + PENDING + TEMPORARY
  {
    var x, y := a + PENDING, b + PENDING + TEMPORARY;
    assert x[|x| - 1] == 'w' && y[|y| - 1] == 'p';
  }

  lemma AfterPreparation(fs: Files, plan: Plan, q: Path)
    requires MarkerReads(plan.marker)
    ensures Get(RunSteps(fs, PreparationSteps(plan)), q) == StagedContent(fs, plan, q)
  {
    hide RunSteps, MarkerReads;
    var m := plan.marker;
    var steps, logs := PreparationSteps(plan), LogSteps(plan);
    var pr, cr := RefPath(m.parent).Suffixed(PENDING), RefPath(m.child).Suffixed(PENDING);
    var wp, wc, wm := WriteText(pr, Document(plan.ref)), WriteText(cr, Document(plan.ref)), WriteText(MARKER, Document(plan.mark));
    assert steps == ((logs + wp) + wc) + wm;
    RunConcat(fs, (logs + wp) + wc, wm);
    RunConcat(fs, logs + wp, wc);
    RunConcat(fs, logs, wp);
    var s1 := RunSteps(fs, logs);
    var s2 := RunSteps(s1, wp);
    var s3 := RunSteps(s2, wc);
    AfterLogs(fs, plan, q);
    AfterWrite(s1, pr, Document(plan.ref), q);
    AfterWrite(s2, cr, Document(plan.ref), q);
    AfterWrite(s3, MARKER, Document(plan.mark), q);
    PendingIsNotTemporary(m.parent, m.child);
    PendingIsNotTemporary(m.child, m.parent);
    assert |MARKER.name| == 5 && |MARKER.Suffixed(TEMPORARY).name| == 9 && |STORE.Suffixed(PENDING).name| == 9;
    assert STORE.Suffixed(PENDING).name[5] == '-' && MARKER.Suffixed(TEMPORARY).name[5] == '.';
  }

  lemma PreparationIsPrepared(h: Host, fs: Files, plan: Plan)
    requires MarkerReads(plan.marker) && plan.mark == PrintMarker(h, plan.marker) && TailPath(plan.marker.parent) in fs
    ensures Prepared(h, RunSteps(fs, PreparationSteps(plan)), plan.marker)
  {
    hide RunSteps, MarkerReads, PreparationSteps, PrintMarker, ParseMarker;
    var m := plan.marker;
    MarkerRoundTripIff(h, m);
    AfterPreparation(fs, plan, MARKER);
    AfterPreparation(fs, plan, TailPath(m.parent));
    AfterPreparation(fs, plan, TailPath(m.parent).Suffixed(PENDING));
    AfterPreparation(fs, plan, TailPath(m.child).Suffixed(PENDING));
    AfterPreparation(fs, plan, RefPath(m.parent).Suffixed(PENDING));
    AfterPreparation(fs, plan, RefPath(m.child).Suffixed(PENDING));
    assert Get(fs, TailPath(m.parent)).Some?;
    TailIsNotMarker(m.parent);
  }

  lemma TailIsNotMarker(branch: string)
    ensures TailPath(branch) != MARKER && TailPath(branch) != MARKER.Suffixed(TEMPORARY)
  {
    assert |MARKER.name| == 5 && |MARKER.Suffixed(TEMPORARY).name| == 9;
  }

  // ----- after completion -----

  lemma {:induction false} UntouchedRun(fs: Files, steps: seq<FileStep>, q: Path)
    requires forall i :: 0 <= i < |steps| ==> !Creates(steps[i], q) && !Removes(steps[i], q)
    ensures Get(RunSteps(fs, steps), q) == Get(fs, q)
    decreases |steps|
  {
    hide Apply;
    if steps != [] {
      var n := |steps| - 1;
      UntouchedRun(fs, steps[..n], q);
      GetStep(RunSteps(fs, steps[..n]), steps[n], q);
    }
  }

  predicate Touches(step: FileStep, q: Path) {
    Creates(step, q) || Removes(step, q)
  }

  /** A step is the last to touch where it moves a file, and the first to touch where it moves it from. */
  lemma InstalledBy(fs: Files, steps: seq<FileStep>, i: nat)
    requires i < |steps| && steps[i].Install? && steps[i].from in fs
    requires forall j :: 0 <= j < i ==> !Touches(steps[j], steps[i].from)
    requires forall j :: i < j < |steps| ==> !Touches(steps[j], steps[i].to)
    ensures Get(RunSteps(fs, steps), steps[i].to) == Get(fs, steps[i].from)
  {
    hide RunSteps, Apply;
    var before := RunSteps(fs, steps[..i]);
    assert steps == (steps[..i] + [steps[i]]) + steps[i + 1..];
    RunConcat(fs, steps[..i] + [steps[i]], steps[i + 1..]);
    RunNext(fs, steps, i);
    assert steps[..i + 1] == steps[..i] + [steps[i]];
    UntouchedRun(fs, steps[..i], steps[i].from);
    GetStep(before, steps[i], steps[i].to);
    UntouchedRun(Apply(before, steps[i]), steps[i + 1..], steps[i].to);
  }

  /** A step removes a path and none after it brings it back. */
  lemma RemovedBy(fs: Files, steps: seq<FileStep>, i: nat, q: Path)
    requires i < |steps| && Removes(steps[i], q) && !Creates(steps[i], q) && !steps[i].Seal?
    requires forall j :: i < j < |steps| ==> !Touches(steps[j], q)
    ensures Get(RunSteps(fs, steps), q) == None
  {
    hide RunSteps, Apply;
    var before := RunSteps(fs, steps[..i]);
    assert steps == (steps[..i] + [steps[i]]) + steps[i + 1..];
    RunConcat(fs, steps[..i] + [steps[i]], steps[i + 1..]);
    RunNext(fs, steps, i);
    assert steps[..i + 1] == steps[..i] + [steps[i]];
    GetStep(before, steps[i], q);
    UntouchedRun(Apply(before, steps[i]), steps[i + 1..], q);
  }

  /** The branch's snapshot has the name of a branch's tail. */
  predicate SnapshotIsTail(m: ForkMarker) {
    m.parent != MAIN && m.child == m.parent + SNAPSHOT
  }

  /** The refs a completion leaves. */
  lemma FinalParentRef(fs: Files, m: ForkMarker)
    requires m.parent != m.child && RefPath(m.parent).Suffixed(PENDING) in fs
    ensures Get(RunSteps(fs, CompletionSteps(m)), RefPath(m.parent)) ==
      (if m.parent == m.child + PENDING then None else Get(fs, RefPath(m.parent).Suffixed(PENDING)))
  {
    var steps, p := CompletionSteps(m), RefPath(m.parent);
    forall j | 3 < j < 7 ensures !Touches(steps[j], p) {
      LateStepsKeepRef(m, m.parent, j);
    }
    if m.parent == m.child + PENDING {
      InstallTakesRef(m, p);
      hide *;
      RemovedBy(fs, steps, 3, p);
    } else {
      forall j | 0 <= j < 2 ensures !Touches(steps[j], p.Suffixed(PENDING)) {
        EarlyStepsKeepRef(m, m.parent + PENDING, j);
      }
      ChildRefStepKeeps(m);
      assert steps[2] == Install(p.Suffixed(PENDING), p);
      hide *;
      InstalledBy(fs, steps, 2);
    }
  }

  lemma LateStepsKeepRef(m: ForkMarker, branch: string, j: nat)
    requires 3 < j < 7
    ensures !Touches(CompletionSteps(m)[j], RefPath(branch))
  {
  }

  lemma EarlyStepsKeepRef(m: ForkMarker, branch: string, j: nat)
    requires j < 2
    ensures !Touches(CompletionSteps(m)[j], RefPath(branch))
  {
  }

  lemma ChildRefStepKeeps(m: ForkMarker)
    requires m.parent != m.child && m.parent != m.child + PENDING
    ensures !Touches(CompletionSteps(m)[3], RefPath(m.parent))
  {
  }

  lemma InstallTakesRef(m: ForkMarker, p: Path)
    requires m.parent == m.child + PENDING && p == RefPath(m.parent)
    ensures var step := CompletionSteps(m)[3]; Removes(step, p) && !Creates(step, p) && !step.Seal?
  {
    LongerName(RefPath(m.child), PENDING);
  }

  lemma FinalChildRef(fs: Files, m: ForkMarker)
    requires m.parent != m.child && m.parent != m.child + PENDING && RefPath(m.child).Suffixed(PENDING) in fs
    ensures Get(RunSteps(fs, CompletionSteps(m)), RefPath(m.child)) == Get(fs, RefPath(m.child).Suffixed(PENDING))
  {
    var steps, p := CompletionSteps(m), RefPath(m.child);
    forall j | 3 < j < 7 ensures !Touches(steps[j], p) {
      LateStepsKeepRef(m, m.child, j);
    }
    forall j | 0 <= j < 3 ensures !Touches(steps[j], p.Suffixed(PENDING)) {
      PendingChildRefUntouched(m, j);
    }
    assert steps[3] == Install(p.Suffixed(PENDING), p);
    hide *;
    InstalledBy(fs, steps, 3);
  }

  lemma PendingChildRefUntouched(m: ForkMarker, j: nat)
    requires m.parent != m.child && m.parent != m.child + PENDING && j < 3
    ensures !Touches(CompletionSteps(m)[j], RefPath(m.child).Suffixed(PENDING))
  {
    SuffixesDiffer(m.parent, m.child, PENDING);
  }

  lemma ParentTailUntouched(m: ForkMarker, j: nat)
    requires m.parent != m.child && m.parent != m.child + PENDING && 1 < j < 7
    ensures !Touches(CompletionSteps(m)[j], TailPath(m.parent))
  {
    LongerName(TailPath(m.parent), SNAPSHOT);
    TailIsNotMarker(m.parent);
    TailIsNotPending(m.parent, m.child);
  }

  lemma LongerName(p: Path, suffix: string)
    requires suffix != ""
    ensures p.Suffixed(suffix) != p
  {
    assert |p.Suffixed(suffix).name| > |p.name|;
  }

  lemma TailIsNotPending(a: string, b: string)
    requires a != b + PENDING
    ensures TailPath(b).Suffixed(PENDING) != TailPath(a)
  {
    assert |STORE.Suffixed(PENDING).name| == 9;
  }

  /** The tails a completion leaves. */
  lemma FinalParentTail(fs: Files, m: ForkMarker)
    requires m.parent != m.child && m.parent != m.child + PENDING && TailPath(m.parent).Suffixed(PENDING) in fs
    ensures Get(RunSteps(fs, CompletionSteps(m)), TailPath(m.parent)) == Get(fs, TailPath(m.parent).Suffixed(PENDING))
  {
    var steps, p := CompletionSteps(m), TailPath(m.parent);
    forall j | 1 < j < 7 ensures !Touches(steps[j], p) {
      ParentTailUntouched(m, j);
    }
    PathFacts(m);
    assert steps[1] == Install(p.Suffixed(PENDING), p) && !Touches(steps[0], p.Suffixed(PENDING));
    hide *;
    InstalledBy(fs, steps, 1);
  }

  lemma FinalChildTail(fs: Files, m: ForkMarker)
    requires m.parent != m.child && m.parent != m.child + PENDING && TailPath(m.child).Suffixed(PENDING) in fs
    ensures Get(RunSteps(fs, CompletionSteps(m)), TailPath(m.child)) ==
      (if SnapshotIsTail(m) then None else Get(fs, TailPath(m.child).Suffixed(PENDING)))
  {
    var steps, p := CompletionSteps(m), TailPath(m.child);
    TailIsNotMarker(m.child);
    assert !Touches(steps[6], p);
    if SnapshotIsTail(m) {
      hide Touches;
      assert Removes(steps[5], p) && !Creates(steps[5], p);
      RemovedBy(fs, steps, 5, p);
    } else {
      SnapshotIsNotTail(m);
      forall j | 0 <= j < 4 ensures !Touches(steps[j], p.Suffixed(PENDING)) {
        PendingChildTailUntouched(m, j);
      }
      assert steps[4] == Install(p.Suffixed(PENDING), p) && !Touches(steps[5], p);
      hide *;
      InstalledBy(fs, steps, 4);
    }
  }

  lemma SnapshotIsNotTail(m: ForkMarker)
    requires !SnapshotIsTail(m)
    ensures TailPath(m.parent).Suffixed(SNAPSHOT) != TailPath(m.child)
  {
    assert |STORE.Suffixed(SNAPSHOT).name| == 9;
  }

  lemma PendingChildTailUntouched(m: ForkMarker, j: nat)
    requires m.parent != m.child && m.parent != m.child + PENDING && j < 4
    ensures !Touches(CompletionSteps(m)[j], TailPath(m.child).Suffixed(PENDING))
  {
    TailIsNotPending(m.parent, m.child);
    if m.parent != MAIN && m.child != MAIN {
      SuffixesDiffer(m.parent, m.child, PENDING);
    }
    assert TailPath(m.parent).Suffixed(PENDING) != TailPath(m.child).Suffixed(PENDING);
  }

  /** The sealed segment holds what the parent tail held, unless it was there before. */
  lemma FinalSegment(fs: Files, m: ForkMarker, sha: string)
    requires TailPath(m.parent) in fs
    ensures Get(RunSteps(fs, CompletionSteps(m)), SegmentPath(sha)) ==
      if sha == m.segment && SegmentPath(sha) !in fs then Get(fs, TailPath(m.parent)) else Get(fs, SegmentPath(sha))
  {
    hide RunSteps, Apply;
    var steps, p := CompletionSteps(m), SegmentPath(sha);
    assert steps == [steps[0]] + steps[1..];
    RunConcat(fs, [steps[0]], steps[1..]);
    RunNext(fs, steps, 0);
    assert steps[..1] == [steps[0]] && steps[..0] == [];
    NoSteps(fs, steps[..0]);
    GetStep(fs, steps[0], p);
    UntouchedRun(Apply(fs, steps[0]), steps[1..], p);
  }

  lemma PathFacts(m: ForkMarker)
    ensures |PENDING| == 9 && |SNAPSHOT| == 9 && |MARKER.name| == 5 && PENDING[1] == 'f' && SNAPSHOT[1] == 's'
    ensures |m.parent + PENDING| == |m.parent| + 9 && |m.child + PENDING| == |m.child| + 9
    ensures |m.parent + SNAPSHOT| == |m.parent| + 9
    ensures STORE.Suffixed(PENDING).name == PENDING && STORE.Suffixed(SNAPSHOT).name == SNAPSHOT
    ensures m.parent + SNAPSHOT != m.child + PENDING && m.parent + SNAPSHOT != m.parent + PENDING
    ensures m.parent != m.child ==> m.parent + PENDING != m.child + PENDING
  {
    if m.parent != m.child {
      SuffixesDiffer(m.parent, m.child, PENDING);
    }
    var x, y := m.parent + SNAPSHOT, m.child + PENDING;
    assert x[|x| - 1] == 't' && y[|y| - 1] == 'w' && (m.parent + PENDING)[|m.parent| + 8] == 'w';
  }
}
