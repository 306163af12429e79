/** The file system a fork works on. */
module ForkVolume {
  import opened Bytes
  import opened Terms
  import opened BranchText
  import opened Branches
  import opened Forks
  import opened ForkCrash
  import opened ForkFiles

  class Volume {
    var files: Files

    method Delete(path: Path)
      modifies this
      ensures files == Apply(old(files), FileStep.Delete(path))
    {
      files := files - {path};
    }

    method MoveAtomically(from: Path, to: Path)
      requires from in files
      modifies this
      ensures files == MoveFile(old(files), from, to)
    {
      files := (files - {from})[to := files[from]];
    }

    method InstallPending(from: Path, to: Path)
      modifies this
      ensures files == Apply(old(files), Install(from, to))
    {
      if from in files {
        MoveAtomically(from, to);
      }
    }

    method WriteTextDurable(path: Path, content: Content)
      modifies this
      ensures files == RunSteps(old(files), WriteText(path, content))
    {
      var temporary := path.Suffixed(TEMPORARY);
      files := files[temporary := content];
      InstallPending(temporary, path);
      Twice(old(files), WriteText(path, content));
    }

    /** Seals the parent tail, installs what was prepared, and forgets the marker. */
    method Complete(m: ForkMarker) returns (ok: bool)
      modifies this
      ensures ok == Startable(old(files), m)
      ensures files == if ok then RunSteps(old(files), CompletionSteps(m)) else old(files)
    {
      hide Apply, RunSteps;
      var pt, ct, pr, cr := TailPath(m.parent), TailPath(m.child), RefPath(m.parent), RefPath(m.child);
      var sealed := SegmentPath(m.segment);
      ghost var start := files;
      if sealed !in files {
        if pt !in files {
          return false;
        }
        MoveAtomically(pt, sealed);
      }
      assert files == Apply(start, Seal(pt, sealed)) by { Sealing(start, pt, sealed); }
      InstallPending(pt.Suffixed(PENDING), pt);
      InstallPending(pr.Suffixed(PENDING), pr);
      InstallPending(cr.Suffixed(PENDING), cr);
      InstallPending(ct.Suffixed(PENDING), ct);
      Delete(pt.Suffixed(SNAPSHOT));
      Delete(MARKER);
      Unroll4(start, CompletionSteps(m));
      Unroll7(start, CompletionSteps(m));
      return true;
    }

    /** Prepares every file of a fork and puts its marker up last. */
    method Prepare(plan: Plan)
      modifies this
      ensures files == RunSteps(old(files), PreparationSteps(plan))
    {
      hide Apply, RunSteps, WriteText;
      var m := plan.marker;
      var pt, ct := TailPath(m.parent).Suffixed(PENDING), TailPath(m.child).Suffixed(PENDING);
      var pr, cr := RefPath(m.parent).Suffixed(PENDING), RefPath(m.child).Suffixed(PENDING);
      ghost var start, steps, logs := files, PreparationSteps(plan), LogSteps(plan);
      Delete(pt);
      Delete(ct);
      Delete(pr);
      Delete(cr);
      Create(pt, plan.tail);
      Create(ct, plan.tail);
      Unroll4(start, logs);
      RunNext(start, logs, 4);
      RunNext(start, logs, 5);
      assert logs[..6] == logs;
      WriteTextDurable(pr, Document(plan.ref));
      WriteTextDurable(cr, Document(plan.ref));
      WriteTextDurable(MARKER, Document(plan.mark));
      var wp, wc, wm := WriteText(pr, Document(plan.ref)), WriteText(cr, Document(plan.ref)), WriteText(MARKER, Document(plan.mark));
      assert steps == ((logs + wp) + wc) + wm by { Grouped(plan); }
      RunConcat(start, (logs + wp) + wc, wm);
      RunConcat(start, logs + wp, wc);
      RunConcat(start, logs, wp);
    }

    /** A header-only log, moved into place whole. */
    method Create(path: Path, octets: Octets)
      modifies this
      ensures files == Apply(old(files), Put(path, Log(octets)))
    {
      files := files[path := Log(octets)];
    }
  }

  lemma Grouped(plan: Plan)
    ensures var m := plan.marker;
      var wp, wc := WriteText(RefPath(m.parent).Suffixed(PENDING), Document(plan.ref)),
                    WriteText(RefPath(m.child).Suffixed(PENDING), Document(plan.ref));
      PreparationSteps(plan) == ((LogSteps(plan) + wp) + wc) + WriteText(MARKER, Document(plan.mark))
  {
  }

  lemma Sealing(fs: Files, from: Path, to: Path)
    ensures to in fs ==> Apply(fs, Seal(from, to)) == fs
    ensures to !in fs && from in fs ==> Apply(fs, Seal(from, to)) == MoveFile(fs, from, to)
  {
  }

  lemma Twice(fs: Files, steps: seq<FileStep>)
    requires |steps| == 2
    ensures RunSteps(fs, steps) == Apply(Apply(fs, steps[0]), steps[1])
  {
    hide Apply;
    assert steps[..2] == steps;
    NoSteps(fs, steps[..0]);
    RunNext(fs, steps, 0);
    RunNext(fs, steps, 1);
  }
}
