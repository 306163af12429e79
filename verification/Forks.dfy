/** Forking a branch: the files a fork prepares, and the renames that complete it. */
module Forks {
  import opened Bytes
  import opened Terms
  import opened Frames
  import opened FrameLog
  import opened TermStore
  import opened BranchText
  import opened Branches

  /** The content address of a segment. */
  type Digest = Octets -> string

  const PENDING := ".fork-new"
  const SNAPSHOT := ".snapshot"
  const TEMPORARY := ".tmp"

  /** One atomic file operation. `Seal` moves unless its target exists; `Install` moves if its source does. */
  datatype FileStep =
    | Put(path: Path, content: Content)
    | Delete(path: Path)
    | Install(from: Path, to: Path)
    | Seal(from: Path, to: Path)

  function MoveFile(fs: Files, from: Path, to: Path): Files
    requires from in fs
  {
    (fs - {from})[to := fs[from]]
  }

  function Apply(fs: Files, step: FileStep): Files {
    match step
    case Put(path, content) => fs[path := content]
    case Delete(path) => fs - {path}
    case Install(from, to) => if from in fs then MoveFile(fs, from, to) else fs
    case Seal(from, to) => if to !in fs && from in fs then MoveFile(fs, from, to) else fs
  }

  function RunSteps(fs: Files, steps: seq<FileStep>): Files
    decreases |steps|
  {
    if steps == [] then fs else Apply(RunSteps(fs, steps[..|steps| - 1]), steps[|steps| - 1])
  }

  // ----- completing a fork -----

  /** The renames of a fork, in order, then its two deletions. */
  function CompletionSteps(m: ForkMarker): (steps: seq<FileStep>)
    ensures |steps| == 7
  {
    var pt, ct, pr, cr := TailPath(m.parent), TailPath(m.child), RefPath(m.parent), RefPath(m.child);
    [Seal(pt, SegmentPath(m.segment)),
     Install(pt.Suffixed(PENDING), pt),
     Install(pr.Suffixed(PENDING), pr),
     Install(cr.Suffixed(PENDING), cr),
     Install(ct.Suffixed(PENDING), ct),
     Delete(pt.Suffixed(SNAPSHOT)),
     Delete(MARKER)]
  }

  /** The interrupted fork a marker names. */
  function PendingFork(h: Host, fs: Files): Option<ForkMarker> {
    if MARKER !in fs || !fs[MARKER].Document? then None else
    match ParseMarker(h, fs[MARKER].text)
    case Ok(m) => Some(m)
    case Err(_) => None
  }

  /** Completing the pending fork, if any, and crashing after `n` of its steps. */
  function CompleteUpTo(h: Host, fs: Files, n: nat): Files {
    match PendingFork(h, fs)
    case None => fs
    case Some(m) => RunSteps(fs, CompletionSteps(m)[..if n < 7 then n else 7])
  }

  function CompleteFork(h: Host, fs: Files): Files { CompleteUpTo(h, fs, 7) }

  /** Attempts to complete the fork, each crashing after the given number of steps. */
  function Crashed(h: Host, fs: Files, attempts: seq<nat>): Files
    decreases |attempts|
  {
    if attempts == [] then fs else
    CompleteUpTo(h, Crashed(h, fs, attempts[..|attempts| - 1]), attempts[|attempts| - 1])
  }

  // ----- preparing a fork -----

  /** What a fork will install: its marker and the new ref, with their texts, and the fresh tails. */
  datatype Plan = Plan(marker: ForkMarker, mark: Octets, document: RefDocument, ref: Octets, tail: Octets)

  /** The record of the parent tail as a sealed segment. */
  function RecordOf(digest: Digest, octets: Octets, frames: seq<Frame>): SegmentRecord {
    SegmentRecord(digest(octets), FirstSequence(frames), LastSequence(frames), |octets|)
  }

  predicate NamedIn(segments: seq<SegmentRecord>, sha: string) {
    exists i :: 0 <= i < |segments| && segments[i].sha == sha
  }

  /** The checks of a fork and what it will install. */
  function PlanFork(h: Host, digest: Digest, fs: Files, parent: string, child: string): Result<Plan> {
    if !ValidBranchName(parent) || !ValidBranchName(child) || parent == child then Err(InvalidBranchName) else
    if TailPath(child) in fs || RefPath(child) in fs then Err(BranchExists) else
    var document := ReadRef(h, fs, parent);
    if document.None? && parent != MAIN then Err(BranchMissing) else
    if document.Some? && document.value.Err? then Err(document.value.fault) else
    var parsed :- ReadLog(h, fs, TailPath(parent), true);
    var base := if document.Some? then document.value.value else RefDocument(parsed.header.space, []);
    if parsed.torn.Some? then Err(TornTail) else
    if parsed.header.space != base.space then Err(SpaceMismatch) else
    if parsed.header.continuation != (base.segments != []) then Err(InvalidBranchChain) else
    if TailPath(parent) !in fs || !fs[TailPath(parent)].Log? then Err(MissingFile) else
    var octets := fs[TailPath(parent)].octets;
    var record := RecordOf(digest, octets, parsed.frames);
    if !SegmentName(record.sha) then Err(InvalidSegmentName) else
    if NamedIn(base.segments, record.sha) then Err(SegmentAlreadySealed) else
    if |base.segments| >= MAX_CHAIN_LENGTH then Err(ChainTooLong) else
    var header := Header(parsed.header.space, parsed.deflate, true);
    if !ValidHeader(h, header) then Err(CorruptLog) else
    var marker, chain := ForkMarker(parent, child, record.sha), RefDocument(base.space, base.segments + [record]);
    Ok(Plan(marker, PrintMarker(h, marker), chain, PrintRef(h, chain), EncodeHeader(h, header)))
  }

  /** Writing a text file: whole under a temporary name, then moved into place. */
  function WriteText(p: Path, content: Content): seq<FileStep> {
    [Put(p.Suffixed(TEMPORARY), content), Install(p.Suffixed(TEMPORARY), p)]
  }

  /** Everything a fork prepares before its marker exists. */
  function PreparationSteps(plan: Plan): (steps: seq<FileStep>)
    ensures |steps| == 12
  {
    var m := plan.marker;
    var pt, ct := TailPath(m.parent).Suffixed(PENDING), TailPath(m.child).Suffixed(PENDING);
    var pr, cr := RefPath(m.parent).Suffixed(PENDING), RefPath(m.child).Suffixed(PENDING);
    [Delete(pt), Delete(ct), Delete(pr), Delete(cr), Put(pt, Log(plan.tail)), Put(ct, Log(plan.tail))]
      + WriteText(pr, Document(plan.ref)) + WriteText(cr, Document(plan.ref)) + WriteText(MARKER, Document(plan.mark))
  }

  /** Forks `parent` into `child`, completing any interrupted fork first. */
  function Fork(h: Host, digest: Digest, fs: Files, parent: string, child: string): (Files, Result<Plan>) {
    if MARKER in fs && PendingFork(h, fs).None? then (fs, Err(InvalidForkMarker)) else
    var clean := CompleteFork(h, fs);
    match PlanFork(h, digest, clean, parent, child)
    case Err(fault) => (clean, Err(fault))
    case Ok(plan) => (CompleteFork(h, RunSteps(clean, PreparationSteps(plan))), Ok(plan))
  }
}
