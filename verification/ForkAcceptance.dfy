/** When a fork is accepted, said of the files it finds. */
module ForkAcceptance {
  import opened Bytes
  import opened Terms
  import opened Frames
  import opened FrameLog
  import opened RoundTrip
  import opened TermStore
  import opened Durability
  import opened GroupCommit
  import opened BranchText
  import opened BranchTextRoundTrip
  import opened Branches
  import opened Forks
  import opened ForkCrash
  import opened ForkFiles
  import opened ForkOutcome
  import opened ForkHistory
  import opened ForkWitnesses

  // ----- what is asked of the files -----

  predicate NamesUsable(parent: string, child: string) {
    ValidBranchName(parent) && ValidBranchName(child) && parent != child
  }

  predicate ChildFree(fs: Files, child: string) {
    TailPath(child) !in fs && RefPath(child) !in fs
  }

  /** The parent has a ref that parses, or is the main branch of a store that has never forked. */
  predicate HasChain(h: Host, fs: Files, parent: string) {
    if RefPath(parent) in fs then fs[RefPath(parent)].Document? && ParseRef(h, fs[RefPath(parent)].text).Ok? else parent == MAIN
  }

  function SegmentsBefore(h: Host, fs: Files, parent: string): seq<SegmentRecord>
    requires HasChain(h, fs, parent)
  {
    if RefPath(parent) in fs then ParseRef(h, fs[RefPath(parent)].text).value.segments else []
  }

  predicate HasTail(h: Host, fs: Files, branch: string) {
    TailPath(branch) in fs && fs[TailPath(branch)].Log? && ParseLog(h, fs[TailPath(branch)].octets, true).Ok?
  }

  predicate SameSpace(h: Host, fs: Files, parent: string)
    requires HasChain(h, fs, parent) && HasTail(h, fs, parent)
  {
    RefPath(parent) in fs ==>
      ParseRef(h, fs[RefPath(parent)].text).value.space == ParseLog(h, fs[TailPath(parent)].octets, true).value.header.space
  }

  /** The tail reads clean, belongs to the ref's space, and says it continues a chain exactly when it does. */
  predicate TailFollows(h: Host, fs: Files, parent: string)
    requires HasChain(h, fs, parent) && HasTail(h, fs, parent)
  {
    var p := ParseLog(h, fs[TailPath(parent)].octets, true).value;
    && p.torn.None? && SameSpace(h, fs, parent)
    && (p.header.continuation <==> SegmentsBefore(h, fs, parent) != [])
  }

  /** The tail's digest can name one more segment of the chain. */
  predicate CanSeal(h: Host, digest: Digest, fs: Files, parent: string)
    requires HasChain(h, fs, parent) && HasTail(h, fs, parent)
  {
    var sha, before := digest(fs[TailPath(parent)].octets), SegmentsBefore(h, fs, parent);
    SegmentName(sha) && (forall i :: 0 <= i < |before| ==> before[i].sha != sha) && |before| < 64
  }

  predicate Acceptable(h: Host, digest: Digest, fs: Files, parent: string, child: string) {
    && NamesUsable(parent, child) && ChildFree(fs, child)
    && HasChain(h, fs, parent) && HasTail(h, fs, parent)
    && TailFollows(h, fs, parent) && CanSeal(h, digest, fs, parent)
  }

  lemma ReadHeaderIsValid(h: Host, b: Octets)
    requires ParseLog(h, b, true).Ok?
    ensures var p := ParseLog(h, b, true).value; ValidHeader(h, p.header.(deflate := p.deflate, continuation := true))
  {
    hide ScanFrom, ParseHeader, EncodeHeader;
    HeaderCanonical(h, b, true);
  }

  /** A fork is planned exactly when the files allow it. */
  lemma PlannedIff(h: Host, digest: Digest, fs: Files, parent: string, child: string)
    ensures PlanFork(h, digest, fs, parent, child).Ok? <==> Acceptable(h, digest, fs, parent, child)
  {
    hide ParseLog, ParseRef, PrintRef, PrintMarker, ValidBranchName, SegmentName, EncodeHeader, ValidHeader;
    if HasTail(h, fs, parent) {
      ReadHeaderIsValid(h, fs[TailPath(parent)].octets);
    }
  }

  /** So a call succeeds exactly when the files allow it once any interrupted fork has been completed. It then
      leaves the planned fork complete; refused, it has changed nothing else; and a marker that cannot be read
      stops it before anything. */
  lemma ForkSucceedsIff(h: Host, digest: Digest, fs: Files, parent: string, child: string)
    ensures var r, clean := Fork(h, digest, fs, parent, child), CompleteFork(h, fs);
      if MARKER in fs && PendingFork(h, fs).None? then r == (fs, Err(InvalidForkMarker)) else
      && (r.1.Ok? <==> Acceptable(h, digest, clean, parent, child))
      && (r.1.Ok? ==> r.1.value.marker.parent == parent && r.1.value.marker.child == child && r.0 == Forked(h, clean, r.1.value))
      && (r.1.Err? ==> r.0 == clean)
  {
    PlannedIff(h, digest, CompleteFork(h, fs), parent, child);
    NamesPlanned(h, digest, CompleteFork(h, fs), parent, child);
    hide PlanFork, CompleteUpTo, RunSteps, PreparationSteps, Acceptable;
  }

  lemma NamesPlanned(h: Host, digest: Digest, fs: Files, parent: string, child: string)
    ensures var r := PlanFork(h, digest, fs, parent, child);
      r.Ok? ==> r.value.marker.parent == parent && r.value.marker.child == child
  {
    hide ParseLog, ParseRef, PrintRef, PrintMarker, ValidBranchName, SegmentName, EncodeHeader, ValidHeader;
  }

  /** Which cause gives which refusal, each as far as the causes before it do not hold. */
  lemma RefusedBecause(h: Host, digest: Digest, fs: Files, parent: string, child: string)
    ensures var r := PlanFork(h, digest, fs, parent, child);
      && (!NamesUsable(parent, child) ==> r == Err(InvalidBranchName))
      && (NamesUsable(parent, child) && !ChildFree(fs, child) ==> r == Err(BranchExists))
      && (NamesUsable(parent, child) && ChildFree(fs, child) ==> Sealing(h, digest, fs, parent, r))
  {
    hide ParseLog, ParseRef, PrintRef, PrintMarker, ValidBranchName, SegmentName, EncodeHeader, ValidHeader;
    if HasTail(h, fs, parent) {
      ReadHeaderIsValid(h, fs[TailPath(parent)].octets);
    }
  }

  /** The refusals of a fork between usable names. */
  ghost predicate Sealing(h: Host, digest: Digest, fs: Files, parent: string, r: Result<Plan>) {
    && (RefPath(parent) !in fs && parent != MAIN ==> r == Err(BranchMissing))
    && (RefPath(parent) in fs && fs[RefPath(parent)].Document? && ParseRef(h, fs[RefPath(parent)].text).Err? ==>
          r == Err(ParseRef(h, fs[RefPath(parent)].text).fault))
    && (HasChain(h, fs, parent) && TailPath(parent) !in fs ==> r == Err(MissingFile))
    && (HasChain(h, fs, parent) && TailPath(parent) in fs && fs[TailPath(parent)].Log?
        && ParseLog(h, fs[TailPath(parent)].octets, true).Err? ==>
          r == Err(ParseLog(h, fs[TailPath(parent)].octets, true).fault))
    && (HasChain(h, fs, parent) && HasTail(h, fs, parent) ==> SealingTail(h, digest, fs, parent, r))
  }

  ghost predicate SealingTail(h: Host, digest: Digest, fs: Files, parent: string, r: Result<Plan>)
    requires HasChain(h, fs, parent) && HasTail(h, fs, parent)
  {
    var p := ParseLog(h, fs[TailPath(parent)].octets, true).value;
    var before, sha := SegmentsBefore(h, fs, parent), digest(fs[TailPath(parent)].octets);
    && (p.torn.Some? ==> r == Err(Fault.TornTail))
    && (p.torn.None? && !SameSpace(h, fs, parent) ==> r == Err(SpaceMismatch))
    && (p.torn.None? && SameSpace(h, fs, parent) && !TailFollows(h, fs, parent) ==> r == Err(InvalidBranchChain))
    && (TailFollows(h, fs, parent) && !SegmentName(sha) ==> r == Err(InvalidSegmentName))
    && (TailFollows(h, fs, parent) && SegmentName(sha) && NamedIn(before, sha) ==> r == Err(SegmentAlreadySealed))
    && (TailFollows(h, fs, parent) && SegmentName(sha) && !NamedIn(before, sha) && |before| >= 64 ==> r == Err(ChainTooLong))
  }

  // ----- forking a branch that has forked -----

  /** What the files of a branch say once it has forked or been forked into. */
  lemma FreshAllows(h: Host, digest: Digest, gs: Files, branch: string, plan: Plan, header: Header, other: string)
    requires h.Valid() && FreshBranch(gs, branch, plan) && ParseRef(h, plan.ref) == Ok(plan.document)
    requires ValidHeader(h, header) && header.continuation && plan.tail == EncodeHeader(h, header)
    requires header.space == plan.document.space && plan.document.segments != []
    ensures HasChain(h, gs, branch) && HasTail(h, gs, branch) && TailFollows(h, gs, branch)
    ensures SegmentsBefore(h, gs, branch) == plan.document.segments && gs[TailPath(branch)].octets == plan.tail
  {
    hide ParseLog, ParseRef, PrintRef, ValidBranchName, SegmentName, EncodeHeader, ValidHeader;
    FreshTailReads(h, header);
    assert Get(gs, RefPath(branch)).Some? && Get(gs, TailPath(branch)).Some?;
  }

  /** After a fork that opens, parent and child can each be forked again into any usable name that is free,
      while fewer than 64 segments are sealed and the fresh tail is not the content of one of them. */
  lemma ForksAgainIff(h: Host, digest: Digest, fs: Files, parent: string, child: string, plan: Plan,
                      expected: Option<Octets>, branch: string, other: string)
    requires h.Valid() && PlanFork(h, digest, fs, parent, child) == Ok(plan)
    requires OpenBranch(h, fs, parent, expected, false).Ok? && NoCollision(fs, plan)
    requires NamesApart(plan.marker) && Printable(plan) && StartsChain(h, fs, plan)
    requires branch == parent || branch == child
    ensures var gs, before := Forked(h, fs, plan), plan.document.segments;
      PlanFork(h, digest, gs, branch, other).Ok? <==>
        (ValidBranchName(other) && other != branch && ChildFree(gs, other) && |before| < 64
         && SegmentName(digest(plan.tail)) && !NamedIn(before, digest(plan.tail)))
  {
    hide *;
    assert MARKER !in fs by { OpenHasNoMarker(h, fs, parent, expected, false); }
    var base, octets, p := PlanFacts(h, digest, fs, parent, child, plan);
    var ms := ParentFacts(h, digest, fs, plan, base, octets, p, expected, false);
    var gs := Forked(h, fs, plan);
    PlanningIsPlanned(h, digest, fs, plan, base, octets, p);
    BothFresh(h, fs, plan);
    RefReadsIff(h, digest, fs, plan, base, octets, p, ms, OpenBranch(h, fs, parent, expected, false).value.store);
    RefRoundTripIff(h, plan.document);
    PlanSays(h, digest, fs, plan, base, octets, p);
    FreshAllows(h, digest, gs, branch, plan, Header(base.space, p.header.deflate, true), other);
    PlannedIff(h, digest, gs, branch, other);
    FreshAcceptable(h, digest, gs, branch, plan, other);
  }

  lemma PlanSays(h: Host, digest: Digest, fs: Files, plan: Plan, base: RefDocument, octets: Octets, p: Parsed)
    requires Planning(h, digest, fs, plan, base, octets, p)
    ensures plan.ref == PrintRef(h, plan.document) && plan.document.space == base.space && plan.document.segments != []
    ensures ValidHeader(h, Header(base.space, p.header.deflate, true))
    ensures plan.tail == EncodeHeader(h, Header(base.space, p.header.deflate, true))
  {
    hide ParseLog, EncodeHeader, PrintRef, PrintMarker;
  }

  lemma FreshAcceptable(h: Host, digest: Digest, gs: Files, branch: string, plan: Plan, other: string)
    requires HasChain(h, gs, branch) && HasTail(h, gs, branch) && TailFollows(h, gs, branch)
    requires SegmentsBefore(h, gs, branch) == plan.document.segments && gs[TailPath(branch)].octets == plan.tail
    requires FreshBranch(gs, branch, plan)
    ensures Acceptable(h, digest, gs, branch, other) <==>
      (ValidBranchName(other) && other != branch && ChildFree(gs, other) && |plan.document.segments| < 64
       && SegmentName(digest(plan.tail)) && !NamedIn(plan.document.segments, digest(plan.tail)))
  {
    hide ParseLog, ParseRef, ValidBranchName, SegmentName, HasChain, HasTail, TailFollows, SegmentsBefore;
  }

  /** A branch whose tail still is what a fork left there forks once: after that neither side of the fork can be
      forked until something is committed to it, for its tail would be sealed a second time. */
  lemma UntouchedForksOnce(h: Host, digest: Digest, fs: Files, parent: string, child: string, plan: Plan,
                           expected: Option<Octets>, branch: string, other: string)
    requires h.Valid() && PlanFork(h, digest, fs, parent, child) == Ok(plan)
    requires OpenBranch(h, fs, parent, expected, false).Ok? && NoCollision(fs, plan)
    requires NamesApart(plan.marker) && Printable(plan) && StartsChain(h, fs, plan)
    requires branch == parent || branch == child
    requires Get(fs, TailPath(parent)) == Some(Log(plan.tail))
    ensures PlanFork(h, digest, Forked(h, fs, plan), branch, other).Err?
  {
    hide *;
    assert MARKER !in fs by { OpenHasNoMarker(h, fs, parent, expected, false); }
    var base, octets, p := PlanFacts(h, digest, fs, parent, child, plan);
    SealsTheTail(h, digest, fs, plan, base, octets, p);
    ForksAgainIff(h, digest, fs, parent, child, plan, expected, branch, other);
  }

  lemma SealsTheTail(h: Host, digest: Digest, fs: Files, plan: Plan, base: RefDocument, octets: Octets, p: Parsed)
    requires Planning(h, digest, fs, plan, base, octets, p) && Get(fs, TailPath(plan.marker.parent)) == Some(Log(plan.tail))
    ensures NamedIn(plan.document.segments, digest(plan.tail))
  {
    hide ParseLog, EncodeHeader, PrintRef, PrintMarker, ValidHeader;
    assert plan.document.segments[|base.segments|].sha == digest(plan.tail);
  }

  const OTHER := "other"

  lemma OtherIsFree(h: Host, digest: Digest, header: Header, plan: Plan)
    requires NewStoreOf(h, digest, header) && Planned(h, NewFiles(h, header), plan)
    requires plan.marker.parent == MAIN && plan.marker.child == CHILD
    ensures ValidBranchName(OTHER) && OTHER != MAIN && ChildFree(Forked(h, NewFiles(h, header), plan), OTHER)
  {
    hide Forked, Planned, EncodeHeader, SegmentName;
    assert |OTHER| == 5 && |CHILD| == 5 && |MAIN| == 4 && |PENDING| == 9 && |TEMPORARY| == 4 && OTHER[0] == 'o' && CHILD[0] == 'c';
    var fs := NewFiles(h, header);
    OtherTailKept(h, fs, plan, OTHER);
    OtherRefKept(h, fs, plan, OTHER);
    assert TailPath(OTHER) !in fs && RefPath(OTHER) !in fs;
  }

  /** A new store forks `main` into `child` and then, with nothing committed between, into `other`. */
  lemma NewStoreForksTwice(h: Host, digest: Digest, header: Header) returns (first: Plan, second: Plan)
    requires NewStoreOf(h, digest, header) && OneLine(header.space)
    requires SegmentName(digest(EncodeHeader(h, header.(continuation := true))))
    requires digest(EncodeHeader(h, header.(continuation := true))) != digest(EncodeHeader(h, header))
    ensures PlanFork(h, digest, NewFiles(h, header), MAIN, CHILD) == Ok(first)
    ensures PlanFork(h, digest, Forked(h, NewFiles(h, header), first), MAIN, OTHER) == Ok(second)
  {
    hide *;
    NewStoreFacts(h, digest, header);
    ChildIsValid();
    first := FirstForkPlans(h, digest, header, CHILD);
    NewForkOpens(h, digest, header, first);
    var fs := NewFiles(h, header);
    OnlyTheLog(h, header);
    var base, octets, p := PlanFacts(h, digest, fs, MAIN, CHILD, first);
    PlanningIsPlanned(h, digest, fs, first, base, octets, p);
    OtherIsFree(h, digest, header, first);
    ForksAgainIff(h, digest, fs, MAIN, CHILD, first, None, MAIN, OTHER);
    OneSegment(first.document.segments, first.marker.segment, first.document.segments[0], digest(first.tail));
    second := PlanFork(h, digest, Forked(h, fs, first), MAIN, OTHER).value;
  }

  lemma OnlyTheLog(h: Host, header: Header)
    requires ValidHeader(h, header)
    ensures MARKER !in NewFiles(h, header)
  {
  }

  lemma OneSegment(segments: seq<SegmentRecord>, sha: string, record: SegmentRecord, name: string)
    requires segments == [record] && record.sha == sha && name != sha
    ensures !NamedIn(segments, name) && |segments| < 64
  {
  }
}
