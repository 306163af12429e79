/** After a fork, parent and child open on exactly the history the parent had. */
module ForkHistory {
  import opened Bytes
  import opened Terms
  import opened Frames
  import opened FrameLog
  import opened RoundTrip
  import opened TermStore
  import opened Durability
  import opened Fence
  import opened GroupCommit
  import opened BranchText
  import opened BranchTextRoundTrip
  import opened Branches
  import opened Forks
  import opened ForkCrash
  import opened ForkFiles
  import opened ForkOutcome

  /** The chain a branch has before it is forked. */
  function BaseOf(h: Host, fs: Files, branch: string, space: Octets): RefDocument {
    match ReadRef(h, fs, branch)
    case Some(Ok(d)) => d
    case _ => RefDocument(space, [])
  }

  /** A planned fork: its parent's chain `base`, its tail octets and what they read as. */
  ghost predicate Planning(h: Host, digest: Digest, fs: Files, plan: Plan, base: RefDocument, octets: Octets, p: Parsed) {
    var m := plan.marker;
    && MarkerReads(m) && plan.mark == PrintMarker(h, m) && plan.ref == PrintRef(h, plan.document) && MARKER !in fs
    && (ReadRef(h, fs, m.parent).None? ==> m.parent == MAIN && base == RefDocument(p.header.space, []))
    && (ReadRef(h, fs, m.parent).Some? ==> ReadRef(h, fs, m.parent).value == Ok(base))
    && TailPath(m.parent) in fs && fs[TailPath(m.parent)] == Log(octets) && ParseLog(h, octets, true) == Ok(p)
    && p.torn.None? && p.header.space == base.space && p.header.continuation == (base.segments != [])
    && ValidHeader(h, Header(base.space, p.header.deflate, true))
    && plan.tail == EncodeHeader(h, Header(base.space, p.header.deflate, true))
    && plan.document == RefDocument(base.space, base.segments + [RecordOf(digest, octets, p.frames)])
    && m.segment == digest(octets)
    && |base.segments| < MAX_CHAIN_LENGTH
    && !NamedIn(base.segments, m.segment) && GoodSegments(base.segments)
  }

  lemma PlanFacts(h: Host, digest: Digest, fs: Files, parent: string, child: string, plan: Plan)
    returns (base: RefDocument, octets: Octets, p: Parsed)
    requires MARKER !in fs && PlanFork(h, digest, fs, parent, child) == Ok(plan)
    ensures plan.marker.parent == parent && plan.marker.child == child
    ensures Planning(h, digest, fs, plan, base, octets, p)
  {
    hide ParseLog, ParseRef, PrintRef, PrintMarker, ParseMarker, ValidBranchName, EncodeHeader, ValidHeader;
    octets := fs[TailPath(parent)].octets;
    p := ParseLog(h, octets, true).value;
    base := BaseOf(h, fs, parent, p.header.space);
    CleanKeepsDeflate(h, octets);
    if ReadRef(h, fs, parent).Some? {
      ParsedReads(h, fs[RefPath(parent)].text);
    }
  }

  lemma CleanKeepsDeflate(h: Host, octets: Octets)
    ensures ParseLog(h, octets, true).Ok? && ParseLog(h, octets, true).value.torn.None? ==>
      ParseLog(h, octets, true).value.deflate == ParseLog(h, octets, true).value.header.deflate
  {
    hide ScanFrom, ParseHeader;
  }

  // ----- the parent before the fork -----

  /** What opening the parent read: its sealed members fit, and its frames replay to `s`. */
  ghost predicate OpensOn(h: Host, fs: Files, base: RefDocument, t: Member, ms: seq<Member>, s: Store) {
    && ReadMembers(h, fs, base.segments) == Ok(ms) && |ms| == |base.segments| && SealedFit(base, ms)
    && ReplayAll(NewStore(base.space), MemberFrames(ms) + t.parsed.frames) == Ok(s)
  }

  lemma ParentFacts(h: Host, digest: Digest, fs: Files, plan: Plan, base: RefDocument, octets: Octets, p: Parsed,
                    expected: Option<Octets>, repair: bool) returns (ms: seq<Member>)
    requires Planning(h, digest, fs, plan, base, octets, p) && OpenBranch(h, fs, plan.marker.parent, expected, repair).Ok?
    ensures OpensOn(h, fs, base, Member(p, |octets|), ms, OpenBranch(h, fs, plan.marker.parent, expected, repair).value.store)
    ensures var before := OpenBranch(h, fs, plan.marker.parent, expected, repair).value;
      before == Db(base.space, before.store, Some(octets), p.header.deflate, None, Ready)
    ensures expected.Some? ==> expected.value == base.space
    ensures ReadRef(h, fs, plan.marker.parent).Some? ==> Follows(Member(p, |octets|), ms)
  {
    hide ParseLog, ReplayAll, RefReads, ParseRef, PrintRef, PrintMarker, MarkerReads, ValidBranchName, EncodeHeader, ValidHeader;
    CleanKeepsDeflate(h, octets);
    if ReadRef(h, fs, plan.marker.parent).None? {
      ms := [];
      AsChainMember(h, octets);
      assert [] + p.frames == p.frames;
    } else {
      ms := ReadMembers(h, fs, base.segments).value;
    }
  }

  // ----- the chain after the fork -----

  lemma SealedReads(h: Host, digest: Digest, fs: Files, plan: Plan, base: RefDocument, octets: Octets, p: Parsed, ms: seq<Member>, gs: Files)
    requires Planning(h, digest, fs, plan, base, octets, p) && ReadMembers(h, fs, base.segments) == Ok(ms)
    requires SegmentsKept(fs, gs) && Get(gs, SegmentPath(plan.marker.segment)) == Some(Log(octets))
    ensures ReadMembers(h, gs, plan.document.segments) == Ok(ms + [Member(p, |octets|)])
  {
    hide ParseLog, SegmentsKept;
    MembersKept(h, fs, gs, base.segments);
    var segments := plan.document.segments;
    assert segments[..|segments| - 1] == base.segments;
  }

  /** The longer chain fits exactly when the old tail follows the sealed segments before it. */
  lemma SealedFitIff(base: RefDocument, document: RefDocument, ms: seq<Member>, t: Member, record: SegmentRecord)
    requires |ms| == |base.segments| && SealedFit(base, ms)
    requires document == RefDocument(base.space, base.segments + [record])
    requires t.parsed.header.space == base.space && t.parsed.torn.None? && t.parsed.header.continuation == (ms != [])
    requires record.bytes == t.bytes && record.first == t.First() && record.last == t.Last()
    ensures SealedFit(document, ms + [t]) <==> Follows(t, ms)
  {
    hide Follows;
    var all, n := ms + [t], |ms|;
    assert all[..n] == ms && document.segments[n] == record;
    forall i | 0 <= i < n ensures MemberFits(document.space, document.segments[i], all[..i], all[i]) {
      assert all[..i] == ms[..i] && document.segments[i] == base.segments[i];
      assert MemberFits(base.space, base.segments[i], ms[..i], ms[i]);
    }
    if SealedFit(document, all) {
      assert MemberFits(document.space, document.segments[n], all[..n], all[n]);
    }
  }

  /** A branch whose ref names that chain and whose tail is fresh. */
  ghost predicate FreshBranch(gs: Files, branch: string, plan: Plan) {
    && MARKER !in gs && ValidBranchName(branch)
    && Get(gs, RefPath(branch)) == Some(Document(plan.ref)) && Get(gs, TailPath(branch)) == Some(Log(plan.tail))
  }

  lemma FreshTailReads(h: Host, header: Header)
    requires h.Valid() && ValidHeader(h, header)
    ensures ParseLog(h, EncodeHeader(h, header), true)
      == Ok(Parsed(header, header.deflate, 16 + |header.space|, [], [], None))
  {
    hide ParseLog, EncodeHeader, FrameEnds;
    LogRoundTrip(h, header, [], true);
    NoFramesEncoded(h, header);
  }

  lemma NoFramesEncoded(h: Host, header: Header)
    requires ValidHeader(h, header)
    ensures AllWritable(h, [], header.deflate) && EncodeLog(h, header, []) == EncodeHeader(h, header)
    ensures FrameEnds(h, [], 16 + |header.space|, header.deflate) == []
  {
    hide EncodeHeader;
  }

  /** Such a branch opens exactly when its ref reads and the sealed tail follows the chain; it then opens on
      the parent's history, ready to write. */
  lemma FreshBranchOpensIff(h: Host, digest: Digest, fs: Files, plan: Plan, base: RefDocument, octets: Octets, p: Parsed,
                            ms: seq<Member>, s: Store, gs: Files, branch: string, expected: Option<Octets>, repair: bool)
    requires h.Valid() && Planning(h, digest, fs, plan, base, octets, p) && OpensOn(h, fs, base, Member(p, |octets|), ms, s)
    requires FreshBranch(gs, branch, plan) && ReadMembers(h, gs, plan.document.segments) == Ok(ms + [Member(p, |octets|)])
    requires expected.Some? ==> expected.value == base.space
    ensures var r := OpenBranch(h, gs, branch, expected, repair);
      && (r.Ok? <==> RefReads(plan.document) && Follows(Member(p, |octets|), ms))
      && (r.Ok? ==> r.value == Db(base.space, s, Some(plan.tail), p.header.deflate, None, Ready))
  {
    hide ParseLog, ReplayAll, RefReads, ParseRef, PrintRef, PrintMarker, MarkerReads, ValidBranchName, EncodeHeader,
      ValidHeader, SealedFit, ReadMembers, GoodSegments, SegmentName;
    var t := Member(p, |octets|);
    var header := Header(base.space, p.header.deflate, true);
    FreshTailReads(h, header);
    SealedFitIff(base, plan.document, ms, t, RecordOf(digest, octets, p.frames));
    assert (ms + [t])[..|ms|] == ms;
    assert MemberFrames(ms + [t]) + [] == MemberFrames(ms) + p.frames;
    NewNamesAreDigests(h, digest, fs, plan, base, octets, p);
    PrintedRefReads(h, plan.document);
  }

  lemma NewNamesAreDigests(h: Host, digest: Digest, fs: Files, plan: Plan, base: RefDocument, octets: Octets, p: Parsed)
    requires Planning(h, digest, fs, plan, base, octets, p)
    ensures forall i :: 0 <= i < |plan.document.segments| ==> SegmentName(plan.document.segments[i].sha)
  {
    hide ParseLog, PrintRef, PrintMarker, ParseRef, EncodeHeader, ValidHeader, SegmentName, ValidBranchName;
    assert SegmentName(plan.marker.segment);
    assert plan.document.segments[|base.segments|].sha == plan.marker.segment;
  }

  // ----- the files of parent and child -----

  /** Neither branch uses the other's name for its own files. */
  predicate NamesApart(m: ForkMarker) {
    m.parent != m.child + PENDING && !SnapshotIsTail(m)
  }

  /** A sealed segment with the tail's content address holds the tail's content. */
  predicate NoCollision(fs: Files, plan: Plan) {
    var sealed, tail := SegmentPath(plan.marker.segment), TailPath(plan.marker.parent);
    sealed in fs && tail in fs ==> fs[sealed] == fs[tail]
  }

  lemma SealedContent(h: Host, digest: Digest, fs: Files, plan: Plan, base: RefDocument, octets: Octets, p: Parsed)
    requires Planning(h, digest, fs, plan, base, octets, p) && NoCollision(fs, plan)
    requires plan.marker.parent != plan.marker.child + PENDING
    ensures Get(Forked(h, fs, plan), SegmentPath(plan.marker.segment)) == Some(Log(octets))
  {
    hide ParseLog, RunSteps, PreparationSteps, CompletionSteps, EncodeHeader, ValidHeader, RefReads, ParseRef, PrintRef, PrintMarker, MarkerReads, Forked;
    var m := plan.marker;
    var mid := RunSteps(fs, PreparationSteps(plan));
    ForkedRuns(h, fs, plan);
    FinalSegment(mid, m, m.segment);
    AfterPreparation(fs, plan, SegmentPath(m.segment));
    AfterPreparation(fs, plan, TailPath(m.parent));
    TailIsNotMarker(m.parent);
    TailNotStaged(m);
    assert Get(fs, TailPath(m.parent)) == Some(Log(octets));
  }

  lemma TailNotStaged(m: ForkMarker)
    requires m.parent != m.child + PENDING
    ensures !Staged(m, TailPath(m.parent))
  {
    TailIsNotMarker(m.parent);
    assert |TailPath(m.parent).Suffixed(PENDING).name| == |TailPath(m.parent).name| + 9;
    assert |STORE.Suffixed(PENDING).name| == 9;
  }

  lemma BothFresh(h: Host, fs: Files, plan: Plan)
    requires Planned(h, fs, plan) && NamesApart(plan.marker)
    ensures FreshBranch(Forked(h, fs, plan), plan.marker.parent, plan) && FreshBranch(Forked(h, fs, plan), plan.marker.child, plan)
  {
    hide RunSteps, PreparationSteps, CompletionSteps, Forked, ValidBranchName;
    var m := plan.marker;
    var mid := RunSteps(fs, PreparationSteps(plan));
    ForkedRuns(h, fs, plan);
    FinalParentRef(mid, m);
    FinalChildRef(mid, m);
    FinalParentTail(mid, m);
    FinalChildTail(mid, m);
    AfterPreparation(fs, plan, RefPath(m.parent).Suffixed(PENDING));
    AfterPreparation(fs, plan, RefPath(m.child).Suffixed(PENDING));
    AfterPreparation(fs, plan, TailPath(m.parent).Suffixed(PENDING));
    AfterPreparation(fs, plan, TailPath(m.child).Suffixed(PENDING));
    assert |STORE.Suffixed(PENDING).name| == 9 && |MARKER.name| == 5;
  }

  /** When the names clash, the parent's ref or the child's tail is gone. */
  lemma ClashLosesBranch(h: Host, fs: Files, plan: Plan)
    requires Planned(h, fs, plan) && !NamesApart(plan.marker)
    ensures (RefPath(plan.marker.parent) !in Forked(h, fs, plan) && plan.marker.parent != MAIN)
            || (TailPath(plan.marker.child) !in Forked(h, fs, plan) && plan.marker.child != MAIN)
  {
    hide RunSteps, PreparationSteps, CompletionSteps, Forked, MarkerReads;
    var m := plan.marker;
    var mid := RunSteps(fs, PreparationSteps(plan));
    ForkedRuns(h, fs, plan);
    MarkerNamesTwo(m);
    FinalParentRef(mid, m);
    PathFacts(m);
    if m.parent == m.child + PENDING {
      assert |m.parent| > 4 && |MAIN| == 4;
    } else {
      FinalChildTail(mid, m);
      assert |m.child| > 4 && |MAIN| == 4;
    }
  }

  lemma MarkerNamesTwo(m: ForkMarker)
    requires MarkerReads(m)
    ensures m.parent != m.child && |m.parent| > 0 && |m.child| > 0
  {
  }

  lemma LostBranchFails(h: Host, gs: Files, branch: string, expected: Option<Octets>, repair: bool)
    requires branch != MAIN && (RefPath(branch) !in gs || TailPath(branch) !in gs)
    ensures OpenBranch(h, gs, branch, expected, repair).Err?
  {
    hide ParseLog, ReplayAll, RefReads, SealedFit, TailFits, ReadMembers, ValidBranchName;
  }

  // ----- when the new ref reads back -----

  /** The SpaceId fits a line, and the numbers of the segment to be sealed fit the digits a ref reads. */
  predicate Printable(plan: Plan) {
    && OneLine(plan.document.space) && plan.document.segments != []
    && var sealed := plan.document.segments[|plan.document.segments| - 1];
       sealed.last < COUNT_LIMIT && sealed.bytes < COUNT_LIMIT
  }

  lemma RecordReadsIff(digest: Digest, octets: Octets, p: Parsed, s: Store)
    requires s.next >= 1 && ReplayAll(s, p.frames).Ok?
    ensures RecordReads(RecordOf(digest, octets, p.frames)) <==> LastSequence(p.frames) < COUNT_LIMIT && |octets| < COUNT_LIMIT
  {
    hide ReplayAll;
    ReplayAscends(s, p.frames);
  }

  lemma RefReadsIff(h: Host, digest: Digest, fs: Files, plan: Plan, base: RefDocument, octets: Octets, p: Parsed, ms: seq<Member>, s: Store)
    requires Planning(h, digest, fs, plan, base, octets, p) && OpensOn(h, fs, base, Member(p, |octets|), ms, s)
    ensures RefReads(plan.document) <==> Printable(plan)
  {
    hide ParseLog, ReadMembers, EncodeHeader, ValidHeader, ReplayAll, OneLine, RecordReads, ParseRef, PrintRef, PrintMarker,
      ValidBranchName, SegmentName;
    NewNamesAreDigests(h, digest, fs, plan, base, octets, p);
    var start := NewStore(base.space);
    ReplayConcat(start, MemberFrames(ms), p.frames);
    var mid := ReplayAll(start, MemberFrames(ms)).value;
    ReplayAscends(start, MemberFrames(ms));
    RecordReadsIff(digest, octets, p, mid);
    var segments, record := plan.document.segments, RecordOf(digest, octets, p.frames);
    var n := |base.segments|;
    assert segments[n] == record && forall i :: 0 <= i < n ==> segments[i] == base.segments[i];
    if Printable(plan) {
      forall i | 0 <= i < |segments| ensures RecordReads(segments[i]) {}
      forall i, j | 0 <= i < j < |segments| ensures segments[i].sha != segments[j].sha {}
    }
  }

  /** A parent with no ref yet was never held to start at sequence 1. */
  predicate StartsChain(h: Host, fs: Files, plan: Plan) {
    ReadRef(h, fs, plan.marker.parent).None? && plan.document.segments != [] ==>
      plan.document.segments[|plan.document.segments| - 1].first <= 1
  }

  /** After a fork of a branch that opens, parent and child both open exactly when neither takes a name the
      other needs, the new ref reads back, and a first fork seals a log that starts at sequence 1. Both then
      hold exactly the history the parent had, over fresh tails ready to write. */
  lemma ForkOpensIff(h: Host, digest: Digest, fs: Files, parent: string, child: string, plan: Plan,
                     expected: Option<Octets>, repair: bool)
    requires h.Valid() && PlanFork(h, digest, fs, parent, child) == Ok(plan)
    requires OpenBranch(h, fs, parent, expected, repair).Ok? && NoCollision(fs, plan)
    ensures Fork(h, digest, fs, parent, child) == (Forked(h, fs, plan), Ok(plan))
    ensures var gs, before := Forked(h, fs, plan), OpenBranch(h, fs, parent, expected, repair).value;
      var a, b := OpenBranch(h, gs, parent, expected, repair), OpenBranch(h, gs, child, expected, repair);
      && (a.Ok? && b.Ok? <==> NamesApart(plan.marker) && Printable(plan) && StartsChain(h, fs, plan))
      && (a.Ok? && b.Ok? ==> a == b && b.value == before.(log := Some(plan.tail)))
  {
    hide ParseLog, ReplayAll, RefReads, OpenBranch, Printable, StartsChain, NoCollision, Forked, PlanFork, Planning, CompleteUpTo;
    OpenHasNoMarker(h, fs, parent, expected, repair);
    NothingPending(h, fs, 7);
    assert Fork(h, digest, fs, parent, child) == (Forked(h, fs, plan), Ok(plan)) by { ForkIsForked(h, digest, fs, parent, child, plan); }
    var base, octets, p := PlanFacts(h, digest, fs, parent, child, plan);
    PlannedOpensIff(h, digest, fs, parent, child, plan, base, octets, p, expected, repair);
  }

  lemma OpenHasNoMarker(h: Host, fs: Files, branch: string, expected: Option<Octets>, repair: bool)
    requires OpenBranch(h, fs, branch, expected, repair).Ok?
    ensures MARKER !in fs
  {
    hide ReadMembers, ReplayAll, SealedFit, TailFits, ParseRef, ParseLog, ValidBranchName;
  }

  lemma ForkIsForked(h: Host, digest: Digest, fs: Files, parent: string, child: string, plan: Plan)
    requires MARKER !in fs && CompleteUpTo(h, fs, 7) == fs && PlanFork(h, digest, fs, parent, child) == Ok(plan)
    ensures Fork(h, digest, fs, parent, child) == (Forked(h, fs, plan), Ok(plan))
  {
    hide PlanFork, CompleteUpTo, RunSteps, PreparationSteps;
  }

  lemma PlannedOpensIff(h: Host, digest: Digest, fs: Files, parent: string, child: string, plan: Plan,
                        base: RefDocument, octets: Octets, p: Parsed, expected: Option<Octets>, repair: bool)
    requires h.Valid() && Planning(h, digest, fs, plan, base, octets, p) && plan.marker.parent == parent && plan.marker.child == child
    requires OpenBranch(h, fs, parent, expected, repair).Ok? && NoCollision(fs, plan)
    ensures var gs, before := Forked(h, fs, plan), OpenBranch(h, fs, parent, expected, repair).value;
      var a, b := OpenBranch(h, gs, parent, expected, repair), OpenBranch(h, gs, child, expected, repair);
      && (a.Ok? && b.Ok? <==> NamesApart(plan.marker) && Printable(plan) && StartsChain(h, fs, plan))
      && (a.Ok? && b.Ok? ==> a == b && b.value == before.(log := Some(plan.tail)))
  {
    hide ParseLog, ReplayAll, RefReads, OpenBranch, Printable, NoCollision, Forked, ReadMembers, EncodeHeader, ValidHeader,
      SealedFit, MarkerReads, PrintRef, PrintMarker, ParseRef, GoodSegments;
    var gs, t := Forked(h, fs, plan), Member(p, |octets|);
    var s := OpenBranch(h, fs, parent, expected, repair).value.store;
    var ms := ParentFacts(h, digest, fs, plan, base, octets, p, expected, repair);
    PlanningIsPlanned(h, digest, fs, plan, base, octets, p);
    MarkerNamesTwo(plan.marker);
    if NamesApart(plan.marker) {
      BothFresh(h, fs, plan);
      ForkKeepsSegments(h, fs, plan);
      SealedContent(h, digest, fs, plan, base, octets, p);
      SealedReads(h, digest, fs, plan, base, octets, p, ms, gs);
      FreshBranchOpensIff(h, digest, fs, plan, base, octets, p, ms, s, gs, parent, expected, repair);
      FreshBranchOpensIff(h, digest, fs, plan, base, octets, p, ms, s, gs, child, expected, repair);
      RefReadsIff(h, digest, fs, plan, base, octets, p, ms, s);
      FirstFollowsIff(h, fs, base, t, ms, s);
    } else {
      ClashLosesBranch(h, fs, plan);
      if RefPath(parent) !in gs && parent != MAIN {
        LostBranchFails(h, gs, parent, expected, repair);
      } else {
        LostBranchFails(h, gs, child, expected, repair);
      }
    }
  }

  lemma PlanningIsPlanned(h: Host, digest: Digest, fs: Files, plan: Plan, base: RefDocument, octets: Octets, p: Parsed)
    requires Planning(h, digest, fs, plan, base, octets, p)
    ensures Planned(h, fs, plan)
  {
    hide ParseLog, EncodeHeader, ValidHeader;
  }

  lemma FirstFollowsIff(h: Host, fs: Files, base: RefDocument, t: Member, ms: seq<Member>, s: Store)
    requires OpensOn(h, fs, base, t, ms, s)
    ensures base.segments == [] ==> (Follows(t, ms) <==> t.First() <= 1)
  {
    hide ParseLog, ReadMembers;
    if base.segments == [] {
      assert [] + t.parsed.frames == t.parsed.frames;
      ReplayAscends(NewStore(base.space), t.parsed.frames);
    }
  }
}
