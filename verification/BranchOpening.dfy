/** When a branch opens, said of the files it finds, and what it opens as. */
module BranchOpening {
  import opened Bytes
  import opened Terms
  import opened Frames
  import opened FrameLog
  import opened TermStore
  import opened Durability
  import opened Fence
  import opened GroupCommit
  import opened BranchText
  import opened Branches

  // ----- what is asked of the files -----

  predicate Reads(h: Host, fs: Files, p: Path) {
    p in fs && fs[p].Log? && ParseLog(h, fs[p].octets, true).Ok?
  }

  function ReadAt(h: Host, fs: Files, p: Path): Parsed
    requires Reads(h, fs, p)
  {
    ParseLog(h, fs[p].octets, true).value
  }

  /** The frames of files in order. */
  function FramesIn(h: Host, fs: Files, paths: seq<Path>): seq<Frame>
    requires forall i :: 0 <= i < |paths| ==> Reads(h, fs, paths[i])
  {
    if paths == [] then [] else FramesIn(h, fs, paths[..|paths| - 1]) + ReadAt(h, fs, paths[|paths| - 1]).frames
  }

  /** The files of a branch: its sealed segments in the order its ref lists them, then its tail. */
  function ChainFiles(segments: seq<SegmentRecord>, branch: string): (paths: seq<Path>)
    ensures |paths| == |segments| + 1 && paths[|segments|] == TailPath(branch)
    ensures forall i :: 0 <= i < |segments| ==> paths[i] == SegmentPath(segments[i].sha)
  {
    SealedFiles(segments) + [TailPath(branch)]
  }

  function SealedFiles(segments: seq<SegmentRecord>): (paths: seq<Path>)
    ensures |paths| == |segments| && forall i :: 0 <= i < |segments| ==> paths[i] == SegmentPath(segments[i].sha)
  {
    seq(|segments|, i requires 0 <= i < |segments| => SegmentPath(segments[i].sha))
  }

  /** A sealed file is the size its record says, whole, and its first and last sequences are the recorded ones. */
  predicate RecordedAs(h: Host, fs: Files, record: SegmentRecord)
    requires Reads(h, fs, SegmentPath(record.sha))
  {
    var p := ReadAt(h, fs, SegmentPath(record.sha));
    && |fs[SegmentPath(record.sha)].octets| == record.bytes && p.torn.None?
    && (p.frames == [] ==> record.first == 0 && record.last == 0)
    && (p.frames != [] ==> record.first == p.frames[0].sequence && record.last == p.frames[|p.frames| - 1].sequence)
  }

  /** The first frame of file `i`, if it has any, carries the number after the last frame in the files before it,
      or 1 if there is none. */
  predicate Continues(h: Host, fs: Files, paths: seq<Path>, i: nat)
    requires i < |paths| && forall j :: 0 <= j < |paths| ==> Reads(h, fs, paths[j])
  {
    var own, before := ReadAt(h, fs, paths[i]).frames, FramesIn(h, fs, paths[..i]);
    own != [] ==> own[0].sequence == if before == [] then 1 else before[|before| - 1].sequence + 1
  }

  /** File `i` belongs to the space, is marked a continuation unless it is the first, and goes on where the files
      before it stop. */
  predicate Suits(h: Host, fs: Files, space: Octets, paths: seq<Path>, i: nat)
    requires i < |paths| && forall j :: 0 <= j < |paths| ==> Reads(h, fs, paths[j])
  {
    && ReadAt(h, fs, paths[i]).header.space == space
    && (ReadAt(h, fs, paths[i]).header.continuation <==> i > 0)
    && Continues(h, fs, paths, i)
  }

  /** Every file of the chain reads and suits its place, the sealed ones are what was recorded, and all the frames
      together are a history. */
  predicate ChainOpens(h: Host, fs: Files, d: RefDocument, branch: string) {
    var paths := ChainFiles(d.segments, branch);
    && (forall i :: 0 <= i < |paths| ==> Reads(h, fs, paths[i]))
    && (forall i: nat :: i < |paths| ==> Suits(h, fs, d.space, paths, i))
    && (forall i :: 0 <= i < |d.segments| ==> RecordedAs(h, fs, d.segments[i]))
    && ReplayAll(NewStore(d.space), FramesIn(h, fs, paths)).Ok?
  }

  predicate Expects(expected: Option<Octets>, space: Octets) {
    expected.Some? ==> expected.value == space
  }

  /** An unforked store opens from its one log. */
  predicate StoreOpens(h: Host, fs: Files, expected: Option<Octets>) {
    && STORE in fs && fs[STORE].Log? && ParseLog(h, fs[STORE].octets, false).Ok?
    && var p := ParseLog(h, fs[STORE].octets, false).value;
    Expects(expected, p.header.space) && ReplayAll(NewStore(p.header.space), p.frames).Ok?
  }

  predicate Opens(h: Host, fs: Files, branch: string, expected: Option<Octets>) {
    && MARKER !in fs && ValidBranchName(branch)
    && if RefPath(branch) in fs then
         && fs[RefPath(branch)].Document? && ParseRef(h, fs[RefPath(branch)].text).Ok?
         && var d := ParseRef(h, fs[RefPath(branch)].text).value;
         Expects(expected, d.space) && ChainOpens(h, fs, d, branch)
       else branch == MAIN && StoreOpens(h, fs, expected)
  }

  // ----- members and files -----

  /** The member read from a file that reads. */
  function MemberAt(h: Host, fs: Files, p: Path): Member
    requires Reads(h, fs, p)
  {
    Member(ReadAt(h, fs, p), |fs[p].octets|)
  }

  function MembersAt(h: Host, fs: Files, paths: seq<Path>): (ms: seq<Member>)
    requires forall i :: 0 <= i < |paths| ==> Reads(h, fs, paths[i])
    ensures |ms| == |paths| && forall i :: 0 <= i < |paths| ==> ms[i] == MemberAt(h, fs, paths[i])
  {
    seq(|paths|, i requires 0 <= i < |paths| => MemberAt(h, fs, paths[i]))
  }

  lemma {:induction false} MembersRead(h: Host, fs: Files, segments: seq<SegmentRecord>)
    ensures var paths, r := SealedFiles(segments), ReadMembers(h, fs, segments);
      && (r.Ok? <==> forall i :: 0 <= i < |paths| ==> Reads(h, fs, paths[i]))
      && (r.Ok? ==> r.value == MembersAt(h, fs, paths))
  {
    hide ParseLog;
    if segments != [] {
      var n := |segments| - 1;
      MembersRead(h, fs, segments[..n]);
      assert SealedFiles(segments)[..n] == SealedFiles(segments[..n]);
    }
  }

  lemma MemberReads(h: Host, fs: Files, p: Path)
    ensures ReadMember(h, fs, p).Ok? <==> Reads(h, fs, p)
    ensures Reads(h, fs, p) ==> ReadMember(h, fs, p) == Ok(MemberAt(h, fs, p))
  {
    hide ParseLog;
  }

  lemma {:induction false} MembersFrames(h: Host, fs: Files, paths: seq<Path>)
    requires forall i :: 0 <= i < |paths| ==> Reads(h, fs, paths[i])
    ensures MemberFrames(MembersAt(h, fs, paths)) == FramesIn(h, fs, paths)
  {
    hide Reads, ReadAt;
    if paths != [] {
      var n := |paths| - 1;
      MembersFrames(h, fs, paths[..n]);
      assert MembersAt(h, fs, paths)[..n] == MembersAt(h, fs, paths[..n]);
    }
  }

  // ----- where the next frame goes -----

  predicate Positive(frames: seq<Frame>) {
    forall i :: 0 <= i < |frames| ==> frames[i].sequence >= 1
  }

  /** Going back over the members with no frames finds the last frame of all. */
  lemma {:induction false} NextIsAfterLast(members: seq<Member>)
    requires Positive(MemberFrames(members))
    ensures NextAfter(members) == LastSequence(MemberFrames(members)) + 1
  {
    if members != [] {
      var n := |members| - 1;
      var before, own := MemberFrames(members[..n]), members[n].parsed.frames;
      assert MemberFrames(members) == before + own;
      assert forall i :: 0 <= i < |before| ==> (before + own)[i] == before[i];
      if own == [] {
        assert before + own == before;
      } else {
        assert (before + own)[|before| + |own| - 1] == own[|own| - 1];
      }
      NextIsAfterLast(members[..n]);
    }
  }

  /** The frames of the first members begin those of all. */
  lemma {:induction false} FirstFrames(members: seq<Member>, i: nat)
    requires i < |members| && Positive(MemberFrames(members))
    ensures Positive(MemberFrames(members[..i])) && Positive(members[i].parsed.frames)
    decreases |members|
  {
    var n := |members| - 1;
    var before, own := MemberFrames(members[..n]), members[n].parsed.frames;
    assert MemberFrames(members) == before + own;
    assert Positive(before) by {
      assert forall k :: 0 <= k < |before| ==> (before + own)[k] == before[k];
    }
    assert Positive(own) by {
      assert forall k :: 0 <= k < |own| ==> (before + own)[|before| + k] == own[k];
    }
    if i < n {
      FirstFrames(members[..n], i);
      assert members[..n][..i] == members[..i];
    }
  }

  lemma FollowsIff(h: Host, fs: Files, paths: seq<Path>, i: nat)
    requires i < |paths| && (forall j :: 0 <= j < |paths| ==> Reads(h, fs, paths[j])) && Positive(FramesIn(h, fs, paths))
    ensures var ms := MembersAt(h, fs, paths); Follows(ms[i], ms[..i]) <==> Continues(h, fs, paths, i)
  {
    hide Reads, ReadAt, Positive, NextAfter, FramesIn, MemberFrames;
    var ms := MembersAt(h, fs, paths);
    MembersFrames(h, fs, paths);
    FirstFrames(ms, i);
    NextIsAfterLast(ms[..i]);
    assert ms[..i] == MembersAt(h, fs, paths[..i]);
    MembersFrames(h, fs, paths[..i]);
    StartsAt(ms[i]);
  }

  lemma StartsAt(m: Member)
    requires Positive(m.parsed.frames)
    ensures m.First() <= 0 <==> m.parsed.frames == []
  {
  }

  // ----- opening -----

  /** A sealed member fits when its file does. */
  lemma SealedFitsIff(h: Host, fs: Files, d: RefDocument, paths: seq<Path>, before: seq<Member>, i: nat)
    requires i < |d.segments| && i < |paths| && paths[i] == SegmentPath(d.segments[i].sha) && |before| == i
    requires forall j :: 0 <= j < |paths| ==> Reads(h, fs, paths[j])
    requires Follows(MemberAt(h, fs, paths[i]), before) <==> Continues(h, fs, paths, i)
    ensures MemberFits(d.space, d.segments[i], before, MemberAt(h, fs, paths[i])) <==>
      (Suits(h, fs, d.space, paths, i) && RecordedAs(h, fs, d.segments[i]))
  {
    hide Follows, Continues, Reads;
  }

  lemma TailFitsIff(h: Host, fs: Files, space: Octets, paths: seq<Path>, members: seq<Member>)
    requires |paths| == |members| + 1
    requires forall j :: 0 <= j < |paths| ==> Reads(h, fs, paths[j])
    requires Follows(MemberAt(h, fs, paths[|members|]), members) <==> Continues(h, fs, paths, |members|)
    ensures TailFits(space, members, MemberAt(h, fs, paths[|members|])) <==> Suits(h, fs, space, paths, |members|)
  {
    hide Follows, Continues, Reads;
  }

  /** The checks of a chain are the files' own. */
  lemma ChainOpensIff(h: Host, fs: Files, d: RefDocument, branch: string, members: seq<Member>, tail: Member)
    requires var paths := ChainFiles(d.segments, branch);
      (forall i :: 0 <= i < |paths| ==> Reads(h, fs, paths[i])) && members + [tail] == MembersAt(h, fs, paths)
    requires |members| == |d.segments|
    ensures MemberFrames(members) + tail.parsed.frames == FramesIn(h, fs, ChainFiles(d.segments, branch))
    ensures ReplayAll(NewStore(d.space), MemberFrames(members) + tail.parsed.frames).Ok? ==>
      (SealedFit(d, members) && TailFits(d.space, members, tail) <==> ChainOpens(h, fs, d, branch))
  {
    hide *;
    var paths, all, n := ChainFiles(d.segments, branch), members + [tail], |members|;
    MembersFrames(h, fs, paths);
    AllFrames(members, tail);
    if ReplayAll(NewStore(d.space), FramesIn(h, fs, paths)).Ok? {
      NewIsPositive(d.space, FramesIn(h, fs, paths));
      forall i: nat | i < n
        ensures MemberFits(d.space, d.segments[i], members[..i], members[i])
          <==> (Suits(h, fs, d.space, paths, i) && RecordedAs(h, fs, d.segments[i]))
      {
        FollowsIff(h, fs, paths, i);
        assert all[i] == members[i] && all[..i] == members[..i];
        SealedFitsIff(h, fs, d, paths, members[..i], i);
      }
      FollowsIff(h, fs, paths, n);
      assert all[n] == tail && all[..n] == members;
      TailFitsIff(h, fs, d.space, paths, members);
      ChainMeans(h, fs, d, branch, members, tail);
    }
  }

  lemma ChainMeans(h: Host, fs: Files, d: RefDocument, branch: string, members: seq<Member>, tail: Member)
    requires var paths := ChainFiles(d.segments, branch);
      && (forall i :: 0 <= i < |paths| ==> Reads(h, fs, paths[i])) && |members| == |d.segments|
      && ReplayAll(NewStore(d.space), FramesIn(h, fs, paths)).Ok?
      && (forall i: nat :: i < |members| ==>
            (MemberFits(d.space, d.segments[i], members[..i], members[i]) <==>
              (Suits(h, fs, d.space, paths, i) && RecordedAs(h, fs, d.segments[i]))))
      && (TailFits(d.space, members, tail) <==> Suits(h, fs, d.space, paths, |members|))
    ensures SealedFit(d, members) && TailFits(d.space, members, tail) <==> ChainOpens(h, fs, d, branch)
  {
    hide MemberFits, Suits, RecordedAs, TailFits, Reads, FramesIn, ReplayAll;
  }

  lemma NewIsPositive(space: Octets, fs: seq<Frame>)
    requires ReplayAll(NewStore(space), fs).Ok?
    ensures Positive(fs)
  {
    ReplayAscends(NewStore(space), fs);
  }

  lemma AllFrames(members: seq<Member>, tail: Member)
    ensures MemberFrames(members + [tail]) == MemberFrames(members) + tail.parsed.frames
  {
    assert (members + [tail])[..|members|] == members;
  }

  /** A branch opens exactly when its files allow it. */
  lemma BranchOpensIff(h: Host, fs: Files, branch: string, expected: Option<Octets>, repair: bool)
    ensures OpenBranch(h, fs, branch, expected, repair).Ok? <==> Opens(h, fs, branch, expected)
  {
    hide ParseLog, ParseRef, ReplayAll, SealedFit, TailFits, ChainOpens, ValidBranchName;
    if MARKER !in fs && ValidBranchName(branch) && RefPath(branch) in fs && fs[RefPath(branch)].Document?
       && ParseRef(h, fs[RefPath(branch)].text).Ok? {
      RefOpensIff(h, fs, branch, expected, repair, ParseRef(h, fs[RefPath(branch)].text).value);
    }
  }

  lemma RefOpensIff(h: Host, fs: Files, branch: string, expected: Option<Octets>, repair: bool, d: RefDocument)
    requires MARKER !in fs && ValidBranchName(branch) && ReadRef(h, fs, branch) == Some(Ok(d))
    ensures OpenBranch(h, fs, branch, expected, repair).Ok? <==> Expects(expected, d.space) && ChainOpens(h, fs, d, branch)
  {
    hide ParseLog, ParseRef, ReplayAll, SealedFit, TailFits, ValidBranchName, Continues, RecordedAs, FramesIn, MemberFrames, ReadAt;
    var sealed, paths := SealedFiles(d.segments), ChainFiles(d.segments, branch);
    MembersRead(h, fs, d.segments);
    MemberReads(h, fs, TailPath(branch));
    hide ReadMember;
    assert forall i :: 0 <= i < |sealed| ==> sealed[i] == paths[i];
    if forall i :: 0 <= i < |paths| ==> Reads(h, fs, paths[i]) {
      var members, tail := MembersAt(h, fs, sealed), MemberAt(h, fs, TailPath(branch));
      assert members + [tail] == MembersAt(h, fs, paths);
      ChainOpensIff(h, fs, d, branch, members, tail);
      hide MembersAt, Reads;
    } else {
      var i :| 0 <= i < |paths| && !Reads(h, fs, paths[i]);
    }
  }

  /** The database opened from a tail read as `p` whose history is `frames`: repair cuts what is torn off the tail and
      forgets it, and without repair the tail stays torn. */
  ghost predicate OpenedAs(db: Db, space: Octets, octets: Octets, p: Parsed, frames: seq<Frame>, repair: bool) {
    && db.space == space && db.status.Ready? && db.deflate == p.deflate && Ok(db.store) == ReplayAll(NewStore(space), frames)
    && p.ValidBytes() <= |octets|
    && db.log == Some(if p.torn.Some? && repair then octets[..p.ValidBytes()] else octets)
    && db.torn == if repair then None else p.torn
  }

  /** A branch opens on the frames of its segments and its tail, in that order, and writes to its tail. */
  lemma BranchOpensAs(h: Host, fs: Files, branch: string, expected: Option<Octets>, repair: bool)
    requires OpenBranch(h, fs, branch, expected, repair).Ok? && Opens(h, fs, branch, expected)
    ensures var db, octets := OpenBranch(h, fs, branch, expected, repair).value, fs[TailPath(branch)].octets;
      if RefPath(branch) in fs then
        var d := ParseRef(h, fs[RefPath(branch)].text).value;
        OpenedAs(db, d.space, octets, ReadAt(h, fs, TailPath(branch)), FramesIn(h, fs, ChainFiles(d.segments, branch)), repair)
      else
        var p := ParseLog(h, octets, false).value;
        OpenedAs(db, p.header.space, octets, p, p.frames, repair)
  {
    hide *;
    if RefPath(branch) in fs {
      var d := RefRead(h, fs, branch, expected);
      RefOpensAs(h, fs, branch, expected, repair, d);
    } else {
      StoreOpensAs(h, fs, branch, expected, repair);
    }
  }

  lemma RefRead(h: Host, fs: Files, branch: string, expected: Option<Octets>) returns (d: RefDocument)
    requires Opens(h, fs, branch, expected) && RefPath(branch) in fs
    ensures fs[RefPath(branch)].Document? && ParseRef(h, fs[RefPath(branch)].text) == Ok(d)
    ensures ReadRef(h, fs, branch) == Some(Ok(d)) && ChainOpens(h, fs, d, branch)
    ensures Reads(h, fs, TailPath(branch))
  {
    hide ParseRef, ParseLog, FramesIn, ReplayAll, Continues, RecordedAs, Suits;
    d := ParseRef(h, fs[RefPath(branch)].text).value;
    assert Reads(h, fs, ChainFiles(d.segments, branch)[|d.segments|]);
  }

  lemma StoreOpensAs(h: Host, fs: Files, branch: string, expected: Option<Octets>, repair: bool)
    requires OpenBranch(h, fs, branch, expected, repair).Ok? && Opens(h, fs, branch, expected) && RefPath(branch) !in fs
    ensures TailPath(branch) in fs && fs[TailPath(branch)].Log? && ParseLog(h, fs[TailPath(branch)].octets, false).Ok?
    ensures var db, octets := OpenBranch(h, fs, branch, expected, repair).value, fs[TailPath(branch)].octets;
      var p := ParseLog(h, octets, false).value; OpenedAs(db, p.header.space, octets, p, p.frames, repair)
  {
    hide ScanFrom, ParseHeader, ReplayAll, ValidBranchName;
  }

  lemma RefOpensAs(h: Host, fs: Files, branch: string, expected: Option<Octets>, repair: bool, d: RefDocument)
    requires OpenBranch(h, fs, branch, expected, repair).Ok? && ReadRef(h, fs, branch) == Some(Ok(d))
    requires ChainOpens(h, fs, d, branch) && Reads(h, fs, TailPath(branch))
    ensures var db, octets := OpenBranch(h, fs, branch, expected, repair).value, fs[TailPath(branch)].octets;
      OpenedAs(db, d.space, octets, ReadAt(h, fs, TailPath(branch)), FramesIn(h, fs, ChainFiles(d.segments, branch)), repair)
  {
    hide ScanFrom, ParseHeader, ParseRef, ReplayAll, SealedFit, TailFits, ValidBranchName, Suits, RecordedAs, FramesIn, MemberFrames;
    var sealed, paths := SealedFiles(d.segments), ChainFiles(d.segments, branch);
    MembersRead(h, fs, d.segments);
    MemberReads(h, fs, TailPath(branch));
    assert forall i :: 0 <= i < |sealed| ==> sealed[i] == paths[i];
    var members, tail := MembersAt(h, fs, sealed), MemberAt(h, fs, TailPath(branch));
    assert members + [tail] == MembersAt(h, fs, paths);
    ChainOpensIff(h, fs, d, branch, members, tail);
    hide MembersAt, ReadMember, Reads;
  }
}
