/** Branches of a store: refs that name a chain of sealed segments, and the tail each branch writes. */
module Branches {
  import opened Bytes
  import opened Terms
  import opened Frames
  import opened FrameLog
  import opened TermStore
  import opened Durability
  import opened GroupCommit
  import opened BranchText

  const MAIN := "main"

  /** Where a file lives: beside the store, or in one of its three directories. */
  datatype Directory = Beside | Segments | Refs | Tails

  datatype Path = Path(directory: Directory, name: string)
  {
    function Suffixed(suffix: string): Path { Path(directory, name + suffix) }
  }

  /** A file's content: a log, a text file, or an image. */
  datatype Content = Log(octets: Octets) | Document(text: Octets) | Image

  type Files = map<Path, Content>

  // ----- names and paths -----

  const STORE := Path(Beside, "")
  const MARKER := Path(Beside, ".fork")

  function RefPath(branch: string): Path { Path(Refs, branch) }

  function TailPath(branch: string): Path {
    if branch == MAIN then STORE else Path(Tails, branch)
  }

  function SegmentPath(sha: string): Path { Path(Segments, sha) }

  // ----- reading files -----

  function ReadLog(h: Host, fs: Files, p: Path, allow: bool): Result<Parsed> {
    if p !in fs then Err(MissingFile) else
    match fs[p]
    case Log(octets) => ParseLog(h, octets, allow)
    case _ => Err(CorruptLog)
  }

  /** The branch's ref, if it has one. */
  function ReadRef(h: Host, fs: Files, branch: string): Option<Result<RefDocument>> {
    var p := RefPath(branch);
    if p !in fs then None else
    match fs[p]
    case Document(text) => Some(ParseRef(h, text))
    case _ => Some(Err(InvalidBranchRef))
  }

  // ----- chains -----

  function FirstSequence(frames: seq<Frame>): int {
    if frames == [] then 0 else frames[0].sequence
  }

  function LastSequence(frames: seq<Frame>): int {
    if frames == [] then 0 else frames[|frames| - 1].sequence
  }

  datatype Member = Member(parsed: Parsed, bytes: nat)
  {
    function First(): int { FirstSequence(parsed.frames) }

    function Last(): int { LastSequence(parsed.frames) }
  }

  function ReadMember(h: Host, fs: Files, p: Path): Result<Member> {
    var parsed :- ReadLog(h, fs, p, true);
    Ok(Member(parsed, if p in fs && fs[p].Log? then |fs[p].octets| else 0))
  }

  function ReadMembers(h: Host, fs: Files, segments: seq<SegmentRecord>): (r: Result<seq<Member>>)
    ensures r.Ok? ==> |r.value| == |segments|
  {
    if segments == [] then Ok([]) else
    var n := |segments| - 1;
    var before :- ReadMembers(h, fs, segments[..n]);
    var last :- ReadMember(h, fs, SegmentPath(segments[n].sha));
    Ok(before + [last])
  }

  /** The sequence a chain's next frame must carry. */
  function NextAfter(members: seq<Member>): int {
    if members == [] then 1 else
    var n := |members| - 1;
    if members[n].Last() > 0 then members[n].Last() + 1 else NextAfter(members[..n])
  }

  predicate Follows(m: Member, members: seq<Member>) {
    m.First() <= 0 || m.First() == NextAfter(members)
  }

  /** Whether sealed member `m` is what its record says, in its place after `before`. */
  predicate MemberFits(space: Octets, record: SegmentRecord, before: seq<Member>, m: Member) {
    && m.parsed.header.space == space && record.bytes == m.bytes
    && record.first == m.First() && record.last == m.Last()
    && m.parsed.torn.None? && m.parsed.header.continuation == (before != [])
    && Follows(m, before)
  }

  predicate SealedFit(d: RefDocument, members: seq<Member>)
    requires |members| == |d.segments|
  {
    forall i :: 0 <= i < |members| ==> MemberFits(d.space, d.segments[i], members[..i], members[i])
  }

  predicate TailFits(space: Octets, members: seq<Member>, tail: Member) {
    && tail.parsed.header.space == space && tail.parsed.header.continuation == (members != [])
    && Follows(tail, members)
  }

  function MemberFrames(members: seq<Member>): seq<Frame> {
    if members == [] then [] else
    MemberFrames(members[..|members| - 1]) + members[|members| - 1].parsed.frames
  }

  /** Opens a branch: its sealed chain in ref order, then its tail. Repair truncates a torn tail. */
  function OpenBranch(h: Host, fs: Files, branch: string, expected: Option<Octets>, repair: bool): Result<Db> {
    if MARKER in fs then Err(ForkIncomplete) else
    if !ValidBranchName(branch) then Err(InvalidBranchName) else
    match ReadRef(h, fs, branch)
    case None =>
      if branch != MAIN then Err(BranchMissing) else
      if STORE !in fs then Err(MissingFile) else
      if !fs[STORE].Log? then Err(CorruptLog) else
      OpenDatabase(h, fs[STORE].octets, expected, repair)
    case Some(document) =>
      var d :- document;
      var members :- ReadMembers(h, fs, d.segments);
      var tail :- ReadMember(h, fs, TailPath(branch));
      if expected.Some? && expected.value != d.space then Err(SpaceMismatch) else
      if !SealedFit(d, members) || !TailFits(d.space, members, tail) then Err(InvalidBranchChain) else
      var s :- ReplayAll(NewStore(d.space), MemberFrames(members) + tail.parsed.frames);
      var octets := if TailPath(branch) in fs && fs[TailPath(branch)].Log? then fs[TailPath(branch)].octets else [];
      Ok(Db(d.space, s,
            Some(if tail.parsed.torn.Some? && repair && tail.parsed.ValidBytes() <= |octets|
                 then octets[..tail.parsed.ValidBytes()] else octets),
            tail.parsed.deflate, if repair then None else tail.parsed.torn, Ready))
  }
}
