/** The database state machine: commit, group commit, and the fence that reconciles memory with
    the log after an append whose durable outcome is unknown. */
module Durability {
  import opened Bytes
  import opened Terms
  import opened Frames
  import opened FrameLog
  import opened TornTail
  import opened RoundTrip
  import opened TermStore
  import opened Requests

  datatype Status = Ready | Fenced(reconciled: bool) | Corrupt

  /** `log` is the durable octets, or None for an in-memory database. */
  datatype Db = Db(
    space: Octets,
    store: Store,
    log: Option<Octets>,
    deflate: bool,
    torn: Option<TornReason>,
    status: Status)

  // ----- appending -----

  /** The leading frames the writer can encode; it stops at the first it cannot. */
  function WritablePrefix(h: Host, frames: seq<Frame>, deflate: bool): (w: seq<Frame>)
    ensures AllWritable(h, w, deflate)
    ensures w <= frames
  {
    if frames == [] || !Writable(h, frames[0], deflate) then [] else
    [frames[0]] + WritablePrefix(h, frames[1..], deflate)
  }

  datatype Appended = Appended(ok: bool, disk: Octets)

  /** An append under one barrier. `fault` is how many octets reach the disk when the write or its
      barrier fails; a frame that cannot be encoded fails the append on its own. */
  function Append(h: Host, disk: Octets, frames: seq<Frame>, deflate: bool, fault: Option<nat>): Appended {
    var whole := WritablePrefix(h, frames, deflate);
    var octets := EncodeFrames(h, whole, deflate);
    if fault.None? then Appended(whole == frames, disk + octets) else
    Appended(false, disk + octets[..if fault.value < |octets| then fault.value else |octets|])
  }

  // ----- the fence -----

  /** Re-reads the log as one whole store and makes it the database's memory. */
  function FenceAndReconcile(h: Host, db: Db): Db {
    match db.log
    case None => db.(status := Fenced(true))
    case Some(b) =>
      match ParseLog(h, b, false)
      case Err(_) => db.(status := Corrupt)
      case Ok(p) =>
        if p.header.space != db.space then db.(status := Corrupt) else
        match ReplayAll(NewStore(p.header.space), p.frames)
        case Err(_) => db.(status := Corrupt)
        case Ok(s) => db.(store := s, status := Fenced(true))
  }

  // ----- one commit -----

  datatype CommitResult = Refused(refusal: Refusal) | Committed(receipt: Receipt) | Ambiguous(status: Status)

  function MutationReady(db: Db): Option<Refusal> {
    match db.status
    case Ready => None
    case Fenced(_) => Some(RecoveryRequired)
    case Corrupt => Some(DatabaseCorrupt)
  }

  function CommitStep(h: Host, db: Db, request: Request, fault: Option<nat>): (Db, CommitResult) {
    match MutationReady(db)
    case Some(refusal) => (db, Refused(refusal))
    case None =>
      match Prepare(db.store, db.torn.Some?, request)
      case Refuse(refusal) => (db, Refused(refusal))
      case Fine(frame) =>
        var after := Commit(db.store, frame);
        var receipt := ReceiptOf(db.store, after, frame, |request.operations|);
        match db.log
        case None => (db.(store := after), Committed(receipt))
        case Some(disk) =>
          var a := Append(h, disk, [frame], db.deflate, fault);
          if a.ok then (db.(store := after, log := Some(a.disk)), Committed(receipt)) else
          var fenced := FenceAndReconcile(h, db.(log := Some(a.disk)));
          (fenced, Ambiguous(fenced.status))
  }

  // ----- group commit -----

  /** What a mutation function decides from the store root it is given. */
  datatype Decision = Reject(refusal: Refusal) | Submit(request: Request)

  type Mutation = Store -> Decision

  datatype Outcome = Outcome(result: CommitResult, version: int)

  datatype Scratch = Scratch(store: Store, frames: seq<Frame>, outcomes: seq<Outcome>)

  /** One mutation on the cohort's private root: its frame is deferred, not appended. */
  function ScratchStep(s: Scratch, torn: bool, mutation: Mutation): Scratch {
    match mutation(s.store)
    case Reject(refusal) => s.(outcomes := s.outcomes + [Outcome(Refused(refusal), s.store.Current())])
    case Submit(request) =>
      match Prepare(s.store, torn, request)
      case Refuse(refusal) => s.(outcomes := s.outcomes + [Outcome(Refused(refusal), s.store.Current())])
      case Fine(frame) =>
        var after := Commit(s.store, frame);
        Scratch(after, s.frames + [frame],
          s.outcomes + [Outcome(Committed(ReceiptOf(s.store, after, frame, |request.operations|)), after.Current())])
  }

  function RunScratch(store: Store, torn: bool, mutations: seq<Mutation>): (s: Scratch)
    ensures |s.outcomes| == |mutations|
    decreases |mutations|
  {
    if mutations == [] then Scratch(store, [], []) else
    var n := |mutations| - 1;
    ScratchStep(RunScratch(store, torn, mutations[..n]), torn, mutations[n])
  }

  datatype CohortResult = CohortRefused(refusal: Refusal) | Published(outcomes: seq<Outcome>, frames: nat)
    | CohortAmbiguous(status: Status)

  function CohortStep(h: Host, db: Db, mutations: seq<Mutation>, fault: Option<nat>): (Db, CohortResult) {
    match MutationReady(db)
    case Some(refusal) => (db, CohortRefused(refusal))
    case None =>
      var scratch := RunScratch(db.store, db.torn.Some?, mutations);
      var published := Published(scratch.outcomes, |scratch.frames|);
      if scratch.frames == [] then (db, published) else
      match db.log
      case None => (db.(store := scratch.store), published)
      case Some(disk) =>
        var a := Append(h, disk, scratch.frames, db.deflate, fault);
        if a.ok then (db.(store := scratch.store, log := Some(a.disk)), published) else
        var fenced := FenceAndReconcile(h, db.(log := Some(a.disk)));
        (fenced, CohortAmbiguous(fenced.status))
  }

  // ----- what memory and log owe each other -----

  /** Memory is the replay of the log over `base`; a database open for writing has a clean log whose
      compression flag it knows. */
  ghost predicate Sound(h: Host, db: Db, base: Store) {
    && base.space == db.space && base.next >= 1 && db.store.next >= 1 && db.store.space == db.space
    && (match db.log
        case None => true
        case Some(b) =>
          && ParseLog(h, b, true).Ok?
          && var p := ParseLog(h, b, true).value;
          && p.header.space == db.space
          && ReplayAll(base, p.frames) == Ok(db.store)
          && (db.status.Ready? && db.torn.None? ==> p.torn.None? && db.deflate == p.header.deflate))
  }

  /** Whether the log begins a store rather than continuing a sealed chain. */
  predicate WholeStoreLog(h: Host, db: Db) {
    db.log.Some? ==> ParseLog(h, db.log.value, false).Ok?
  }

  /** How many whole frames fit in the first `n` octets of their encoding. */
  function DurableCount(h: Host, frames: seq<Frame>, deflate: bool, n: nat): (k: nat)
    requires AllWritable(h, frames, deflate)
    ensures k <= |frames|
  {
    if frames == [] || FrameLength(h, frames[0], deflate) > n then 0 else
    1 + DurableCount(h, frames[1..], deflate, n - FrameLength(h, frames[0], deflate))
  }

  lemma {:induction false} DurableCountIsWholeFrames(h: Host, frames: seq<Frame>, deflate: bool, start: nat, n: nat)
    requires AllWritable(h, frames, deflate)
    ensures WholeFrames(FrameEnds(h, frames, start, deflate), start + n) == DurableCount(h, frames, deflate, n)
    decreases |frames|
  {
    hide *;
    DurableFirst(h, frames, deflate, n);
    if frames == [] {
      NoEnds(h, frames, start, deflate, start + n);
    } else {
      EndsFirst(h, frames, start, deflate);
      var length := |EncodeFrame(h, frames[0], deflate)|;
      var rest := FrameEnds(h, frames[1..], start + length, deflate);
      CountFirst(start, length, rest, n);
      if length <= n {
        DurableCountIsWholeFrames(h, frames[1..], deflate, start + length, n - length);
      }
    }
  }

  lemma CountFirst(start: nat, length: nat, rest: seq<nat>, n: nat)
    ensures WholeFrames([start + length] + rest, start + n) ==
      if length > n then 0 else 1 + WholeFrames(rest, start + length + (n - length))
  {
    WholeFramesFirst(start + length, rest, start + n);
  }

  lemma NoEnds(h: Host, frames: seq<Frame>, start: nat, deflate: bool, c: nat)
    requires frames == []
    ensures AllWritable(h, frames, deflate) && WholeFrames(FrameEnds(h, frames, start, deflate), c) == 0
  {
  }

  lemma {:induction false} DurableFirst(h: Host, frames: seq<Frame>, deflate: bool, n: nat)
    requires AllWritable(h, frames, deflate)
    ensures frames == [] ==> DurableCount(h, frames, deflate, n) == 0
    ensures frames != [] ==> Writable(h, frames[0], deflate) && AllWritable(h, frames[1..], deflate)
    ensures frames != [] ==> var length := |EncodeFrame(h, frames[0], deflate)|;
      DurableCount(h, frames, deflate, n) == (if length > n then 0 else 1 + DurableCount(h, frames[1..], deflate, n - length))
  {
    hide FrameLength, Writable, EncodeFrame, Stored, FrameEncodable, U32;
  }

  lemma WholeFramesFirst(end: nat, ends: seq<nat>, c: nat)
    ensures WholeFrames([end] + ends, c) == if end > c then 0 else 1 + WholeFrames(ends, c)
  {
    assert ([end] + ends)[1..] == ends;
  }

  lemma {:induction false} WholeFramesConcat(a: seq<nat>, b: seq<nat>, c: nat)
    requires forall i :: 0 <= i < |a| ==> a[i] <= c
    ensures WholeFrames(a + b, c) == |a| + WholeFrames(b, c)
  {
    if a != [] {
      assert (a + b)[1..] == a[1..] + b;
      WholeFramesConcat(a[1..], b, c);
    } else {
      assert a + b == b;
    }
  }

  /** What is on the disk after an append, whole or torn: the old frames, then the new frames whose
      octets all arrived. */
  lemma AppendLeavesWholeFrames(h: Host, disk: Octets, frames: seq<Frame>, deflate: bool, n: nat)
    requires h.Valid() && AllWritable(h, frames, deflate) && n <= |EncodeFrames(h, frames, deflate)|
    requires ParseLog(h, disk, true).Ok? && ParseLog(h, disk, true).value.torn == None
    requires ParseLog(h, disk, true).value.header.deflate == deflate
    ensures var p := ParseLog(h, disk, true).value;
      var after := ParseLog(h, disk + EncodeFrames(h, frames, deflate)[..n], true);
      && after.Ok? && after.value.header == p.header
      && after.value.frames == p.frames + frames[..DurableCount(h, frames, deflate, n)]
  {
    hide *;
    var p := ParseLog(h, disk, true).value;
    var x := EncodeFrames(h, frames, deflate);
    AppendReadsBack(h, disk, frames, true);
    var c := |disk| + n;
    assert disk + x[..n] == (disk + x)[..c];
    CutReadsWholePrefix(h, disk + x, true, c);
    EndsWithin(h, disk);
    WholeFramesConcat(p.ends, FrameEnds(h, frames, |disk|, deflate), c);
    DurableCountIsWholeFrames(h, frames, deflate, |disk|, n);
    var k := DurableCount(h, frames, deflate, n);
    assert (p.frames + frames)[..|p.frames| + k] == p.frames + frames[..k];
  }

  lemma EndsWithin(h: Host, b: Octets)
    requires ParseLog(h, b, true).Ok?
    ensures var p := ParseLog(h, b, true).value;
      |p.ends| == |p.frames| && p.headerBytes <= |b| && forall i :: 0 <= i < |p.ends| ==> p.ends[i] <= |b|
  {
    var p := ParseLog(h, b, true).value;
    ScanEndsAscend(h, b, p.headerBytes, p.header.deflate);
  }

  /** Reading as a whole store differs from reading as a chain member only in refusing continuations. */
  lemma ReadAsWholeStore(h: Host, b: Octets)
    requires ParseLog(h, b, true).Ok?
    ensures ParseLog(h, b, false) ==
      if ParseLog(h, b, true).value.header.continuation then Err(UnsupportedVersion) else ParseLog(h, b, true)
  {
    hide ScanFrom;
  }
}
