/** Safety of commit and group commit over every run, with appends that may fail at any octet. */
module Fence {
  import opened Bytes
  import opened Terms
  import opened Frames
  import opened FrameLog
  import opened TornTail
  import opened RoundTrip
  import opened TermStore
  import opened Requests
  import opened Durability

  lemma CommitFacts(s: Store, f: Frame)
    ensures Commit(s, f).next == f.sequence + 1 && Commit(s, f).space == s.space
    ensures Commit(s, f).rows == s.rows + RowsOf(f)
  {
    ApplyRowsFrame(s.(transactions := s.transactions + [TransactionRow(f.sequence, |s.rows|, |f.operations|)]), RowsOf(f));
  }

  lemma ReplayOne(s: Store, f: Frame)
    ensures ReplayAll(s, [f]) == ReplayFrame(s, f)
  {
    assert [f][..0] == [];
  }

  lemma {:induction false} ReplayPrefix(s: Store, fs: seq<Frame>, k: nat)
    requires k <= |fs| && ReplayAll(s, fs).Ok?
    ensures ReplayAll(s, fs[..k]).Ok?
  {
    assert fs == fs[..k] + fs[k..];
    ReplayConcat(s, fs[..k], fs[k..]);
  }

  lemma {:induction false} ReplayKeepsSpace(s: Store, fs: seq<Frame>)
    requires s.next >= 1 && ReplayAll(s, fs).Ok?
    ensures ReplayAll(s, fs).value.space == s.space && ReplayAll(s, fs).value.next >= 1
    decreases |fs|
  {
    hide Commit;
    if fs != [] {
      ReplayKeepsSpace(s, fs[..|fs| - 1]);
      CommitFacts(ReplayAll(s, fs[..|fs| - 1]).value, fs[|fs| - 1]);
    }
  }

  /** Frames that replay carry ascending sequences, none before the store they start from. */
  lemma {:induction false} ReplayAscends(s: Store, fs: seq<Frame>)
    requires ReplayAll(s, fs).Ok?
    ensures s.next <= ReplayAll(s, fs).value.next
    ensures forall i :: 0 <= i < |fs| ==> s.next <= fs[i].sequence < ReplayAll(s, fs).value.next
    ensures forall i, j :: 0 <= i < j < |fs| ==> fs[i].sequence < fs[j].sequence
    decreases |fs|
  {
    hide Commit;
    if fs != [] {
      var n := |fs| - 1;
      ReplayAscends(s, fs[..n]);
      CommitFacts(ReplayAll(s, fs[..n]).value, fs[n]);
    }
  }

  /** The cohort's private root is the replay of its deferred frames. */
  lemma {:induction false} ScratchReplays(store: Store, torn: bool, mutations: seq<Mutation>)
    requires store.next >= 1
    ensures var s := RunScratch(store, torn, mutations);
      ReplayAll(store, s.frames) == Ok(s.store) && s.store.next >= 1 && s.store.space == store.space
    decreases |mutations|
  {
    hide Prepare, Commit, ReplayFrame;
    if mutations != [] {
      var n := |mutations| - 1;
      ScratchReplays(store, torn, mutations[..n]);
      ScratchStepReplays(store, RunScratch(store, torn, mutations[..n]), torn, mutations[n]);
    }
  }

  lemma ScratchStepReplays(store: Store, s: Scratch, torn: bool, mutation: Mutation)
    requires ReplayAll(store, s.frames) == Ok(s.store) && s.store.next >= 1 && s.store.space == store.space
    ensures var t := ScratchStep(s, torn, mutation);
      ReplayAll(store, t.frames) == Ok(t.store) && t.store.next >= 1 && t.store.space == store.space
  {
    hide Prepare, Commit;
    match mutation(s.store)
    case Reject(_) =>
    case Submit(request) =>
      match Prepare(s.store, torn, request)
      case Refuse(_) =>
      case Fine(f) =>
        PreparedIsNext(s.store, torn, request);
        PreparedFrameReplays(s.store, torn, request);
        CommitFacts(s.store, f);
        assert (s.frames + [f])[..|s.frames|] == s.frames;
  }

  lemma PreparedIsNext(s: Store, torn: bool, request: Request)
    requires Prepare(s, torn, request).Fine?
    ensures Prepare(s, torn, request).value.sequence == s.next && !torn
  {
  }

  // ----- one failed append -----

  /** Sound and writable: what a commit needs before it touches the disk. */
  ghost predicate Writing(h: Host, db: Db, base: Store) {
    Sound(h, db, base) && db.status.Ready? && db.torn.None?
  }

  /** How many of `frames` are whole on the disk after an append that failed. */
  function Durable(h: Host, db: Db, frames: seq<Frame>, fault: Option<nat>): (k: nat)
    requires db.log.Some?
    ensures k <= |frames|
  {
    var whole := WritablePrefix(h, frames, db.deflate);
    DurableCount(h, whole, db.deflate, |Append(h, db.log.value, frames, db.deflate, fault).disk| - |db.log.value|)
  }

  /** After an append to a clean log, failed or not, the log reads as the old frames and then
      exactly the new frames that are whole on the disk. */
  lemma AppendedLogReads(h: Host, db: Db, base: Store, frames: seq<Frame>, fault: Option<nat>)
    requires h.Valid() && Writing(h, db, base) && db.log.Some?
    ensures var p := ParseLog(h, db.log.value, true).value;
      var after := ParseLog(h, Append(h, db.log.value, frames, db.deflate, fault).disk, true);
      && after.Ok? && after.value.header == p.header
      && after.value.frames == p.frames + frames[..Durable(h, db, frames, fault)]
  {
    hide ParseLog, EncodeFrames, DurableCount;
    var disk := db.log.value;
    var whole := WritablePrefix(h, frames, db.deflate);
    var octets := EncodeFrames(h, whole, db.deflate);
    var n := |Append(h, disk, frames, db.deflate, fault).disk| - |disk|;
    assert octets[..|octets|] == octets;
    assert Append(h, disk, frames, db.deflate, fault).disk == disk + octets[..n];
    AppendLeavesWholeFrames(h, disk, whole, db.deflate, n);
    var k := Durable(h, db, frames, fault);
    assert whole[..k] == frames[..k];
  }

  lemma {:induction false} DurableAll(h: Host, frames: seq<Frame>, deflate: bool, n: nat)
    requires AllWritable(h, frames, deflate) && n == |EncodeFrames(h, frames, deflate)|
    ensures DurableCount(h, frames, deflate, n) == |frames|
    decreases |frames|
  {
    hide EncodeFrame, Writable;
    if frames != [] {
      DurableAll(h, frames[1..], deflate, |EncodeFrames(h, frames[1..], deflate)|);
    }
  }

  /** A successful append makes every frame durable. */
  lemma SuccessIsDurable(h: Host, db: Db, frames: seq<Frame>, fault: Option<nat>)
    requires db.log.Some? && Append(h, db.log.value, frames, db.deflate, fault).ok
    ensures Durable(h, db, frames, fault) == |frames| && fault.None?
  {
    DurableAll(h, frames, db.deflate, |EncodeFrames(h, frames, db.deflate)|);
  }

  /** Whether the log's header says it continues a sealed chain. */
  predicate ContinuesChain(h: Host, b: Octets) {
    match ParseLog(h, b, true)
    case Ok(p) => p.header.continuation
    case Err(_) => false
  }

  /** The database as it stands on disk after the attempt to append `frames`. */
  function Attempted(h: Host, db: Db, frames: seq<Frame>, fault: Option<nat>): Db
    requires db.log.Some?
  {
    db.(log := Some(Append(h, db.log.value, frames, db.deflate, fault).disk))
  }

  function Survivors(h: Host, db: Db, frames: seq<Frame>, fault: Option<nat>): seq<Frame>
    requires db.log.Some?
  {
    frames[..Durable(h, db, frames, fault)]
  }

  lemma AttemptedLogReplays(h: Host, db: Db, base: Store, frames: seq<Frame>, fault: Option<nat>)
    requires h.Valid() && Writing(h, db, base) && db.log.Some? && ReplayAll(db.store, frames).Ok?
    ensures ReplayAll(db.store, Survivors(h, db, frames, fault)).Ok?
    ensures var after := ParseLog(h, Attempted(h, db, frames, fault).log.value, true);
      && after.Ok? && after.value.header == ParseLog(h, db.log.value, true).value.header
      && ReplayAll(base, after.value.frames) == ReplayAll(db.store, Survivors(h, db, frames, fault))
  {
    hide ParseLog, EncodeFrames, Append, Durable;
    AppendedLogReads(h, db, base, frames, fault);
    ReplayPrefix(db.store, frames, Durable(h, db, frames, fault));
    ReplayConcat(base, ParseLog(h, db.log.value, true).value.frames, Survivors(h, db, frames, fault));
  }

  /** A failed append fences the database. On a log that begins a store, memory becomes the replay of
      exactly the frames that are whole on the disk; it is never marked corrupt. On a log that
      continues a sealed chain the fence refuses the header it reads, and the database is corrupt. */
  lemma FailedAppendReconciles(h: Host, db: Db, base: Store, frames: seq<Frame>, fault: Option<nat>)
    requires h.Valid() && Writing(h, db, base) && db.log.Some? && ReplayAll(db.store, frames).Ok?
    requires ContinuesChain(h, db.log.value) || base == NewStore(db.space)
    ensures ReplayAll(db.store, Survivors(h, db, frames, fault)).Ok?
    ensures var attempted := Attempted(h, db, frames, fault);
      FenceAndReconcile(h, attempted) ==
        if ContinuesChain(h, db.log.value) then attempted.(status := Corrupt)
        else attempted.(store := ReplayAll(db.store, Survivors(h, db, frames, fault)).value, status := Fenced(true))
  {
    hide ParseLog, EncodeFrames, Append, Durable, Survivors;
    AttemptedLogReplays(h, db, base, frames, fault);
    ReadAsWholeStore(h, Attempted(h, db, frames, fault).log.value);
  }

  /** The fenced database of a whole store is again sound. */
  lemma ReconciledIsSound(h: Host, db: Db, frames: seq<Frame>, fault: Option<nat>)
    requires h.Valid() && Writing(h, db, NewStore(db.space)) && db.log.Some? && ReplayAll(db.store, frames).Ok?
    requires !ContinuesChain(h, db.log.value)
    ensures Sound(h, FenceAndReconcile(h, Attempted(h, db, frames, fault)), NewStore(db.space))
  {
    hide ParseLog, EncodeFrames, Append, Durable, Survivors, FenceAndReconcile;
    AttemptedLogReplays(h, db, NewStore(db.space), frames, fault);
    FailedAppendReconciles(h, db, NewStore(db.space), frames, fault);
    ReplayKeepsSpace(db.store, Survivors(h, db, frames, fault));
  }

  // ----- steps -----

  /** What every run of a database opened on a whole store keeps. */
  ghost predicate Safe(h: Host, db: Db) {
    && Sound(h, db, NewStore(db.space))
    && WholeStoreLog(h, db)
    && db.status != Corrupt
    && (db.status.Fenced? ==> db.status.reconciled)
  }

  lemma SafeLogIsWhole(h: Host, db: Db)
    requires Safe(h, db) && db.log.Some?
    ensures !ContinuesChain(h, db.log.value)
  {
    hide ParseLog;
    ReadAsWholeStore(h, db.log.value);
  }

  lemma WholeAfterAttempt(h: Host, db: Db, base: Store, frames: seq<Frame>, fault: Option<nat>)
    requires h.Valid() && Writing(h, db, base) && db.log.Some? && !ContinuesChain(h, db.log.value)
    ensures WholeStoreLog(h, Attempted(h, db, frames, fault))
  {
    hide ParseLog, EncodeFrames, Append, Durable;
    AppendedLogReads(h, db, base, frames, fault);
    ReadAsWholeStore(h, Attempted(h, db, frames, fault).log.value);
  }

  lemma SuccessIsSound(h: Host, db: Db, frames: seq<Frame>, after: Store, fault: Option<nat>)
    requires h.Valid() && Writing(h, db, NewStore(db.space)) && db.log.Some?
    requires ReplayAll(db.store, frames) == Ok(after) && after.next >= 1 && after.space == db.space
    requires Append(h, db.log.value, frames, db.deflate, fault).ok
    ensures Sound(h, Attempted(h, db, frames, fault).(store := after), NewStore(db.space))
  {
    hide ParseLog, EncodeFrames, FrameEnds, Durable;
    SuccessIsDurable(h, db, frames, fault);
    AppendReadsBack(h, db.log.value, frames, true);
    AttemptedLogReplays(h, db, NewStore(db.space), frames, fault);
    assert frames[..|frames|] == frames;
  }

  /** The database after the append of `frames`, whichever way it went. */
  function Settled(h: Host, db: Db, frames: seq<Frame>, after: Store, fault: Option<nat>): Db
    requires db.log.Some?
  {
    if Append(h, db.log.value, frames, db.deflate, fault).ok
    then Attempted(h, db, frames, fault).(store := after)
    else FenceAndReconcile(h, Attempted(h, db, frames, fault))
  }

  lemma AppendKeepsSafe(h: Host, db: Db, frames: seq<Frame>, after: Store, fault: Option<nat>)
    requires h.Valid() && Safe(h, db) && db.status.Ready? && db.torn.None? && db.log.Some?
    requires ReplayAll(db.store, frames) == Ok(after) && after.next >= 1 && after.space == db.space
    ensures Safe(h, Settled(h, db, frames, after, fault))
  {
    hide ParseLog, EncodeFrames, Append, FenceAndReconcile, Sound;
    SafeLogIsWhole(h, db);
    WholeAfterAttempt(h, db, NewStore(db.space), frames, fault);
    if Append(h, db.log.value, frames, db.deflate, fault).ok {
      SuccessIsSound(h, db, frames, after, fault);
    } else {
      FailedAppendReconciles(h, db, NewStore(db.space), frames, fault);
      ReconciledIsSound(h, db, frames, fault);
    }
  }

  /** One commit, failing or not, keeps memory equal to the replay of the log. */
  lemma CommitKeepsSafe(h: Host, db: Db, request: Request, fault: Option<nat>)
    requires h.Valid() && Safe(h, db)
    ensures Safe(h, CommitStep(h, db, request, fault).0)
  {
    hide ParseLog, Append, FenceAndReconcile, Prepare, Commit;
    if db.status.Ready? && Prepare(db.store, db.torn.Some?, request).Fine? {
      var f := Prepare(db.store, db.torn.Some?, request).value;
      PreparedIsNext(db.store, db.torn.Some?, request);
      PreparedFrameReplays(db.store, db.torn.Some?, request);
      CommitFacts(db.store, f);
      ReplayOne(db.store, f);
      if db.log.Some? {
        AppendKeepsSafe(h, db, [f], Commit(db.store, f), fault);
      }
    }
  }

  lemma {:induction false} TornDefersNothing(store: Store, mutations: seq<Mutation>)
    ensures RunScratch(store, true, mutations).frames == []
    decreases |mutations|
  {
    hide Commit;
    if mutations != [] {
      TornDefersNothing(store, mutations[..|mutations| - 1]);
    }
  }

  /** A whole cohort under one barrier keeps memory equal to the replay of the log. */
  lemma CohortKeepsSafe(h: Host, db: Db, mutations: seq<Mutation>, fault: Option<nat>)
    requires h.Valid() && Safe(h, db)
    ensures Safe(h, CohortStep(h, db, mutations, fault).0)
  {
    hide ParseLog, Append, FenceAndReconcile, RunScratch;
    if db.status.Ready? {
      ScratchReplays(db.store, db.torn.Some?, mutations);
      var s := RunScratch(db.store, db.torn.Some?, mutations);
      if db.torn.Some? {
        TornDefersNothing(db.store, mutations);
      } else if s.frames != [] && db.log.Some? {
        AppendKeepsSafe(h, db, s.frames, s.store, fault);
      }
    }
  }

  // ----- runs -----

  datatype Event = One(request: Request, fault: Option<nat>) | Many(mutations: seq<Mutation>, fault: Option<nat>)

  function Step(h: Host, db: Db, e: Event): Db {
    match e
    case One(request, fault) => CommitStep(h, db, request, fault).0
    case Many(mutations, fault) => CohortStep(h, db, mutations, fault).0
  }

  function Run(h: Host, db: Db, events: seq<Event>): Db
    decreases |events|
  {
    if events == [] then db else Step(h, Run(h, db, events[..|events| - 1]), events[|events| - 1])
  }

  /** Over every run, with appends failing after any octet, memory is the replay of the log and the
      database is never corrupt. */
  lemma {:induction false} EveryRunIsSafe(h: Host, db: Db, events: seq<Event>)
    requires h.Valid() && Safe(h, db)
    ensures Safe(h, Run(h, db, events))
    decreases |events|
  {
    hide Safe, CommitStep, CohortStep;
    if events != [] {
      var n := |events| - 1;
      EveryRunIsSafe(h, db, events[..n]);
      match events[n]
      case One(request, fault) => CommitKeepsSafe(h, Run(h, db, events[..n]), request, fault);
      case Many(mutations, fault) => CohortKeepsSafe(h, Run(h, db, events[..n]), mutations, fault);
    }
  }

  /** Once a database has left `Ready`, nothing later in any run changes memory, log, or status. */
  lemma {:induction false} FencedForGood(h: Host, db: Db, events: seq<Event>)
    requires !db.status.Ready?
    ensures Run(h, db, events) == db
    decreases |events|
  {
    if events != [] {
      FencedForGood(h, db, events[..|events| - 1]);
    }
  }
}
