/** Group commit against committing one at a time, and what opening a log gives. */
module GroupCommit {
  import opened Bytes
  import opened Terms
  import opened Frames
  import opened FrameLog
  import opened TornTail
  import opened RoundTrip
  import opened TermStore
  import opened Requests
  import opened Durability
  import opened Fence

  /** One mutation run directly on the database. */
  function SerialStep(h: Host, db: Db, mutation: Mutation): (Db, Outcome) {
    match mutation(db.store)
    case Reject(refusal) => (db, Outcome(Refused(refusal), db.store.Current()))
    case Submit(request) =>
      var (after, result) := CommitStep(h, db, request, None);
      (after, Outcome(result, after.store.Current()))
  }

  /** The mutations one at a time, in order. */
  function Serial(h: Host, db: Db, mutations: seq<Mutation>): (r: (Db, seq<Outcome>))
    decreases |mutations|
  {
    if mutations == [] then (db, []) else
    var n := |mutations| - 1;
    var (before, outcomes) := Serial(h, db, mutations[..n]);
    var (after, outcome) := SerialStep(h, before, mutations[n]);
    (after, outcomes + [outcome])
  }

  // ----- appending one frame more -----

  lemma {:induction false} WritableConcat(h: Host, a: seq<Frame>, f: Frame, deflate: bool)
    ensures AllWritable(h, a + [f], deflate) <==> AllWritable(h, a, deflate) && Writable(h, f, deflate)
  {
    hide Writable;
    if a != [] {
      assert (a + [f])[1..] == a[1..] + [f];
      WritableConcat(h, a[1..], f, deflate);
    } else {
      assert a + [f] == [f] && [f][1..] == [];
    }
  }

  lemma {:induction false} EncodeConcat(h: Host, a: seq<Frame>, f: Frame, deflate: bool)
    requires AllWritable(h, a, deflate) && Writable(h, f, deflate)
    ensures AllWritable(h, a + [f], deflate)
    ensures EncodeFrames(h, a + [f], deflate) == EncodeFrames(h, a, deflate) + EncodeFrame(h, f, deflate)
  {
    hide Writable, EncodeFrame;
    WritableConcat(h, a, f, deflate);
    if a != [] {
      assert (a + [f])[1..] == a[1..] + [f];
      EncodeConcat(h, a[1..], f, deflate);
    } else {
      assert a + [f] == [f] && [f][1..] == [];
    }
  }

  lemma {:induction false} WholePrefix(h: Host, frames: seq<Frame>, deflate: bool)
    requires AllWritable(h, frames, deflate)
    ensures WritablePrefix(h, frames, deflate) == frames
  {
    hide Writable;
    if frames != [] {
      WholePrefix(h, frames[1..], deflate);
    }
  }

  lemma {:induction false} StuckPrefix(h: Host, a: seq<Frame>, f: Frame, deflate: bool)
    requires !Writable(h, f, deflate) || !AllWritable(h, a, deflate)
    ensures WritablePrefix(h, a + [f], deflate) == WritablePrefix(h, a, deflate)
  {
    hide Writable;
    if a != [] {
      assert (a + [f])[1..] == a[1..] + [f];
      if Writable(h, a[0], deflate) {
        StuckPrefix(h, a[1..], f, deflate);
      }
    } else {
      assert a + [f] == [f];
    }
  }

  // ----- lockstep -----

  /** The database once the frames a cohort deferred have all been appended and published. */
  function Landed(h: Host, db: Db, s: Scratch): Db
    requires db.log.None? || AllWritable(h, s.frames, db.deflate)
  {
    db.(store := s.store,
        log := if db.log.None? then None else Some(db.log.value + EncodeFrames(h, s.frames, db.deflate)))
  }

  predicate Lands(h: Host, db: Db, s: Scratch) {
    db.log.None? || AllWritable(h, s.frames, db.deflate)
  }

  /** One mutation moves the serial database and the private root in step. */
  lemma StepInLockstep(h: Host, db: Db, s: Scratch, mutation: Mutation)
    requires db.status.Ready? && Lands(h, db, s)
    requires Lands(h, db, ScratchStep(s, db.torn.Some?, mutation))
    ensures var t := ScratchStep(s, db.torn.Some?, mutation);
      var (after, outcome) := SerialStep(h, Landed(h, db, s), mutation);
      after == Landed(h, db, t) && t.outcomes == s.outcomes + [outcome]
  {
    hide Prepare, Commit, Writable, EncodeFrame, EncodeFrames, AllWritable;
    match mutation(s.store)
    case Reject(_) =>
    case Submit(request) =>
      match Prepare(s.store, db.torn.Some?, request)
      case Refuse(_) =>
      case Fine(f) =>
        if db.log.Some? {
          AppendInLockstep(h, db, s, f);
        }
  }

  lemma AppendInLockstep(h: Host, db: Db, s: Scratch, f: Frame)
    requires db.log.Some? && AllWritable(h, s.frames, db.deflate) && AllWritable(h, s.frames + [f], db.deflate)
    ensures var disk := db.log.value + EncodeFrames(h, s.frames, db.deflate);
      Append(h, disk, [f], db.deflate, None)
        == Appended(true, db.log.value + EncodeFrames(h, s.frames + [f], db.deflate))
  {
    hide Writable, EncodeFrame, EncodeFrames;
    WritableConcat(h, s.frames, f, db.deflate);
    EncodeConcat(h, s.frames, f, db.deflate);
    SingleFrame(h, f, db.deflate);
    var old_, new_ := EncodeFrames(h, s.frames, db.deflate), EncodeFrame(h, f, db.deflate);
    assert db.log.value + (old_ + new_) == (db.log.value + old_) + new_;
  }

  lemma SingleFrame(h: Host, f: Frame, deflate: bool)
    requires Writable(h, f, deflate)
    ensures WritablePrefix(h, [f], deflate) == [f] && EncodeFrames(h, [f], deflate) == EncodeFrame(h, f, deflate)
  {
    hide Writable, EncodeFrame;
    assert [f][1..] == [];
  }

  lemma ScratchGrows(s: Scratch, torn: bool, mutation: Mutation)
    ensures var t := ScratchStep(s, torn, mutation);
      t.frames == s.frames || exists f :: t.frames == s.frames + [f]
  {
    hide Prepare, Commit;
  }

  lemma LandsBefore(h: Host, db: Db, s: Scratch, mutation: Mutation)
    requires Lands(h, db, ScratchStep(s, db.torn.Some?, mutation))
    ensures Lands(h, db, s)
  {
    hide ScratchStep;
    ScratchGrows(s, db.torn.Some?, mutation);
    var t := ScratchStep(s, db.torn.Some?, mutation);
    if t.frames != s.frames {
      var f :| t.frames == s.frames + [f];
      WritableConcat(h, s.frames, f, db.deflate);
    }
  }

  /** While every frame can be written, the serial run and the private root agree at every point. */
  lemma {:induction false} RunInLockstep(h: Host, db: Db, mutations: seq<Mutation>)
    requires db.status.Ready? && Lands(h, db, RunScratch(db.store, db.torn.Some?, mutations))
    ensures var s := RunScratch(db.store, db.torn.Some?, mutations);
      Serial(h, db, mutations) == (Landed(h, db, s), s.outcomes)
    decreases |mutations|
  {
    hide ScratchStep, SerialStep, AllWritable;
    if mutations != [] {
      var n := |mutations| - 1;
      var before := RunScratch(db.store, db.torn.Some?, mutations[..n]);
      LandsBefore(h, db, before, mutations[n]);
      RunInLockstep(h, db, mutations[..n]);
      StepInLockstep(h, db, before, mutations[n]);
    } else {
      NothingLanded(h, db);
    }
  }

  lemma NothingLanded(h: Host, db: Db)
    ensures Lands(h, db, Scratch(db.store, [], [])) && Landed(h, db, Scratch(db.store, [], [])) == db
  {
    assert db.log.Some? ==> db.log.value + [] == db.log.value;
  }

  // ----- when a frame cannot be written -----

  /** The database a group commit leaves when its barrier fails on an unwritable frame. */
  function Stuck(h: Host, db: Db, s: Scratch): Db
    requires db.log.Some?
  {
    FenceAndReconcile(h, Attempted(h, db, s.frames, None))
  }

  /** Without a storage fault, what survives an unwritable frame is the writable prefix. */
  lemma PrefixSurvives(h: Host, db: Db, frames: seq<Frame>)
    requires db.log.Some? && !AllWritable(h, frames, db.deflate)
    ensures var whole := WritablePrefix(h, frames, db.deflate);
      && Append(h, db.log.value, frames, db.deflate, None)
        == Appended(false, db.log.value + EncodeFrames(h, whole, db.deflate))
      && Survivors(h, db, frames, None) == whole
  {
    hide EncodeFrames, Writable;
    var whole := WritablePrefix(h, frames, db.deflate);
    DurableAll(h, whole, db.deflate, |EncodeFrames(h, whole, db.deflate)|);
    assert frames[..|whole|] == whole;
  }

  /** What the fence leaves after an unwritable frame: the writable prefix, durable and in memory. */
  lemma StuckIsPrefix(h: Host, db: Db, frames: seq<Frame>)
    requires h.Valid() && Safe(h, db) && db.status.Ready? && db.torn.None? && db.log.Some?
    requires ReplayAll(db.store, frames).Ok? && !AllWritable(h, frames, db.deflate)
    ensures var whole := WritablePrefix(h, frames, db.deflate);
      && !Append(h, db.log.value, frames, db.deflate, None).ok
      && ReplayAll(db.store, whole).Ok?
      && FenceAndReconcile(h, Attempted(h, db, frames, None))
        == db.(log := Some(db.log.value + EncodeFrames(h, whole, db.deflate)),
               store := ReplayAll(db.store, whole).value, status := Fenced(true))
  {
    hide EncodeFrames, Writable, FenceAndReconcile, ParseLog, Append, Survivors, AllWritable, ReplayAll;
    SafeLogIsWhole(h, db);
    FailedAppendReconciles(h, db, NewStore(db.space), frames, None);
    PrefixSurvives(h, db, frames);
  }

  /** The first frame that cannot be written fences the serial run just where it fences the cohort. */
  lemma StuckTogether(h: Host, db: Db, s: Scratch, mutation: Mutation)
    requires h.Valid() && Safe(h, db) && db.status.Ready? && db.log.Some? && db.torn.None?
    requires AllWritable(h, s.frames, db.deflate) && ReplayAll(db.store, s.frames) == Ok(s.store)
    requires Safe(h, Landed(h, db, s)) && s.store.next >= 1
    requires !AllWritable(h, ScratchStep(s, false, mutation).frames, db.deflate)
    requires ReplayAll(db.store, ScratchStep(s, false, mutation).frames).Ok?
    ensures SerialStep(h, Landed(h, db, s), mutation).0 == Stuck(h, db, ScratchStep(s, false, mutation))
  {
    hide Prepare, Commit, Writable, EncodeFrame, EncodeFrames, AllWritable, ParseLog, FenceAndReconcile, Safe, Append;
    var request := mutation(s.store).request;
    var f := Prepare(s.store, false, request).value;
    var landed := Landed(h, db, s);
    WritableConcat(h, s.frames, f, db.deflate);
    WritableConcat(h, [], f, db.deflate);
    assert [] + [f] == [f];
    PreparedFrameReplays(s.store, false, request);
    ReplayOne(s.store, f);
    StuckIsPrefix(h, db, s.frames + [f]);
    StuckPrefix(h, s.frames, f, db.deflate);
    WholePrefix(h, s.frames, db.deflate);
    StuckIsPrefix(h, landed, [f]);
    StuckPrefix(h, [], f, db.deflate);
    EncodesNothing(h, landed.log.value, db.deflate);
  }

  lemma EncodesNothing(h: Host, b: Octets, deflate: bool)
    ensures WritablePrefix(h, [], deflate) == [] && b + EncodeFrames(h, [], deflate) == b
  {
  }

  /** Once fenced, later mutations change neither side. */
  lemma StuckStays(h: Host, db: Db, s: Scratch, mutation: Mutation)
    requires h.Valid() && Safe(h, db) && db.status.Ready? && db.log.Some? && db.torn.None?
    requires !AllWritable(h, s.frames, db.deflate) && ReplayAll(db.store, s.frames).Ok?
    requires ReplayAll(db.store, ScratchStep(s, false, mutation).frames).Ok?
    ensures var t := ScratchStep(s, false, mutation);
      && !AllWritable(h, t.frames, db.deflate)
      && Stuck(h, db, t) == Stuck(h, db, s)
      && SerialStep(h, Stuck(h, db, s), mutation).0 == Stuck(h, db, s)
  {
    hide ScratchStep, Writable, EncodeFrames, AllWritable, FenceAndReconcile, Safe, Append;
    var t := ScratchStep(s, false, mutation);
    ScratchGrows(s, false, mutation);
    StuckIsPrefix(h, db, s.frames);
    if t.frames != s.frames {
      var f :| t.frames == s.frames + [f];
      WritableConcat(h, s.frames, f, db.deflate);
      StuckPrefix(h, s.frames, f, db.deflate);
      StuckIsPrefix(h, db, t.frames);
    }
  }

  lemma SafeIsStarted(h: Host, db: Db)
    requires Safe(h, db)
    ensures db.store.next >= 1 && db.store.space == db.space
  {
  }

  lemma {:induction false} RunGetsStuck(h: Host, db: Db, mutations: seq<Mutation>)
    requires h.Valid() && Safe(h, db) && db.status.Ready? && db.log.Some? && db.torn.None?
    requires !AllWritable(h, RunScratch(db.store, false, mutations).frames, db.deflate)
    ensures Serial(h, db, mutations).0 == Stuck(h, db, RunScratch(db.store, false, mutations))
    decreases |mutations|
  {
    hide ScratchStep, SerialStep, AllWritable, Stuck, Safe;
    if mutations == [] {
      EncodesNothing(h, [], db.deflate);
      NothingUnwritable(h, db.deflate);
    } else {
      var n := |mutations| - 1;
      var s := RunScratch(db.store, false, mutations[..n]);
      SafeIsStarted(h, db);
      ScratchReplays(db.store, false, mutations[..n]);
      ScratchReplays(db.store, false, mutations);
      if AllWritable(h, s.frames, db.deflate) {
        RunInLockstep(h, db, mutations[..n]);
        LandedIsSafe(h, db, s);
        StuckTogether(h, db, s, mutations[n]);
      } else {
        RunGetsStuck(h, db, mutations[..n]);
        StuckStays(h, db, s, mutations[n]);
      }
    }
  }

  lemma NothingUnwritable(h: Host, deflate: bool)
    ensures AllWritable(h, [], deflate)
  {
  }

  lemma LandedIsSafe(h: Host, db: Db, s: Scratch)
    requires h.Valid() && Safe(h, db) && db.status.Ready? && db.torn.None? && db.log.Some?
    requires AllWritable(h, s.frames, db.deflate)
    requires ReplayAll(db.store, s.frames) == Ok(s.store) && s.store.next >= 1 && s.store.space == db.space
    ensures Safe(h, Landed(h, db, s))
  {
    hide EncodeFrames, Safe, FenceAndReconcile, Writable;
    WholePrefix(h, s.frames, db.deflate);
    AppendKeepsSafe(h, db, s.frames, s.store, None);
  }

  /** Group commit refines serial commit. Without a storage fault the database it leaves is exactly the
      one serial commits leave: same memory, log, and status. Its outcomes and versions are the serial
      ones exactly when every frame it deferred can be written. */
  lemma GroupCommitRefinesSerial(h: Host, db: Db, mutations: seq<Mutation>)
    requires h.Valid() && Safe(h, db) && db.status.Ready?
    ensures CohortStep(h, db, mutations, None).0 == Serial(h, db, mutations).0
    ensures var frames := RunScratch(db.store, db.torn.Some?, mutations).frames;
      CohortStep(h, db, mutations, None).1 ==
        if Lands(h, db, RunScratch(db.store, db.torn.Some?, mutations))
        then Published(Serial(h, db, mutations).1, |frames|) else CohortAmbiguous(Fenced(true))
  {
    hide EncodeFrames, FenceAndReconcile, Safe, ScratchStep, SerialStep, Writable;
    var s := RunScratch(db.store, db.torn.Some?, mutations);
    SafeIsStarted(h, db);
    ScratchReplays(db.store, db.torn.Some?, mutations);
    if Lands(h, db, s) {
      RunInLockstep(h, db, mutations);
      if db.log.Some? {
        WholePrefix(h, s.frames, db.deflate);
      }
      if s.frames == [] {
        EmptyCohort(h, db, mutations, s);
      }
    } else {
      if db.torn.Some? {
        TornDefersNothing(db.store, mutations);
        NothingUnwritable(h, db.deflate);
      }
      RunGetsStuck(h, db, mutations);
      StuckIsPrefix(h, db, s.frames);
      NothingUnwritable(h, db.deflate);
    }
  }

  lemma EmptyCohort(h: Host, db: Db, mutations: seq<Mutation>, s: Scratch)
    requires s.frames == [] && ReplayAll(db.store, s.frames) == Ok(s.store)
    ensures Lands(h, db, s) && Landed(h, db, s) == db
  {
    assert db.log.Some? ==> db.log.value + [] == db.log.value;
  }

  // ----- opening -----

  /** Opens a log that is a whole store, optionally truncating a torn tail. */
  function OpenDatabase(h: Host, b: Octets, expected: Option<Octets>, repair: bool): (r: Result<Db>) {
    var p :- ParseLog(h, b, false);
    if expected.Some? && expected.value != p.header.space then Err(SpaceMismatch) else
    var s :- ReplayAll(NewStore(p.header.space), p.frames);
    Ok(Db(p.header.space, s,
          Some(if p.torn.Some? && repair then b[..p.ValidBytes()] else b),
          p.deflate, if repair then None else p.torn, Ready))
  }

  /** Whether opening for repair drops a compression flag the log has. */
  predicate LosesDeflate(h: Host, b: Octets, repair: bool) {
    match ParseLog(h, b, false)
    case Ok(p) => repair && p.header.deflate && p.torn == Some(TornFrame)
    case Err(_) => false
  }

  /** Opening gives a safe database exactly when the repair does not lose the compression flag. */
  lemma OpenIsSafeIff(h: Host, b: Octets, expected: Option<Octets>, repair: bool)
    requires OpenDatabase(h, b, expected, repair).Ok?
    ensures Safe(h, OpenDatabase(h, b, expected, repair).value) <==> !LosesDeflate(h, b, repair)
    ensures OpenDatabase(h, b, expected, repair).value.store
      == ReplayAll(NewStore(ParseLog(h, b, false).value.header.space), ParseLog(h, b, false).value.frames).value
  {
    hide ScanFrom, ParseHeader, ReplayAll;
    var p := ParseLog(h, b, false).value;
    var db := OpenDatabase(h, b, expected, repair).value;
    AsChainMember(h, b);
    RepairReadsClean(h, b, false);
    AsChainMember(h, b[..p.ValidBytes()]);
    ReplayKeepsSpace(NewStore(p.header.space), p.frames);
  }

  lemma AsChainMember(h: Host, b: Octets)
    requires ParseLog(h, b, false).Ok?
    ensures ParseLog(h, b, true) == ParseLog(h, b, false)
  {
    hide ScanFrom;
  }
}
