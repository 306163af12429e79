/** Leases over every run of single mutations and cohorts, with appends that may fail. */
module LeaseRuns {
  import opened Bytes
  import opened Terms
  import opened Frames
  import opened FrameLog
  import opened RoundTrip
  import opened TermStore
  import opened Coordinates
  import opened Requests
  import opened Durability
  import opened Fence
  import opened Leases
  import opened LeaseSafety
  import opened LeaseFencing
  import GroupCommit

  /** One mutation: an ordinary change, decided from the store it meets, or a lease operation. */
  datatype LeaseEvent =
    | Change(mutation: Mutation)
    | Acquire(resource: Term, holder: Term, ttl: int, now: int)
    | Renew(resource: Term, holder: Term, epoch: Term, ttl: int, now: int)
    | Release(resource: Term, holder: Term, epoch: Term)

  function Decide(s: Store, e: LeaseEvent): Decision {
    match e
    case Change(mutation) => mutation(s)
    case Acquire(resource, holder, ttl, now) => AcquireLease(s, resource, holder, ttl, now)
    case Renew(resource, holder, epoch, ttl, now) => RenewLease(s, resource, holder, epoch, ttl, now)
    case Release(resource, holder, epoch) => ReleaseLease(s, resource, holder, epoch)
  }

  /** The database after one mutation, and the answer it gives. */
  function LeaseStep(h: Host, db: Db, e: LeaseEvent, fault: Option<nat>): (Db, CommitResult) {
    match Decide(db.store, e)
    case Reject(refusal) => (db, Refused(refusal))
    case Submit(request) => CommitStep(h, db, request, fault)
  }

  /** Ordinary changes stay away from leases. */
  predicate Fits(s: Store, e: LeaseEvent) {
    e.Change? && e.mutation(s).Submit? ==> OrdinaryRequest(s, e.mutation(s).request)
  }

  /** Whether the event may end lease `p`: its own holder renews or releases it, or it has expired and
      someone acquires the resource. */
  predicate MayEnd(s: Store, e: LeaseEvent, p: nat)
    requires LeaseRow(s, p)
  {
    var x := s.rows[p].proposition;
    match e
    case Change(_) => false
    case Acquire(resource, _, _, now) => resource == Resource(x) && Expires(x) <= now
    case Renew(resource, holder, epoch, _, _) => resource == Resource(x) && holder == Holder(x) && epoch == CoordinateAt(s, p)
    case Release(resource, holder, epoch) => resource == Resource(x) && holder == Holder(x) && epoch == CoordinateAt(s, p)
  }

  /** What one event may do to the leases recorded so far. */
  ghost predicate Moves(s: Store, t: Store, e: LeaseEvent) {
    && LeaseSafe(t) && s.rows <= t.rows && s.space == t.space && s.next <= t.next
    && (forall p: nat :: LeaseRow(s, p) && Effective(t, p) ==> Effective(s, p))
    && (forall p: nat :: LeaseRow(s, p) && Effective(s, p) && !Effective(t, p) ==> MayEnd(s, e, p))
    && (forall p :: |s.rows| <= p < |t.rows| ==> t.rows[p].sequence >= s.next)
  }

  lemma StaysPut(s: Store, e: LeaseEvent)
    requires LeaseSafe(s)
    ensures Moves(s, s, e)
  {
  }

  lemma FrameExtends(s: Store, f: Frame)
    requires f.sequence >= s.next
    ensures var t := Commit(s, f);
      && s.rows <= t.rows && s.space == t.space && s.next <= t.next
      && forall p :: |s.rows| <= p < |t.rows| ==> t.rows[p].sequence >= s.next
  {
    hide Commit;
    CommittedRows(s, f);
    forall p | |s.rows| <= p < |Commit(s, f).rows| ensures Commit(s, f).rows[p].sequence >= s.next {
      assert Commit(s, f).rows[p] == RowsOf(f)[p - |s.rows|];
    }
  }

  /** Committing the frame of an event moves the leases only as the event may. */
  lemma FrameMoves(s: Store, e: LeaseEvent, request: Request, f: Frame)
    requires LeaseSafe(s) && Fits(s, e) && Decide(s, e) == Submit(request) && Prepare(s, false, request) == Fine(f)
    ensures Moves(s, Commit(s, f), e)
  {
    hide Commit, Prepare, LeaseSafe, Effective, CurrentLease, LeaseFrame, OrdinaryOperations, OrdinaryRequest, WithdrawOccurrence;
    FrameExtends(s, f);
    match e
    case Change(_) =>
      SafeIsNumbered(s);
      OrdinaryFrame(s, false, request);
      forall p: nat ensures LeaseFrame(s, f) && (LeaseRow(s, p) ==> (Effective(Commit(s, f), p) <==> Effective(s, p))) {
        OrdinaryKeepsLeases(s, f, p);
      }
      assert LeaseFrame(s, f) by { OrdinaryKeepsLeases(s, f, 0); }
      LeaseSafeUnderFrame(s, f);
    case Acquire(resource, holder, ttl, now) =>
      GrantTakesEffect(s, f, resource, holder, now + ttl, CurrentLease(s, resource));
    case Renew(resource, holder, epoch, ttl, now) =>
      GrantTakesEffect(s, f, resource, holder, now + ttl, CurrentLease(s, resource));
    case Release(resource, holder, epoch) =>
      ReleaseTakesEffect(s, f, resource, holder, epoch);
  }

  lemma SafeIsNumbered(s: Store)
    requires LeaseSafe(s)
    ensures Numbered(s) && Consistent(s)
  {
  }

  /** A commit leaves memory as it was or with exactly the new frame, whatever becomes of its append. */
  lemma CommitIsAllOrNothing(h: Host, db: Db, request: Request, fault: Option<nat>)
    requires h.Valid() && Safe(h, db)
    ensures var after := CommitStep(h, db, request, fault).0;
      after.store == db.store
      || (db.status.Ready? && Prepare(db.store, false, request).Fine?
          && after.store == Commit(db.store, Prepare(db.store, false, request).value))
  {
    hide ParseLog, Append, FenceAndReconcile, Prepare, Commit, Sound, Durable;
    var r := Prepare(db.store, db.torn.Some?, request);
    if db.status.Ready? && r.Fine? {
      var f := r.value;
      PreparedIsNext(db.store, db.torn.Some?, request);
      PreparedReplays(h, db, request);
      ReplayOne(db.store, f);
      if db.log.Some? && !Append(h, db.log.value, [f], db.deflate, fault).ok {
        SafeLogIsWhole(h, db);
        FailedAppendReconciles(h, db, NewStore(db.space), [f], fault);
        OneOrNone(db.store, f, Durable(h, db, [f], fault));
      }
    }
  }

  lemma PreparedReplays(h: Host, db: Db, request: Request)
    requires Safe(h, db) && Prepare(db.store, db.torn.Some?, request).Fine?
    ensures var f := Prepare(db.store, db.torn.Some?, request).value; ReplayFrame(db.store, f) == Ok(Commit(db.store, f))
  {
    hide Prepare, Commit, ParseLog;
    PreparedFrameReplays(db.store, db.torn.Some?, request);
  }

  lemma OneOrNone(s: Store, f: Frame, k: nat)
    requires k <= 1 && ReplayFrame(s, f) == Ok(Commit(s, f))
    ensures ReplayAll(s, [f][..k]) == Ok(if k == 0 then s else Commit(s, f))
  {
    hide ReplayFrame, Commit;
    if k == 1 {
      assert [f][..1] == [f];
      ReplayOne(s, f);
    }
  }

  /** One event, its append failing or not, moves the leases only as the event may. */
  lemma StepMoves(h: Host, db: Db, e: LeaseEvent, fault: Option<nat>)
    requires h.Valid() && Safe(h, db) && LeaseSafe(db.store) && Fits(db.store, e)
    ensures Safe(h, LeaseStep(h, db, e, fault).0) && Moves(db.store, LeaseStep(h, db, e, fault).0.store, e)
  {
    hide Safe, LeaseSafe, CommitStep, Prepare, Commit, Moves, Decide, Fits;
    StaysPut(db.store, e);
    if Decide(db.store, e).Submit? {
      var request := Decide(db.store, e).request;
      CommitKeepsSafe(h, db, request, fault);
      CommitIsAllOrNothing(h, db, request, fault);
      if Prepare(db.store, false, request).Fine? {
        FrameMoves(db.store, e, request, Prepare(db.store, false, request).value);
      }
    }
  }

  // ----- cohorts -----

  function AsMutation(e: LeaseEvent): Mutation {
    s => Decide(s, e)
  }

  function Mutations(events: seq<LeaseEvent>): (m: seq<Mutation>)
    ensures |m| == |events| && forall i :: 0 <= i < |m| ==> m[i] == AsMutation(events[i])
  {
    seq(|events|, i requires 0 <= i < |events| => AsMutation(events[i]))
  }

  /** The cohort's private root once its first `j` mutations have run. */
  function RootAfter(store: Store, torn: bool, events: seq<LeaseEvent>, j: nat): Store
    requires j <= |events|
  {
    RunScratch(store, torn, Mutations(events)[..j]).store
  }

  /** Every change of the cohort fits the private root it meets. */
  predicate CohortFits(store: Store, torn: bool, events: seq<LeaseEvent>) {
    forall j :: 0 <= j < |events| ==> Fits(RootAfter(store, torn, events, j), events[j])
  }

  /** `t` is got from `s` by moves of these events, in order, each of them made in full or not at all. */
  ghost predicate Reaches(s: Store, t: Store, events: seq<LeaseEvent>)
    decreases |events|
  {
    if events == [] then s == t else
    var n := |events| - 1;
    exists m :: Reaches(s, m, events[..n]) && Moves(m, t, events[n])
  }

  lemma {:induction false} ReachesExtends(s: Store, t: Store, events: seq<LeaseEvent>)
    requires LeaseSafe(s) && Reaches(s, t, events)
    ensures LeaseSafe(t) && s.rows <= t.rows && s.space == t.space && s.next <= t.next
    ensures forall p :: |s.rows| <= p < |t.rows| ==> t.rows[p].sequence >= s.next
    decreases |events|
  {
    hide LeaseSafe;
    if events != [] {
      var n := |events| - 1;
      var m :| Reaches(s, m, events[..n]) && Moves(m, t, events[n]);
      ReachesExtends(s, m, events[..n]);
      forall p | |s.rows| <= p < |t.rows| ensures t.rows[p].sequence >= s.next {
        assert p < |m.rows| ==> t.rows[p] == m.rows[p];
      }
    }
  }

  lemma ReachesStep(s: Store, m: Store, t: Store, events: seq<LeaseEvent>)
    requires events != [] && Reaches(s, m, events[..|events| - 1]) && Moves(m, t, events[|events| - 1])
    ensures Reaches(s, t, events)
  {
    hide Moves;
  }

  lemma {:induction false} ReachesConcat(s: Store, m: Store, t: Store, a: seq<LeaseEvent>, b: seq<LeaseEvent>)
    requires Reaches(s, m, a) && Reaches(m, t, b)
    ensures Reaches(s, t, a + b)
    decreases |b|
  {
    hide Moves;
    if b == [] {
      assert a + b == a;
    } else {
      var n := |b| - 1;
      var k :| Reaches(m, k, b[..n]) && Moves(k, t, b[n]);
      ReachesConcat(s, m, k, a, b[..n]);
      var c := a + b;
      assert c[..|c| - 1] == a + b[..n] && c[|c| - 1] == b[n];
      ReachesStep(s, k, t, c);
    }
  }

  lemma {:induction false} StillReaches(s: Store, t: Store, events: seq<LeaseEvent>, j: nat)
    requires j <= |events| && LeaseSafe(s) && Reaches(s, t, events[..j])
    ensures Reaches(s, t, events)
    decreases |events|
  {
    hide Moves, LeaseSafe;
    if j == |events| {
      assert events[..j] == events;
    } else {
      var n := |events| - 1;
      assert events[..n][..j] == events[..j];
      StillReaches(s, t, events[..n], j);
      ReachesExtends(s, t, events[..j]);
      StaysPut(t, events[n]);
      ReachesStep(s, t, t, events);
    }
  }

  /** One mutation on the cohort's private root. */
  lemma ScratchMoves(s: Scratch, torn: bool, e: LeaseEvent)
    requires LeaseSafe(s.store) && Fits(s.store, e)
    ensures Moves(s.store, ScratchStep(s, torn, AsMutation(e)).store, e)
  {
    hide LeaseSafe, Prepare, Commit, Moves, Decide, Fits;
    StaysPut(s.store, e);
    if Decide(s.store, e).Submit? {
      var request := Decide(s.store, e).request;
      if Prepare(s.store, torn, request).Fine? {
        PreparedIsNext(s.store, torn, request);
        FrameMoves(s.store, e, request, Prepare(s.store, torn, request).value);
      }
    }
  }

  /** Every private root of a cohort is reached by its mutations so far. */
  lemma {:induction false} RootReaches(store: Store, torn: bool, events: seq<LeaseEvent>, j: nat)
    requires j <= |events| && LeaseSafe(store) && CohortFits(store, torn, events)
    ensures Reaches(store, RootAfter(store, torn, events, j), events[..j])
    decreases j
  {
    hide LeaseSafe, ScratchStep, Moves, Fits;
    if j > 0 {
      RootReaches(store, torn, events, j - 1);
      var mutations := Mutations(events);
      assert mutations[..j][..j - 1] == mutations[..j - 1] && events[..j][..j - 1] == events[..j - 1];
      ReachesExtends(store, RootAfter(store, torn, events, j - 1), events[..j - 1]);
      ScratchMoves(RunScratch(store, torn, mutations[..j - 1]), torn, events[j - 1]);
      assert Fits(RootAfter(store, torn, events, j - 1), events[j - 1]);
    }
  }

  /** Each deferred frame is the whole of one mutation: any leading frames are those of a leading stretch
      of the cohort. */
  lemma {:induction false} FramesOfAStretch(store: Store, torn: bool, mutations: seq<Mutation>, k: nat) returns (j: nat)
    requires k <= |RunScratch(store, torn, mutations).frames|
    ensures j <= |mutations|
    ensures RunScratch(store, torn, mutations[..j]).frames == RunScratch(store, torn, mutations).frames[..k]
    decreases |mutations|
  {
    hide ScratchStep;
    var frames := RunScratch(store, torn, mutations).frames;
    if k == |frames| {
      j := |mutations|;
      assert mutations[..j] == mutations && frames[..k] == frames;
    } else {
      var n := |mutations| - 1;
      GroupCommit.ScratchGrows(RunScratch(store, torn, mutations[..n]), torn, mutations[n]);
      j := FramesOfAStretch(store, torn, mutations[..n], k);
      assert mutations[..n][..j] == mutations[..j];
    }
  }

  /** Whatever becomes of its append, a cohort leaves memory at one of its private roots: no mutation is
      ever half there. */
  lemma CohortIsAStretch(h: Host, db: Db, mutations: seq<Mutation>, fault: Option<nat>) returns (j: nat)
    requires h.Valid() && Safe(h, db)
    ensures j <= |mutations|
    ensures CohortStep(h, db, mutations, fault).0.store == RunScratch(db.store, db.torn.Some?, mutations[..j]).store
  {
    hide ParseLog, Append, FenceAndReconcile, RunScratch, Sound, Durable;
    var torn := db.torn.Some?;
    var s := RunScratch(db.store, torn, mutations);
    assert mutations[..|mutations|] == mutations;
    SafeIsOpen(h, db);
    ScratchReplays(db.store, torn, mutations);
    j := if db.status.Ready? then |mutations| else 0;
    NothingRun(db.store, torn);
    if db.status.Ready? && s.frames == [] {
      assert ReplayAll(db.store, s.frames) == Ok(db.store);
    } else if db.status.Ready? && db.log.Some? && !Append(h, db.log.value, s.frames, db.deflate, fault).ok {
      if db.torn.Some? {
        TornDefersNothing(db.store, mutations);
      }
      SafeLogIsWhole(h, db);
      FailedAppendReconciles(h, db, NewStore(db.space), s.frames, fault);
      j := FramesOfAStretch(db.store, torn, mutations, Durable(h, db, s.frames, fault));
      ScratchReplays(db.store, torn, mutations[..j]);
    }
  }

  lemma SafeIsOpen(h: Host, db: Db)
    requires Safe(h, db)
    ensures db.store.next >= 1
  {
  }

  lemma NothingRun(store: Store, torn: bool)
    ensures RunScratch(store, torn, []) == Scratch(store, [], [])
  {
  }

  // ----- runs -----

  /** One turn of the writer: a mutation on its own, or a cohort under one barrier. */
  datatype Turn = One(event: LeaseEvent) | Cohort(events: seq<LeaseEvent>)

  function EventsOf(turn: Turn): seq<LeaseEvent> {
    match turn
    case One(e) => [e]
    case Cohort(events) => events
  }

  function TakeTurn(h: Host, db: Db, turn: Turn, fault: Option<nat>): Db {
    match turn
    case One(e) => LeaseStep(h, db, e, fault).0
    case Cohort(events) => CohortStep(h, db, Mutations(events), fault).0
  }

  predicate TurnFits(db: Db, turn: Turn) {
    match turn
    case One(e) => Fits(db.store, e)
    case Cohort(events) => CohortFits(db.store, db.torn.Some?, events)
  }

  lemma TurnReaches(h: Host, db: Db, turn: Turn, fault: Option<nat>)
    requires h.Valid() && Safe(h, db) && LeaseSafe(db.store) && TurnFits(db, turn)
    ensures Safe(h, TakeTurn(h, db, turn, fault)) && Reaches(db.store, TakeTurn(h, db, turn, fault).store, EventsOf(turn))
    ensures TakeTurn(h, db, turn, fault).space == db.space
  {
    hide Safe, LeaseSafe, CommitStep, CohortStep, Moves, Fits, RunScratch;
    match turn
    case One(e) =>
      StepMoves(h, db, e, fault);
      StepKeepsSpace(h, db, e, fault);
      assert [e][..0] == [];
      assert Reaches(db.store, db.store, []);
    case Cohort(events) =>
      CohortKeepsSafe(h, db, Mutations(events), fault);
      CohortKeepsSpace(h, db, Mutations(events), fault);
      var j := CohortIsAStretch(h, db, Mutations(events), fault);
      RootReaches(db.store, db.torn.Some?, events, j);
      StillReaches(db.store, RootAfter(db.store, db.torn.Some?, events, j), events, j);
  }

  lemma StepKeepsSpace(h: Host, db: Db, e: LeaseEvent, fault: Option<nat>)
    ensures LeaseStep(h, db, e, fault).0.space == db.space
  {
    hide Prepare, Commit, Append, ParseLog, ReplayAll, Decide;
  }

  lemma CohortKeepsSpace(h: Host, db: Db, mutations: seq<Mutation>, fault: Option<nat>)
    ensures CohortStep(h, db, mutations, fault).0.space == db.space
  {
    hide RunScratch, Append, ParseLog, ReplayAll;
  }

  function LeaseRun(h: Host, db: Db, turns: seq<(Turn, Option<nat>)>): Db
    decreases |turns|
  {
    if turns == [] then db else
    var n := |turns| - 1;
    TakeTurn(h, LeaseRun(h, db, turns[..n]), turns[n].0, turns[n].1)
  }

  /** Every ordinary change of the run stays away from the leases recorded when it runs. */
  predicate RunFits(h: Host, db: Db, turns: seq<(Turn, Option<nat>)>)
    decreases |turns|
  {
    turns == [] || (var n := |turns| - 1;
      RunFits(h, db, turns[..n]) && TurnFits(LeaseRun(h, db, turns[..n]), turns[n].0))
  }

  /** Everything asked for in the run, in order. */
  function AllEvents(turns: seq<(Turn, Option<nat>)>): seq<LeaseEvent>
    decreases |turns|
  {
    if turns == [] then [] else
    var n := |turns| - 1;
    AllEvents(turns[..n]) + EventsOf(turns[n].0)
  }

  /** Over every run of single mutations and cohorts, with appends failing after any octet: one effective
      lease a resource at most, memory equal to the replay of the log, and every mutation made in order,
      in full or not at all. */
  lemma {:induction false} EveryLeaseRunIsSafe(h: Host, db: Db, turns: seq<(Turn, Option<nat>)>)
    requires h.Valid() && Safe(h, db) && LeaseSafe(db.store) && RunFits(h, db, turns)
    ensures Safe(h, LeaseRun(h, db, turns)) && LeaseSafe(LeaseRun(h, db, turns).store)
    ensures Reaches(db.store, LeaseRun(h, db, turns).store, AllEvents(turns))
    ensures db.store.rows <= LeaseRun(h, db, turns).store.rows && db.space == LeaseRun(h, db, turns).space
    ensures db.store.space == LeaseRun(h, db, turns).store.space
    decreases |turns|
  {
    assert Reaches(db.store, db.store, []);
    hide Safe, LeaseSafe, Reaches, TakeTurn, TurnFits;
    if turns != [] {
      var n := |turns| - 1;
      EveryLeaseRunIsSafe(h, db, turns[..n]);
      var before := LeaseRun(h, db, turns[..n]);
      TurnReaches(h, before, turns[n].0, turns[n].1);
      ReachesConcat(db.store, before.store, LeaseRun(h, db, turns).store, AllEvents(turns[..n]), EventsOf(turns[n].0));
      ReachesExtends(db.store, LeaseRun(h, db, turns).store, AllEvents(turns));
    }
  }

  /** A database as created: no frame yet, in memory or over a log that holds only its header. */
  function Created(h: Host, header: Header, durable: bool): Db
    requires ValidHeader(h, header)
  {
    Db(header.space, NewStore(header.space), if durable then Some(EncodeLog(h, header, [])) else None,
       header.deflate, None, Ready)
  }

  lemma CreatedIsSafe(h: Host, header: Header, durable: bool)
    requires h.Valid() && ValidHeader(h, header) && !header.continuation
    ensures Safe(h, Created(h, header, durable)) && LeaseSafe(Created(h, header, durable).store)
    ensures Sequenced(Created(h, header, durable).store)
  {
    hide ParseLog, EncodeLog;
    NewStoreLeaseSafe(header.space);
    LogRoundTrip(h, header, [], true);
    LogRoundTrip(h, header, [], false);
  }

  predicate Leading(s: Store, p: nat, resource: Term) {
    LeaseAt(s, p, resource) && Effective(s, p)
  }

  /** So from a database as created, whatever is asked of it and wherever its appends fail, a resource
      never has two effective leases. */
  lemma CreatedRunsAreSafe(h: Host, header: Header, durable: bool, turns: seq<(Turn, Option<nat>)>, resource: Term)
    requires h.Valid() && ValidHeader(h, header) && !header.continuation && RunFits(h, Created(h, header, durable), turns)
    ensures var db := LeaseRun(h, Created(h, header, durable), turns);
      && Safe(h, db) && LeaseSafe(db.store) && Sequenced(db.store)
      && forall p: nat, q: nat :: Leading(db.store, p, resource) && Leading(db.store, q, resource) ==> p == q
  {
    hide Safe, LeaseSafe, LeaseRun, Reaches, Effective;
    var start := Created(h, header, durable);
    CreatedIsSafe(h, header, durable);
    EveryLeaseRunIsSafe(h, start, turns);
    var t := LeaseRun(h, start, turns).store;
    ReachesExtends(start.store, t, AllEvents(turns));
    forall p: nat, q: nat | Leading(t, p, resource) && Leading(t, q, resource) ensures p == q {
      OneLeaseAResource(t, resource, p, q);
    }
  }

  // ----- epochs -----

  lemma {:induction false} ReachedEpochsNeverReturn(s: Store, t: Store, events: seq<LeaseEvent>, p: nat)
    requires LeaseSafe(s) && Reaches(s, t, events) && LeaseRow(s, p) && !Effective(s, p)
    ensures !Effective(t, p)
    decreases |events|
  {
    hide LeaseSafe, Effective;
    if events != [] {
      var n := |events| - 1;
      var m :| Reaches(s, m, events[..n]) && Moves(m, t, events[n]);
      ReachedEpochsNeverReturn(s, m, events[..n], p);
      ReachesExtends(s, m, events[..n]);
      assert LeaseRow(m, p);
    }
  }

  /** An epoch that has been replaced or released is never current again. */
  lemma EpochsNeverReturn(h: Host, db: Db, turns: seq<(Turn, Option<nat>)>, p: nat)
    requires h.Valid() && Safe(h, db) && LeaseSafe(db.store) && RunFits(h, db, turns)
    requires LeaseRow(db.store, p) && !Effective(db.store, p)
    ensures !Effective(LeaseRun(h, db, turns).store, p)
  {
    hide Safe, LeaseSafe, LeaseRun, Reaches, Effective;
    EveryLeaseRunIsSafe(h, db, turns);
    ReachedEpochsNeverReturn(db.store, LeaseRun(h, db, turns).store, AllEvents(turns), p);
  }

  /** So its fence is refused for good, whoever presents it and whenever. */
  lemma StaleFenceIsRefused(h: Host, db: Db, turns: seq<(Turn, Option<nat>)>, p: nat, resource: Term, holder: Term, now: int)
    requires h.Valid() && Safe(h, db) && LeaseSafe(db.store) && RunFits(h, db, turns)
    requires LeaseRow(db.store, p) && !Effective(db.store, p)
    ensures !LeaseFenceValid(LeaseRun(h, db, turns).store, resource, holder, CoordinateAt(db.store, p), now)
  {
    hide Safe, LeaseSafe, LeaseRun, Effective, CurrentLease;
    EpochsNeverReturn(h, db, turns, p);
    EveryLeaseRunIsSafe(h, db, turns);
    var t := LeaseRun(h, db, turns).store;
    SafeIsNumbered(t);
    var r := CurrentLease(t, resource);
    if r.Some? && CoordinateAt(t, r.value) == CoordinateAt(db.store, p) {
      CoordinatesDiffer(t, r.value, p);
      assert false;
    }
  }

  // ----- mutual exclusion -----

  /** The event's clock reading, if it takes one, is at most `now`; and it is not `holder` renewing or
      releasing `epoch`. */
  predicate Foreign(e: LeaseEvent, resource: Term, holder: Term, epoch: Term, now: int) {
    match e
    case Change(_) => true
    case Acquire(_, _, _, at) => at <= now
    case Renew(r, o, c, _, at) => at <= now && !(r == resource && o == holder && c == epoch)
    case Release(r, o, c) => !(r == resource && o == holder && c == epoch)
  }

  lemma {:induction false} HoldsWhileReached(
    s: Store, t: Store, events: seq<LeaseEvent>, resource: Term, holder: Term, epoch: Term, now: int)
    requires LeaseSafe(s) && Reaches(s, t, events) && LeaseFenceValid(s, resource, holder, epoch, now)
    requires forall e :: e in events ==> Foreign(e, resource, holder, epoch, now)
    ensures CurrentLease(t, resource) == CurrentLease(s, resource)
    ensures LeaseFenceValid(t, resource, holder, epoch, now)
    decreases |events|
  {
    hide LeaseSafe, Effective, CurrentLease, Moves, LeaseFenceValid, Foreign;
    if events != [] {
      var n := |events| - 1;
      var m :| Reaches(s, m, events[..n]) && Moves(m, t, events[n]);
      HoldsWhileReached(s, m, events[..n], resource, holder, epoch, now);
      ReachesExtends(s, m, events[..n]);
      HoldsThrough(m, t, events[n], resource, holder, epoch, now);
    }
  }

  /** A lease valid at the run's last clock reading survives every event that is not its own holder's, alone
      or in a cohort: until it expires, nobody else can take the resource. */
  lemma UnexpiredLeaseHolds(
    h: Host, db: Db, turns: seq<(Turn, Option<nat>)>, resource: Term, holder: Term, epoch: Term, now: int)
    requires h.Valid() && Safe(h, db) && LeaseSafe(db.store) && RunFits(h, db, turns)
    requires LeaseFenceValid(db.store, resource, holder, epoch, now)
    requires forall e :: e in AllEvents(turns) ==> Foreign(e, resource, holder, epoch, now)
    ensures CurrentLease(LeaseRun(h, db, turns).store, resource) == CurrentLease(db.store, resource)
    ensures LeaseFenceValid(LeaseRun(h, db, turns).store, resource, holder, epoch, now)
  {
    hide Safe, LeaseSafe, LeaseRun, Reaches, CurrentLease, LeaseFenceValid, Foreign;
    EveryLeaseRunIsSafe(h, db, turns);
    HoldsWhileReached(db.store, LeaseRun(h, db, turns).store, AllEvents(turns), resource, holder, epoch, now);
  }

  lemma HoldsThrough(s: Store, t: Store, e: LeaseEvent, resource: Term, holder: Term, epoch: Term, now: int)
    requires LeaseSafe(s) && Moves(s, t, e)
    requires LeaseFenceValid(s, resource, holder, epoch, now) && Foreign(e, resource, holder, epoch, now)
    ensures CurrentLease(t, resource) == CurrentLease(s, resource)
    ensures LeaseFenceValid(t, resource, holder, epoch, now)
  {
    hide LeaseSafe, Effective, CurrentLease;
    var p := CurrentLease(s, resource).value;
    assert LeaseRow(s, p);
    Uncontested(t, resource, p);
  }

  // ----- grants -----

  /** A grant reports the epoch that is now current; it is newer than every recorded one, and no lease
      on the resource was in force for anyone but a renewing holder. */
  lemma GrantIsExclusive(h: Host, db: Db, e: LeaseEvent, request: Request, fault: Option<nat>, receipt: Receipt)
    requires h.Valid() && Safe(h, db) && LeaseSafe(db.store) && (e.Acquire? || e.Renew?)
    requires Decide(db.store, e) == Submit(request) && CommitStep(h, db, request, fault).1 == Committed(receipt)
    ensures var t, n := CommitStep(h, db, request, fault).0.store, |db.store.rows|;
      && NewEpoch(db.store, t, n, LeaseTerm(e.resource, e.holder, e.now + e.ttl))
      && receipt.occurrences != [] && receipt.occurrences[0].coordinate == CoordinateAt(t, n)
    ensures forall p: nat :: LeaseAt(db.store, p, e.resource) && Effective(db.store, p) ==> MayEnd(db.store, e, p)
  {
    hide Safe, LeaseSafe, Prepare, Commit, Effective, CurrentLease, NewEpoch, Append, FenceAndReconcile;
    var s := db.store;
    var f := Prepare(s, db.torn.Some?, request).value;
    PreparedIsNext(s, db.torn.Some?, request);
    GrantTakesEffect(s, f, e.resource, e.holder, e.now + e.ttl, CurrentLease(s, e.resource));
    NewEpochIsRecorded(s, Commit(s, f), |s.rows|, LeaseTerm(e.resource, e.holder, e.now + e.ttl));
    forall p: nat | LeaseAt(s, p, e.resource) && Effective(s, p) ensures MayEnd(s, e, p) {
      Uncontested(s, e.resource, p);
    }
  }

  lemma NewEpochIsRecorded(s: Store, t: Store, n: nat, lease: Term)
    requires NewEpoch(s, t, n, lease)
    ensures n == |s.rows| < |t.rows|
  {
  }
}
