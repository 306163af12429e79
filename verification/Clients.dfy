/** The native host's client table: one acceptor and any number of detached workers, interleaved at every
    step they take. */
module Clients {
  import opened Bytes

  datatype Holder = Acceptor | Worker(job: nat)

  /** Where the acceptor is. A descriptor in its position is one it still has to close or hand over. */
  datatype AcceptorAt =
    | Polling
    | Holding(fd: nat)
    | Locking(fd: nat)
    | Admitting(fd: nat)
    | Linked(fd: nat)
    | Unlinked(fd: nat, gone: bool)
    | Refusing(fd: nat, gone: bool)
    | Admitted
    | Draining
    | Checking
    | Waiting(woken: bool)
    | Returned

  datatype WorkerAt = Serving | Wanting(fatal: bool) | Closing(fatal: bool) | Removing | Broadcasting | Unlocking | Freeing

  /** A job and its descriptor share a number; numbers are never used twice. */
  datatype State = State(
    acceptor: AcceptorAt,
    workers: map<nat, WorkerAt>,
    lock: Option<Holder>,
    list: seq<nat>,
    count: nat,
    closes: map<nat, nat>,
    next: nat,
    fatal: bool,
    quiet: nat,
    armed: bool,
    admissions: nat,
    compactions: nat)

  const QUIET_POLLS := 20

  function Initial(): State {
    State(Polling, map[], None, [], 0, map[], 0, false, 0, false, 0, 0)
  }

  datatype Action =
    | Stop
    | Quiet
    | Accept
    | Drop
    | StopHolding
    | Ready
    | Lock
    | Admit
    | Create
    | CreateFails(gone: bool)
    | Unlock
    | CloseRefused
    | Drain
    | Check
    | Wake
    | Finish(job: nat, failed: bool)
    | WorkerLocks(job: nat)
    | WorkerCloses(job: nat)
    | WorkerRemoves(job: nat)
    | WorkerBroadcasts(job: nat)
    | WorkerUnlocks(job: nat)
    | WorkerFrees(job: nat)

  function Remove(list: seq<nat>, job: nat): seq<nat> {
    if list == [] then [] else if list[0] == job then list[1..] else [list[0]] + Remove(list[1..], job)
  }

  function Close(s: State, fd: nat): State {
    s.(closes := s.closes[fd := (if fd in s.closes then s.closes[fd] else 0) + 1])
  }

  /** `remove_client_locked`: the count follows the list. */
  function Unlink(s: State, job: nat): State {
    if job in s.list then s.(list := Remove(s.list, job), count := if s.count > 0 then s.count - 1 else 0) else s
  }

  /** A quiet poll: compacts after enough of them in a row with no client, if armed since the last time. */
  function QuietPoll(s: State): State {
    if !s.armed || s.count != 0 then s.(quiet := 0) else
    if s.quiet + 1 >= QUIET_POLLS then s.(quiet := 0, armed := false, compactions := s.compactions + 1) else
    s.(quiet := s.quiet + 1)
  }

  function FromPolling(s: State, a: Action): State {
    if a.Stop? then s.(acceptor := Draining) else
    if a.Quiet? then (if s.lock.None? then QuietPoll(s) else s) else
    if !a.Accept? then s else
    if s.lock.None? && s.fatal then s.(acceptor := Draining) else
    s.(acceptor := Holding(s.next), closes := s.closes[s.next := 0], next := s.next + 1)
  }

  function FromHolding(s: State, fd: nat, a: Action): State {
    if a.Drop? then Close(s, fd).(acceptor := Polling) else
    if a.StopHolding? then Close(s, fd).(acceptor := Draining) else
    if a.Ready? then s.(acceptor := Locking(fd)) else s
  }

  function FromAdmitting(s: State, max: nat, fd: nat): State {
    if s.count >= max then s.(lock := None, acceptor := Refusing(fd, false)) else
    s.(list := [fd] + s.list, count := s.count + 1, acceptor := Linked(fd))
  }

  function FromLinked(s: State, fd: nat, a: Action): State {
    if a.Create? then s.(workers := s.workers[fd := Serving], acceptor := Admitted) else
    if a.CreateFails? then Unlink(s, fd).(acceptor := Unlinked(fd, a.gone)) else s
  }

  /** Takes the lock if it is free. */
  function TakeLock(s: State, at: AcceptorAt): State {
    if s.lock.None? then s.(lock := Some(Acceptor), acceptor := at) else s
  }

  /** One step of the acceptor; a step that cannot be taken here changes nothing. */
  function AcceptorStep(s: State, max: nat, a: Action): State {
    match s.acceptor
    case Polling => FromPolling(s, a)
    case Holding(fd) => FromHolding(s, fd, a)
    case Locking(fd) => if a.Lock? then TakeLock(s, Admitting(fd)) else s
    case Admitting(fd) => if a.Admit? then FromAdmitting(s, max, fd) else s
    case Linked(fd) => FromLinked(s, fd, a)
    case Unlinked(fd, gone) => if a.Unlock? then s.(lock := None, acceptor := Refusing(fd, gone)) else s
    case Refusing(fd, gone) => if a.CloseRefused? then Close(s, fd).(acceptor := if gone then Draining else Polling) else s
    case Admitted =>
      if !a.Unlock? then s else
      s.(lock := None, acceptor := Polling, armed := true, quiet := 0, admissions := s.admissions + 1)
    case Draining => if a.Drain? then TakeLock(s, Checking) else s
    case Checking =>
      if !a.Check? then s else s.(lock := None, acceptor := if s.count != 0 then Waiting(false) else Returned)
    case Waiting(woken) => if woken && a.Wake? then TakeLock(s, Checking) else s
    case Returned => s
  }

  /** One step of a worker. */
  function WorkerStep(s: State, job: nat, a: Action): State
    requires job in s.workers
  {
    match (s.workers[job], a)
    case (Serving, Finish(_, failed)) => s.(workers := s.workers[job := Wanting(failed)])
    case (Wanting(failed), WorkerLocks(_)) =>
      if s.lock.None? then s.(lock := Some(Worker(job)), workers := s.workers[job := Closing(failed)]) else s
    case (Closing(failed), WorkerCloses(_)) =>
      Close(s, job).(fatal := s.fatal || failed, workers := s.workers[job := Removing])
    case (Removing, WorkerRemoves(_)) => Unlink(s, job).(workers := s.workers[job := Broadcasting])
    case (Broadcasting, WorkerBroadcasts(_)) =>
      s.(acceptor := if s.acceptor.Waiting? then Waiting(true) else s.acceptor, workers := s.workers[job := Unlocking])
    case (Unlocking, WorkerUnlocks(_)) => s.(lock := None, workers := s.workers[job := Freeing])
    case (Freeing, WorkerFrees(_)) => s.(workers := s.workers - {job})
    case _ => s
  }

  function JobOf(a: Action): Option<nat> {
    match a
    case Finish(job, _) => Some(job)
    case WorkerLocks(job) => Some(job)
    case WorkerCloses(job) => Some(job)
    case WorkerRemoves(job) => Some(job)
    case WorkerBroadcasts(job) => Some(job)
    case WorkerUnlocks(job) => Some(job)
    case WorkerFrees(job) => Some(job)
    case _ => None
  }

  function Step(s: State, max: nat, a: Action): State {
    match JobOf(a)
    case None => AcceptorStep(s, max, a)
    case Some(job) => if job in s.workers then WorkerStep(s, job, a) else s
  }

  function Run(max: nat, actions: seq<Action>): State
    decreases |actions|
  {
    if actions == [] then Initial() else Step(Run(max, actions[..|actions| - 1]), max, actions[|actions| - 1])
  }

  // ----- the invariant -----

  function HeldByAcceptor(s: State): Option<nat> {
    match s.acceptor
    case Holding(fd) => Some(fd)
    case Locking(fd) => Some(fd)
    case Admitting(fd) => Some(fd)
    case Linked(fd) => Some(fd)
    case Unlinked(fd, _) => Some(fd)
    case Refusing(fd, _) => Some(fd)
    case _ => None
  }

  /** Who still has to close a descriptor. */
  predicate Held(s: State, fd: nat) {
    HeldByAcceptor(s) == Some(fd)
    || (fd in s.workers && (s.workers[fd].Serving? || s.workers[fd].Wanting? || s.workers[fd].Closing?))
  }

  /** A live worker still in the table, or the job the acceptor has just linked. */
  predicate Listed(s: State, job: nat) {
    s.acceptor == Linked(job)
    || (job in s.workers && (s.workers[job].Serving? || s.workers[job].Wanting? || s.workers[job].Closing? || s.workers[job].Removing?))
  }

  predicate AcceptorInside(s: State) {
    s.acceptor.Admitting? || s.acceptor.Linked? || s.acceptor.Unlinked? || s.acceptor.Admitted? || s.acceptor.Checking?
  }

  predicate WorkerInside(s: State, job: nat) {
    job in s.workers
    && (s.workers[job].Closing? || s.workers[job].Removing? || s.workers[job].Broadcasting? || s.workers[job].Unlocking?)
  }

  predicate Distinct(list: seq<nat>) {
    forall i, j :: 0 <= i < j < |list| ==> list[i] != list[j]
  }

  /** The lock is held exactly by the thread inside its critical section. */
  ghost predicate Exclusive(s: State) {
    && (s.lock == Some(Acceptor) <==> AcceptorInside(s))
    && (forall job :: s.lock == Some(Worker(job)) <==> WorkerInside(s, job))
  }

  /** The table is the live jobs, once each, counted, within the limit. */
  ghost predicate Table(s: State, max: nat) {
    && Distinct(s.list) && s.count == |s.list| && s.count <= max
    && (forall job :: job in s.list <==> Listed(s, job))
  }

  /** Every accepted descriptor is open while someone holds it, and has been closed exactly once after. */
  ghost predicate Descriptors(s: State) {
    && (forall fd: nat :: fd in s.closes <==> fd < s.next)
    && (forall fd :: fd in s.closes ==> s.closes[fd] == if Held(s, fd) then 0 else 1)
    && (forall job :: job in s.workers ==> job < s.next && HeldByAcceptor(s) != Some(job))
    && (HeldByAcceptor(s).Some? ==> HeldByAcceptor(s).value < s.next)
  }

  /** Once stopping has returned every worker is past its last use of the server; and a waiting acceptor
      that has not been woken has a worker to wake it. */
  ghost predicate Stopping(s: State) {
    && (s.acceptor.Returned? ==> forall job :: job in s.workers ==> s.workers[job].Freeing?)
    && (s.acceptor == Waiting(false) && s.list == [] ==>
         exists job :: s.lock == Some(Worker(job)) && job in s.workers && s.workers[job].Broadcasting?)
  }

  ghost predicate Inv(s: State, max: nat) {
    && Exclusive(s) && Table(s, max) && Descriptors(s) && Stopping(s)
    && s.compactions + (if s.armed then 1 else 0) <= s.admissions
  }

  // ----- every step keeps it -----

  lemma {:induction false} RemoveOne(list: seq<nat>, job: nat)
    requires Distinct(list) && job in list
    ensures |Remove(list, job)| == |list| - 1 && Distinct(Remove(list, job))
    ensures forall x :: x in Remove(list, job) <==> x in list && x != job
  {
    if list[0] != job {
      RemoveOne(list[1..], job);
      assert forall x :: x in list <==> x == list[0] || x in list[1..];
      assert list[0] !in list[1..];
    } else {
      assert forall x :: x in list <==> x == list[0] || x in list[1..];
    }
  }

  /** A descriptor in the acceptor's hands is not yet any worker's. */
  predicate NotAWorker(s: State) {
    HeldByAcceptor(s).Some? ==> HeldByAcceptor(s).value !in s.workers
  }

  /** The acceptor takes, keeps or gives up the lock without touching a worker. */
  lemma ExclusiveFrame(s: State, t: State)
    requires Exclusive(s) && t.workers == s.workers && (t.lock == Some(Acceptor) <==> AcceptorInside(t))
    requires t.lock == s.lock || (s.lock in {None, Some(Acceptor)} && t.lock in {None, Some(Acceptor)})
    ensures Exclusive(t)
  {
    forall job ensures t.lock == Some(Worker(job)) <==> WorkerInside(t, job) {
      assert s.lock == Some(Worker(job)) <==> WorkerInside(s, job);
    }
  }

  lemma TableFrame(s: State, t: State, max: nat)
    requires Table(s, max) && t.list == s.list && t.count == s.count && t.workers == s.workers
    requires !s.acceptor.Linked? && !t.acceptor.Linked?
    ensures Table(t, max)
  {
    forall job ensures job in t.list <==> Listed(t, job) {
      assert job in s.list <==> Listed(s, job);
    }
  }

  lemma AdmitKeepsTable(s: State, max: nat)
    requires Table(s, max) && NotAWorker(s) && s.acceptor.Admitting? && s.count < max
    ensures var fd := s.acceptor.fd;
      Table(s.(list := [fd] + s.list, count := s.count + 1, acceptor := Linked(fd)), max)
  {
    var fd := s.acceptor.fd;
    var t := s.(list := [fd] + s.list, count := s.count + 1, acceptor := Linked(fd));
    assert !Listed(s, fd);
    forall job ensures job in t.list <==> Listed(t, job) {
      assert job in s.list <==> Listed(s, job);
    }
  }

  lemma CreateKeepsTable(s: State, max: nat)
    requires Table(s, max) && NotAWorker(s) && s.acceptor.Linked?
    ensures Table(s.(workers := s.workers[s.acceptor.fd := Serving], acceptor := Admitted), max)
  {
    var t := s.(workers := s.workers[s.acceptor.fd := Serving], acceptor := Admitted);
    forall job ensures job in t.list <==> Listed(t, job) {
      assert job in s.list <==> Listed(s, job);
    }
  }

  lemma UnlinkKeepsTable(s: State, max: nat, gone: bool)
    requires Table(s, max) && NotAWorker(s) && s.acceptor.Linked?
    ensures Table(Unlink(s, s.acceptor.fd).(acceptor := Unlinked(s.acceptor.fd, gone)), max)
  {
    hide Remove;
    var fd := s.acceptor.fd;
    var t := Unlink(s, fd).(acceptor := Unlinked(fd, gone));
    assert Listed(s, fd);
    RemoveOne(s.list, fd);
    forall job ensures job in t.list <==> Listed(t, job) {
      assert job in s.list <==> Listed(s, job);
    }
  }

  /** The acceptor gives the descriptor in its hands up, closed or to a worker. */
  lemma DescriptorsFrame(s: State, t: State)
    requires Descriptors(s) && t.closes == s.closes && t.next == s.next && t.workers == s.workers
    requires HeldByAcceptor(t) == HeldByAcceptor(s)
    ensures Descriptors(t)
  {
    forall fd | fd in t.closes ensures t.closes[fd] == if Held(t, fd) then 0 else 1 {
      assert s.closes[fd] == if Held(s, fd) then 0 else 1;
    }
  }

  lemma AcceptedDescriptor(s: State)
    requires Descriptors(s) && s.acceptor.Polling?
    ensures Descriptors(s.(acceptor := Holding(s.next), closes := s.closes[s.next := 0], next := s.next + 1))
  {
    var t := s.(acceptor := Holding(s.next), closes := s.closes[s.next := 0], next := s.next + 1);
    forall fd | fd in t.closes ensures t.closes[fd] == if Held(t, fd) then 0 else 1 {
      assert fd in s.closes ==> s.closes[fd] == if Held(s, fd) then 0 else 1;
    }
  }

  lemma HandedOver(s: State)
    requires Descriptors(s) && s.acceptor.Linked?
    ensures Descriptors(s.(workers := s.workers[s.acceptor.fd := Serving], acceptor := Admitted))
  {
    var t := s.(workers := s.workers[s.acceptor.fd := Serving], acceptor := Admitted);
    forall fd | fd in t.closes ensures t.closes[fd] == if Held(t, fd) then 0 else 1 {
      assert s.closes[fd] == if Held(s, fd) then 0 else 1;
    }
  }

  lemma GivenUp(s: State, at: AcceptorAt)
    requires Descriptors(s) && HeldByAcceptor(s).Some? && (at.Polling? || at.Draining?)
    ensures Descriptors(Close(s, HeldByAcceptor(s).value).(acceptor := at))
  {
    var t := Close(s, HeldByAcceptor(s).value).(acceptor := at);
    forall fd | fd in t.closes ensures t.closes[fd] == if Held(t, fd) then 0 else 1 {
      assert s.closes[fd] == if Held(s, fd) then 0 else 1;
    }
  }

  lemma HeldIsNoWorker(s: State)
    requires Descriptors(s)
    ensures NotAWorker(s)
  {
  }

  /** A step that neither stops nor waits. */
  lemma StoppingFrame(t: State)
    requires !t.acceptor.Returned? && t.acceptor != Waiting(false)
    ensures Stopping(t)
  {
  }

  lemma PollingKeeps(s: State, max: nat, a: Action)
    requires Inv(s, max) && s.acceptor.Polling?
    ensures Inv(FromPolling(s, a), max)
  {
    var t := FromPolling(s, a);
    hide Table, Descriptors, Stopping;
    ExclusiveFrame(s, t);
    TableFrame(s, t, max);
    if t.acceptor.Holding? {
      AcceptedDescriptor(s);
    } else {
      DescriptorsFrame(s, t);
    }
    StoppingFrame(t);
    hide Exclusive, Table, Descriptors, Stopping;
  }

  lemma HoldingKeeps(s: State, max: nat, a: Action)
    requires Inv(s, max) && s.acceptor.Holding?
    ensures Inv(FromHolding(s, s.acceptor.fd, a), max)
  {
    var t := FromHolding(s, s.acceptor.fd, a);
    ExclusiveFrame(s, t);
    TableFrame(s, t, max);
    if t.acceptor.Polling? || t.acceptor.Draining? {
      GivenUp(s, t.acceptor);
    } else {
      DescriptorsFrame(s, t);
    }
    StoppingFrame(t);
    hide Exclusive, Table, Descriptors, Stopping;
  }

  lemma RefusingKeeps(s: State, max: nat, at: AcceptorAt)
    requires Inv(s, max) && s.acceptor.Refusing? && (at.Polling? || at.Draining?)
    ensures Inv(Close(s, s.acceptor.fd).(acceptor := at), max)
  {
    var t := Close(s, s.acceptor.fd).(acceptor := at);
    ExclusiveFrame(s, t);
    TableFrame(s, t, max);
    GivenUp(s, at);
    StoppingFrame(t);
    hide Exclusive, Table, Descriptors, Stopping;
  }

  lemma AdmittingKeeps(s: State, max: nat)
    requires Inv(s, max) && s.acceptor.Admitting?
    ensures Inv(FromAdmitting(s, max, s.acceptor.fd), max)
  {
    var t := FromAdmitting(s, max, s.acceptor.fd);
    HeldIsNoWorker(s);
    ExclusiveFrame(s, t);
    if t.acceptor.Linked? {
      AdmitKeepsTable(s, max);
    } else {
      TableFrame(s, t, max);
    }
    DescriptorsFrame(s, t);
    StoppingFrame(t);
    hide Exclusive, Table, Descriptors, Stopping;
  }

  lemma LinkedKeeps(s: State, max: nat, a: Action)
    requires Inv(s, max) && s.acceptor.Linked?
    ensures Inv(FromLinked(s, s.acceptor.fd, a), max)
  {
    hide Remove;
    var t := FromLinked(s, s.acceptor.fd, a);
    HeldIsNoWorker(s);
    if a.Create? {
      CreateKeepsExclusive(s);
      CreateKeepsTable(s, max);
      HandedOver(s);
      StoppingFrame(t);
    } else if a.CreateFails? {
      ExclusiveFrame(s, t);
      UnlinkKeepsTable(s, max, a.gone);
      DescriptorsFrame(s, t);
      StoppingFrame(t);
    }
    hide Exclusive, Table, Descriptors, Stopping;
  }

  lemma CreateKeepsExclusive(s: State)
    requires Exclusive(s) && NotAWorker(s) && s.acceptor.Linked?
    ensures Exclusive(s.(workers := s.workers[s.acceptor.fd := Serving], acceptor := Admitted))
  {
    var t := s.(workers := s.workers[s.acceptor.fd := Serving], acceptor := Admitted);
    forall job ensures t.lock == Some(Worker(job)) <==> WorkerInside(t, job) {
      assert s.lock == Some(Worker(job)) <==> WorkerInside(s, job);
    }
  }

  lemma LockKeeps(s: State, max: nat, at: AcceptorAt)
    requires Inv(s, max) && (s.acceptor.Locking? || s.acceptor.Draining? || s.acceptor == Waiting(true))
    requires at == (if s.acceptor.Locking? then Admitting(s.acceptor.fd) else Checking)
    ensures Inv(TakeLock(s, at), max)
  {
    var t := TakeLock(s, at);
    if s.lock.None? {
      ExclusiveFrame(s, t);
      TableFrame(s, t, max);
      DescriptorsFrame(s, t);
      StoppingFrame(t);
      hide Exclusive, Table, Descriptors, Stopping;
    }
  }

  lemma UnlockKeeps(s: State, max: nat, t: State)
    requires Inv(s, max) && (s.acceptor.Unlinked? || s.acceptor.Admitted?)
    requires t == if s.acceptor.Unlinked? then s.(lock := None, acceptor := Refusing(s.acceptor.fd, s.acceptor.gone))
      else s.(lock := None, acceptor := Polling, armed := true, quiet := 0, admissions := s.admissions + 1)
    ensures Inv(t, max)
  {
    ExclusiveFrame(s, t);
    TableFrame(s, t, max);
    DescriptorsFrame(s, t);
    StoppingFrame(t);
    hide Exclusive, Table, Descriptors, Stopping;
  }

  lemma CheckingKeeps(s: State, max: nat)
    requires Inv(s, max) && s.acceptor.Checking?
    ensures Inv(s.(lock := None, acceptor := if s.count != 0 then Waiting(false) else Returned), max)
  {
    var t := s.(lock := None, acceptor := if s.count != 0 then Waiting(false) else Returned);
    ExclusiveFrame(s, t);
    TableFrame(s, t, max);
    DescriptorsFrame(s, t);
    if s.count == 0 {
      EmptyTableMeansDone(s, max);
    } else {
      assert s.list != [];
    }
    hide Exclusive, Table, Descriptors;
  }

  lemma EmptyTableMeansDone(s: State, max: nat)
    requires Exclusive(s) && Table(s, max) && s.acceptor.Checking? && s.count == 0
    ensures forall job :: job in s.workers ==> s.workers[job].Freeing?
  {
    forall job | job in s.workers ensures s.workers[job].Freeing? {
      assert !(job in s.list);
      assert !WorkerInside(s, job);
    }
  }

  lemma AcceptorKeeps(s: State, max: nat, a: Action)
    requires Inv(s, max)
    ensures Inv(AcceptorStep(s, max, a), max)
  {
    hide Inv, FromPolling, FromHolding, FromAdmitting, FromLinked, TakeLock, Close;
    match s.acceptor
    case Polling => PollingKeeps(s, max, a);
    case Holding(fd) => HoldingKeeps(s, max, a);
    case Locking(fd) => LockKeeps(s, max, Admitting(fd));
    case Admitting(fd) => AdmittingKeeps(s, max);
    case Linked(fd) => LinkedKeeps(s, max, a);
    case Unlinked(fd, gone) => UnlockKeeps(s, max, s.(lock := None, acceptor := Refusing(fd, gone)));
    case Refusing(fd, gone) => RefusingKeeps(s, max, if gone then Draining else Polling);
    case Admitted =>
      UnlockKeeps(s, max, s.(lock := None, acceptor := Polling, armed := true, quiet := 0, admissions := s.admissions + 1));
    case Draining => LockKeeps(s, max, Checking);
    case Checking => CheckingKeeps(s, max);
    case Waiting(woken) =>
      if woken {
        LockKeeps(s, max, Checking);
      }
    case Returned =>
  }

  lemma WorkerKeepsExclusive(s: State, max: nat, job: nat, a: Action)
    requires Inv(s, max) && job in s.workers
    ensures Exclusive(WorkerStep(s, job, a))
  {
    hide Table, Descriptors, Stopping, Remove;
    var t := WorkerStep(s, job, a);
    assert WorkerInside(s, job) <==> s.lock == Some(Worker(job));
    forall j ensures WorkerInside(t, j) <==> t.lock == Some(Worker(j)) {
      assert WorkerInside(s, j) <==> s.lock == Some(Worker(j));
    }
  }

  /** A worker moves without leaving the table. */
  lemma MovedKeepsTable(s: State, t: State, max: nat, job: nat)
    requires Table(s, max) && job in s.workers && t.list == s.list && t.count == s.count
    requires t.acceptor == s.acceptor || (s.acceptor.Waiting? && t.acceptor.Waiting?)
    requires forall j :: j != job ==> (j in t.workers <==> j in s.workers) && (j in s.workers ==> t.workers[j] == s.workers[j])
    requires Listed(t, job) <==> Listed(s, job)
    ensures Table(t, max)
  {
    forall j ensures j in t.list <==> Listed(t, j) {
      assert j in s.list <==> Listed(s, j);
    }
  }

  lemma RemovedKeepsTable(s: State, max: nat, job: nat)
    requires Table(s, max) && NotAWorker(s) && job in s.workers && s.workers[job].Removing?
    ensures Table(Unlink(s, job).(workers := s.workers[job := Broadcasting]), max)
  {
    hide Remove;
    var t := Unlink(s, job).(workers := s.workers[job := Broadcasting]);
    assert Listed(s, job);
    RemoveOne(s.list, job);
    forall j ensures j in t.list <==> Listed(t, j) {
      assert j in s.list <==> Listed(s, j);
    }
  }

  lemma WorkerKeepsTable(s: State, max: nat, job: nat, a: Action)
    requires Inv(s, max) && job in s.workers
    ensures Table(WorkerStep(s, job, a), max)
  {
    HeldIsNoWorker(s);
    hide Exclusive, Stopping, Remove, Descriptors, Table;
    if s.workers[job].Removing? && a.WorkerRemoves? {
      RemovedKeepsTable(s, max, job);
    } else {
      MovedKeepsTable(s, WorkerStep(s, job, a), max, job);
    }
  }

  lemma MovedKeepsDescriptors(s: State, t: State, job: nat)
    requires Descriptors(s) && job in s.workers && t.closes == s.closes && t.next == s.next
    requires HeldByAcceptor(t) == HeldByAcceptor(s)
    requires forall j :: j != job ==> (j in t.workers <==> j in s.workers) && (j in s.workers ==> t.workers[j] == s.workers[j])
    requires Held(t, job) <==> Held(s, job)
    ensures Descriptors(t)
  {
    forall fd | fd in t.closes ensures t.closes[fd] == if Held(t, fd) then 0 else 1 {
      assert s.closes[fd] == if Held(s, fd) then 0 else 1;
    }
  }

  lemma ClosedKeepsDescriptors(s: State, job: nat, fatal: bool)
    requires Descriptors(s) && job in s.workers && s.workers[job].Closing?
    ensures Descriptors(Close(s, job).(fatal := fatal, workers := s.workers[job := Removing]))
  {
    var t := Close(s, job).(fatal := fatal, workers := s.workers[job := Removing]);
    forall fd | fd in t.closes ensures t.closes[fd] == if Held(t, fd) then 0 else 1 {
      assert s.closes[fd] == if Held(s, fd) then 0 else 1;
    }
  }

  lemma WorkerKeepsDescriptors(s: State, max: nat, job: nat, a: Action)
    requires Inv(s, max) && job in s.workers
    ensures Descriptors(WorkerStep(s, job, a))
  {
    hide Exclusive, Stopping, Remove, Descriptors, Table;
    if s.workers[job].Closing? && a.WorkerCloses? {
      ClosedKeepsDescriptors(s, job, s.fatal || s.workers[job].fatal);
    } else {
      MovedKeepsDescriptors(s, WorkerStep(s, job, a), job);
    }
  }

  lemma WorkerKeepsStopping(s: State, max: nat, job: nat, a: Action)
    requires Inv(s, max) && job in s.workers
    ensures Stopping(WorkerStep(s, job, a))
  {
    hide Descriptors, Remove;
    var t := WorkerStep(s, job, a);
    assert WorkerInside(s, job) <==> s.lock == Some(Worker(job));
    if s.workers[job].Removing? && a.WorkerRemoves? {
      assert t.lock == Some(Worker(job)) && t.workers[job].Broadcasting?;
    }
  }

  lemma StepKeepsInv(s: State, max: nat, a: Action)
    requires Inv(s, max)
    ensures Inv(Step(s, max, a), max)
  {
    match JobOf(a)
    case None => AcceptorKeeps(s, max, a);
    case Some(job) =>
      if job in s.workers {
        WorkerKeepsExclusive(s, max, job, a);
        WorkerKeepsTable(s, max, job, a);
        WorkerKeepsDescriptors(s, max, job, a);
        WorkerKeepsStopping(s, max, job, a);
      }
  }

  lemma InitialInv(max: nat)
    ensures Inv(Initial(), max)
  {
  }

  lemma {:induction false} EveryRunKeepsInv(max: nat, actions: seq<Action>)
    ensures Inv(Run(max, actions), max)
    decreases |actions|
  {
    if actions == [] {
      InitialInv(max);
    } else {
      EveryRunKeepsInv(max, actions[..|actions| - 1]);
      hide Inv, Step;
      StepKeepsInv(Run(max, actions[..|actions| - 1]), max, actions[|actions| - 1]);
    }
  }

  // ----- what follows -----

  /** In every interleaving the table is exactly the live jobs, once each and never more than the limit; no
      descriptor is closed twice; and idle compactions never outnumber admissions. */
  lemma TableIsLiveJobs(max: nat, actions: seq<Action>)
    ensures var s := Run(max, actions);
      && s.count == |s.list| <= max && Distinct(s.list) && (forall job :: job in s.list <==> Listed(s, job))
      && (forall fd :: fd in s.closes ==> s.closes[fd] <= 1)
      && s.compactions <= s.admissions
  {
    hide Run;
    EveryRunKeepsInv(max, actions);
  }

  /** When stopping returns, no worker can touch the server again: each has only its own job left to free. */
  lemma StopWaitsForAll(max: nat, actions: seq<Action>)
    requires Run(max, actions).acceptor.Returned?
    ensures var s := Run(max, actions); s.list == [] && forall job :: job in s.workers ==> s.workers[job].Freeing?
  {
    hide Run;
    EveryRunKeepsInv(max, actions);
    var s := Run(max, actions);
    assert s.list == [] || Listed(s, s.list[0]);
  }

  predicate Finished(s: State) {
    s.acceptor.Returned? && s.workers == map[]
  }

  /** Every accepted descriptor has by then been closed exactly once, whichever path it took. */
  lemma EveryDescriptorClosedOnce(max: nat, actions: seq<Action>)
    requires Finished(Run(max, actions))
    ensures var s := Run(max, actions); forall fd :: 0 <= fd < s.next ==> fd in s.closes && s.closes[fd] == 1
  {
    hide Run;
    EveryRunKeepsInv(max, actions);
    var s := Run(max, actions);
    forall fd | 0 <= fd < s.next ensures fd in s.closes && s.closes[fd] == 1 {
      assert fd in s.closes && !Held(s, fd);
    }
  }

  /** What a worker can do next, lock permitting. */
  function NextOf(at: WorkerAt, job: nat): Action {
    match at
    case Serving => Finish(job, false)
    case Wanting(_) => WorkerLocks(job)
    case Closing(_) => WorkerCloses(job)
    case Removing => WorkerRemoves(job)
    case Broadcasting => WorkerBroadcasts(job)
    case Unlocking => WorkerUnlocks(job)
    case Freeing => WorkerFrees(job)
  }

  lemma WorkerMoves(s: State, max: nat, job: nat)
    requires job in s.workers && (s.workers[job].Wanting? ==> s.lock.None?)
    ensures Step(s, max, NextOf(s.workers[job], job)) != s
  {
    hide Remove;
    var t := Step(s, max, NextOf(s.workers[job], job));
    assert s.workers[job].Freeing? ==> job !in t.workers;
    assert !s.workers[job].Freeing? ==> t.workers[job] != s.workers[job];
  }

  lemma AcceptorMoves(s: State, max: nat)
    requires !s.acceptor.Returned? && s.acceptor != Waiting(false)
    requires s.acceptor.Locking? || s.acceptor.Draining? || s.acceptor.Waiting? ==> s.lock.None?
    ensures exists a :: Step(s, max, a) != s
  {
    hide Remove;
    var a := match s.acceptor
      case Polling => Stop
      case Holding(_) => Ready
      case Locking(_) => Lock
      case Admitting(_) => Admit
      case Linked(_) => Create
      case Unlinked(_, _) => Unlock
      case Refusing(_, _) => CloseRefused
      case Admitted => Unlock
      case Draining => Drain
      case Checking => Check
      case Waiting(_) => Wake
      case Returned => Stop;
    assert Step(s, max, a).acceptor != s.acceptor;
  }

  /** No interleaving deadlocks and no wakeup is lost: until everything is finished, some thread can move. */
  lemma NeverStuck(max: nat, actions: seq<Action>)
    requires !Finished(Run(max, actions))
    ensures exists a :: Step(Run(max, actions), max, a) != Run(max, actions)
  {
    EveryRunKeepsInv(max, actions);
    hide Run, Step, AcceptorStep, WorkerStep;
    var s := Run(max, actions);
    if s.lock.Some? && s.lock.value.Worker? {
      var job := s.lock.value.job;
      assert WorkerInside(s, job);
      WorkerMoves(s, max, job);
    } else if s.lock.Some? {
      AcceptorMoves(s, max);
    } else if !s.acceptor.Returned? && s.acceptor != Waiting(false) {
      AcceptorMoves(s, max);
    } else {
      var job := SomeWorker(s, max);
      WorkerMoves(s, max, job);
    }
  }

  /** While the acceptor waits unwoken, or has returned, an unfinished worker is there to move. */
  lemma SomeWorker(s: State, max: nat) returns (job: nat)
    requires Inv(s, max) && s.lock.None? && !Finished(s) && (s.acceptor.Returned? || s.acceptor == Waiting(false))
    ensures job in s.workers
  {
    if s.acceptor.Returned? {
      assert s.workers.Keys != {};
      job :| job in s.workers.Keys;
    } else {
      assert s.list != [];
      job := s.list[0];
      assert Listed(s, job);
    }
  }

  // ----- stopping ends -----

  /** The acceptor is on its way out. */
  predicate Leaving(s: State) {
    s.acceptor.Draining? || s.acceptor.Checking? || s.acceptor.Waiting? || s.acceptor.Returned?
  }

  /** How many steps a worker has before it is gone. */
  function StepsLeft(at: WorkerAt): (n: nat)
    ensures 1 <= n <= 7
  {
    match at
    case Serving => 7
    case Wanting(_) => 6
    case Closing(_) => 5
    case Removing => 4
    case Broadcasting => 3
    case Unlocking => 2
    case Freeing => 1
  }

  function Work(workers: map<nat, WorkerAt>, n: nat): (w: nat)
    ensures w <= 7 * n
  {
    if n == 0 then 0 else Work(workers, n - 1) + if n - 1 in workers then StepsLeft(workers[n - 1]) else 0
  }

  /** What is left to do once the acceptor leaves: a worker's broadcast may send it round once more. */
  function Left(s: State): (n: nat)
    ensures n <= 28 * s.next + 3
  {
    4 * Work(s.workers, s.next)
    + match s.acceptor
      case Returned => 0
      case Waiting(woken) => if woken then 3 else 1
      case Checking => 2
      case _ => 3
  }

  lemma {:induction false} SameWork(a: map<nat, WorkerAt>, b: map<nat, WorkerAt>, n: nat)
    requires forall job :: job < n ==> (job in a <==> job in b) && (job in a ==> a[job] == b[job])
    ensures Work(a, n) == Work(b, n)
  {
    if n > 0 {
      SameWork(a, b, n - 1);
    }
  }

  lemma {:induction false} OneMovesOn(a: map<nat, WorkerAt>, b: map<nat, WorkerAt>, n: nat, job: nat)
    requires job < n && job in a && (job in b ==> StepsLeft(b[job]) < StepsLeft(a[job]))
    requires forall other :: other != job ==> (other in a <==> other in b) && (other in a ==> a[other] == b[other])
    ensures Work(b, n) < Work(a, n)
  {
    if n - 1 == job {
      SameWork(a, b, job);
    } else {
      OneMovesOn(a, b, n - 1, job);
    }
  }

  /** A worker's step moves that worker on, or changes nothing at all. */
  lemma WorkerStepMoves(s: State, job: nat, a: Action)
    requires job in s.workers
    ensures var t := WorkerStep(s, job, a);
      && t.next == s.next && (t.acceptor == s.acceptor || (s.acceptor.Waiting? && t.acceptor == Waiting(true)))
      && (t == s || (job in t.workers ==> StepsLeft(t.workers[job]) < StepsLeft(s.workers[job])))
  {
    hide Unlink, Close;
    UnlinkLeaves(s, job);
  }

  lemma OthersStay(s: State, job: nat, a: Action)
    requires job in s.workers
    ensures var t := WorkerStep(s, job, a);
      forall other :: other != job ==>
        (other in s.workers <==> other in t.workers) && (other in s.workers ==> s.workers[other] == t.workers[other])
  {
    hide Unlink, Close;
    UnlinkLeaves(s, job);
  }

  lemma UnlinkLeaves(s: State, job: nat)
    ensures var t := Unlink(s, job); t.workers == s.workers && t.next == s.next && t.acceptor == s.acceptor
    ensures var t := Close(s, job); t.workers == s.workers && t.next == s.next && t.acceptor == s.acceptor
  {
  }

  lemma WorkerMovesOn(s: State, max: nat, job: nat, a: Action)
    requires Inv(s, max) && Leaving(s) && job in s.workers && JobOf(a) == Some(job)
    ensures var t := WorkerStep(s, job, a);
      Leaving(t) && t.next == s.next && (t == s || Left(t) < Left(s))
  {
    hide Exclusive, Table, Stopping, WorkerStep, StepsLeft;
    var t := WorkerStep(s, job, a);
    WorkerStepMoves(s, job, a);
    OthersStay(s, job, a);
    if t != s {
      OneMovesOn(s.workers, t.workers, s.next, job);
    }
  }

  /** Once the acceptor leaves it keeps leaving, and every step that changes anything leaves less to do. */
  lemma StepLeavesLess(s: State, max: nat, a: Action)
    requires Inv(s, max) && Leaving(s)
    ensures var t := Step(s, max, a);
      Leaving(t) && t.next == s.next && (t == s || Left(t) < Left(s))
  {
    match JobOf(a)
    case None => hide Inv;
    case Some(job) =>
      hide Inv, WorkerStep, Left;
      if job in s.workers {
        WorkerMovesOn(s, max, job, a);
      }
  }

  /** How many of the last `more` steps of a run changed anything. */
  function Changes(max: nat, actions: seq<Action>, more: nat): (n: nat)
    requires more <= |actions|
    ensures n <= more
    decreases more
  {
    if more == 0 then 0 else
    var before := actions[..|actions| - 1];
    Changes(max, before, more - 1) + if Run(max, actions) == Run(max, before) then 0 else 1
  }

  /** Whether step `i` of a run changed anything. */
  predicate ChangedAt(max: nat, actions: seq<Action>, i: nat)
    requires i < |actions|
  {
    Run(max, actions[..i + 1]) != Run(max, actions[..i])
  }

  function ChangedFrom(max: nat, actions: seq<Action>, start: nat): set<nat> {
    set i: nat | start <= i < |actions| && ChangedAt(max, actions, i)
  }

  /** They are the steps after which the state is another. */
  lemma {:induction false} ChangesCount(max: nat, actions: seq<Action>, more: nat)
    requires more <= |actions|
    ensures Changes(max, actions, more) == |ChangedFrom(max, actions, |actions| - more)|
    decreases more
  {
    hide Run;
    if more == 0 {
      assert ChangedFrom(max, actions, |actions|) == {};
    } else {
      var n := |actions| - 1;
      ChangesCount(max, actions[..n], more - 1);
      LastChanged(max, actions, n - (more - 1));
    }
  }

  lemma LastChanged(max: nat, actions: seq<Action>, start: nat)
    requires start < |actions|
    ensures var before := actions[..|actions| - 1];
      |ChangedFrom(max, actions, start)|
        == |ChangedFrom(max, before, start)| + if Run(max, actions) == Run(max, before) then 0 else 1
  {
    hide Run;
    var n := |actions| - 1;
    var before := actions[..n];
    forall i: nat | i < n ensures ChangedAt(max, actions, i) <==> ChangedAt(max, before, i) {
      assert before[..i + 1] == actions[..i + 1] && before[..i] == actions[..i];
    }
    assert ChangedAt(max, actions, n) <==> Run(max, actions) != Run(max, before) by {
      assert actions[..n + 1] == actions;
    }
    hide ChangedAt;
    OneMoreIn(ChangedFrom(max, actions, start), ChangedFrom(max, before, start), n, ChangedAt(max, actions, n));
  }

  lemma OneMoreIn(all: set<nat>, earlier: set<nat>, n: nat, more: bool)
    requires n !in earlier && forall i :: i in all <==> i in earlier || (i == n && more)
    ensures |all| == |earlier| + if more then 1 else 0
  {
    assert all == if more then earlier + {n} else earlier;
  }

  lemma {:induction false} ChangesUseUp(max: nat, actions: seq<Action>, more: seq<Action>)
    requires Leaving(Run(max, actions))
    ensures var s, t := Run(max, actions), Run(max, actions + more);
      Leaving(t) && t.next == s.next && Changes(max, actions + more, |more|) + Left(t) <= Left(s)
    decreases |more|
  {
    hide Step, Left, Leaving, Inv;
    if more == [] {
      assert actions + more == actions;
    } else {
      var n := |more| - 1;
      var all := actions + more;
      ChangesUseUp(max, actions, more[..n]);
      assert all[..|all| - 1] == actions + more[..n];
      EveryRunKeepsInv(max, actions + more[..n]);
      StepLeavesLess(Run(max, actions + more[..n]), max, more[n]);
    }
  }

  /** Stopping terminates: from the moment the acceptor leaves, in every interleaving, at most 28 steps for
      each descriptor ever accepted, and three more, change anything; a run that nothing can change any
      further is finished. */
  lemma StoppingEnds(max: nat, actions: seq<Action>, more: seq<Action>)
    requires Leaving(Run(max, actions))
    ensures Changes(max, actions + more, |more|) <= 28 * Run(max, actions).next + 3
    ensures (forall a :: Step(Run(max, actions + more), max, a) == Run(max, actions + more))
      ==> Finished(Run(max, actions + more))
  {
    hide Run, Step, Changes;
    ChangesUseUp(max, actions, more);
    if !Finished(Run(max, actions + more)) {
      NeverStuck(max, actions + more);
    }
  }
}
