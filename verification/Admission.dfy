/** Who is admitted, who is turned away and why, over every interleaving of the native host. */
module Admission {
  import opened Bytes
  import opened Clients

  // ----- live jobs -----

  /** A client still has its place: its worker is not yet past giving it up. */
  predicate Occupies(at: WorkerAt) {
    at.Serving? || at.Wanting? || at.Closing? || at.Removing?
  }

  function LiveJobs(s: State): set<nat> {
    set job | job in s.workers && Occupies(s.workers[job])
  }

  lemma {:induction false} ListedOnce(list: seq<nat>, jobs: set<nat>)
    requires Distinct(list) && forall job :: job in list <==> job in jobs
    ensures |list| == |jobs|
  {
    if list == [] {
      assert jobs == {};
    } else {
      var rest := list[1..];
      assert list == [list[0]] + rest;
      assert list[0] !in rest;
      forall job ensures job in rest <==> job in jobs - {list[0]} {
        assert job in list <==> job == list[0] || job in rest;
      }
      ListedOnce(rest, jobs - {list[0]});
    }
  }

  /** While the acceptor decides, the count it reads is the number of live jobs. */
  lemma CountIsLive(max: nat, actions: seq<Action>)
    requires Run(max, actions).acceptor.Admitting?
    ensures var s := Run(max, actions); s.count == |LiveJobs(s)| <= max
  {
    EveryRunKeepsInv(max, actions);
    hide Run;
    var s := Run(max, actions);
    forall job ensures job in s.list <==> job in LiveJobs(s) {
      assert job in s.list <==> Listed(s, job);
    }
    ListedOnce(s.list, LiveJobs(s));
  }

  // ----- the way in -----

  /** A connection is taken whenever the acceptor polls, unless a fatal failure is already known. */
  lemma AcceptedIff(max: nat, actions: seq<Action>)
    requires Run(max, actions).acceptor.Polling?
    ensures var s := Run(max, actions);
      Run(max, actions + [Accept]).acceptor
        == if s.lock.None? && s.fatal then Draining else Holding(s.next)
  {
    hide Run;
    OneStep(max, actions, Accept);
  }

  lemma OneStep(max: nat, actions: seq<Action>, a: Action)
    ensures Run(max, actions + [a]) == Step(Run(max, actions), max, a)
  {
    hide Step;
    assert (actions + [a])[..|actions|] == actions;
  }

  /** In every run a descriptor that reaches the table lock is given a place exactly while fewer than `max` jobs
      are live, and refused exactly when all of them are taken. */
  lemma AdmittedIff(max: nat, actions: seq<Action>)
    requires Run(max, actions).acceptor.Admitting?
    ensures var s, t := Run(max, actions), Run(max, actions + [Admit]);
      var fd := s.acceptor.fd;
      && |LiveJobs(s)| <= max
      && (|LiveJobs(s)| < max ==> t.acceptor == Linked(fd) && t.list == [fd] + s.list && t.lock == s.lock)
      && (|LiveJobs(s)| == max ==> t.acceptor == Refusing(fd, false) && t.list == s.list && t.lock.None?)
  {
    hide Run, LiveJobs;
    CountIsLive(max, actions);
    OneStep(max, actions, Admit);
  }

  /** Given its place, it becomes a serving worker when the thread is created, and is turned away when not. */
  lemma ServedIff(max: nat, actions: seq<Action>, a: Action)
    requires Run(max, actions).acceptor.Linked? && (a.Create? || a.CreateFails?)
    ensures var s, t := Run(max, actions), Run(max, actions + [a]);
      var fd := s.acceptor.fd;
      && fd !in s.workers
      && (a.Create? ==> t.acceptor == Admitted && t.workers == s.workers[fd := Serving] && t.list == s.list)
      && (a.CreateFails? ==> t.acceptor == Unlinked(fd, a.gone) && fd !in t.workers && fd !in t.list)
  {
    EveryRunKeepsInv(max, actions);
    hide Run, Remove;
    OneStep(max, actions, a);
    var s := Run(max, actions);
    assert Listed(s, s.acceptor.fd) && s.acceptor.fd in s.list;
    RemoveOne(s.list, s.acceptor.fd);
  }

  // ----- why a descriptor was closed unserved -----

  /** Step `i` of the run decided that `fd` would not be served: it was dropped, the server was stopping, its
      thread could not be created, or every one of the `max` places was taken. */
  ghost predicate TurnedAway(max: nat, actions: seq<Action>, i: nat, fd: nat)
    requires i < |actions|
  {
    var s, a := Run(max, actions[..i]), actions[i];
    || (s.acceptor == Holding(fd) && (a.Drop? || a.StopHolding?))
    || (s.acceptor == Linked(fd) && a.CreateFails?)
    || (s.acceptor == Admitting(fd) && a.Admit? && |LiveJobs(s)| == max)
  }

  ghost predicate Excused(max: nat, actions: seq<Action>, fd: nat) {
    exists i: nat :: i < |actions| && TurnedAway(max, actions, i, fd)
  }

  ghost predicate HadWorker(max: nat, actions: seq<Action>, fd: nat) {
    exists i: nat :: i <= |actions| && fd in Run(max, actions[..i]).workers
  }

  /** A closed descriptor, or one the acceptor is about to close, had a worker or has its excuse. */
  ghost predicate Explained(max: nat, actions: seq<Action>, fd: nat) {
    var s := Run(max, actions);
    && (s.acceptor.Unlinked? && s.acceptor.fd == fd ==> Excused(max, actions, fd))
    && (s.acceptor.Refusing? && s.acceptor.fd == fd ==> Excused(max, actions, fd))
    && (fd in s.closes && s.closes[fd] > 0 ==> HadWorker(max, actions, fd) || Excused(max, actions, fd))
  }

  lemma StillExcused(max: nat, actions: seq<Action>, fd: nat)
    requires actions != []
    ensures Excused(max, actions[..|actions| - 1], fd) ==> Excused(max, actions, fd)
    ensures HadWorker(max, actions[..|actions| - 1], fd) ==> HadWorker(max, actions, fd)
  {
    var before := actions[..|actions| - 1];
    if i: nat :| i < |before| && TurnedAway(max, before, i, fd) {
      assert before[..i] == actions[..i];
      assert TurnedAway(max, actions, i, fd);
    }
    if i: nat :| i <= |before| && fd in Run(max, before[..i]).workers {
      assert before[..i] == actions[..i];
    }
  }

  lemma LastTurnedAway(max: nat, actions: seq<Action>, fd: nat)
    requires actions != [] && TurnedAway(max, actions, |actions| - 1, fd)
    ensures Excused(max, actions, fd)
  {
  }

  lemma HasWorker(max: nat, actions: seq<Action>, fd: nat)
    requires fd in Run(max, actions).workers
    ensures HadWorker(max, actions, fd)
  {
    assert actions[..|actions|] == actions;
  }

  /** What one step of the acceptor may close, and what it decides. */
  lemma AcceptorExplains(s: State, max: nat, a: Action, fd: nat)
    requires s.count <= max
    ensures StepExplained(s, AcceptorStep(s, max, a), max, a, fd)
  {
    hide Remove, QuietPoll, Unlink;
    QuietLeaves(s);
    if s.acceptor.Linked? {
      UnlinkLeaves(s, s.acceptor.fd);
      UnlinkCloses(s, s.acceptor.fd);
    }
  }

  lemma QuietLeaves(s: State)
    ensures var t := QuietPoll(s); t.acceptor == s.acceptor && t.closes == s.closes && t.fatal == s.fatal
  {
  }

  lemma WorkerExplains(s: State, max: nat, job: nat, a: Action, fd: nat)
    requires job in s.workers
    ensures StepExplained(s, WorkerStep(s, job, a), max, a, fd)
  {
    hide Remove, Unlink;
    UnlinkLeaves(s, job);
    UnlinkCloses(s, job);
  }

  lemma UnlinkCloses(s: State, job: nat)
    ensures Unlink(s, job).closes == s.closes
  {
  }

  ghost predicate StepExplained(s: State, t: State, max: nat, a: Action, fd: nat) {
    && (t.acceptor.Unlinked? && t.acceptor.fd == fd ==> t.acceptor == s.acceptor || (s.acceptor == Linked(fd) && a.CreateFails?))
    && (t.acceptor.Refusing? && t.acceptor.fd == fd ==>
          (t.acceptor == s.acceptor || (s.acceptor.Unlinked? && s.acceptor.fd == fd)
           || (s.acceptor == Admitting(fd) && a.Admit? && s.count == max)))
    && (fd in t.closes && t.closes[fd] > 0 ==>
          ((fd in s.closes && s.closes[fd] > 0) || fd in s.workers
           || (s.acceptor.Refusing? && s.acceptor.fd == fd)
           || (s.acceptor == Holding(fd) && (a.Drop? || a.StopHolding?))))
  }

  lemma StepExplains(s: State, max: nat, a: Action, fd: nat)
    requires Inv(s, max)
    ensures StepExplained(s, Step(s, max, a), max, a, fd)
  {
    hide StepExplained, AcceptorStep, WorkerStep;
    match JobOf(a)
    case None => AcceptorExplains(s, max, a, fd);
    case Some(job) =>
      if job in s.workers {
        WorkerExplains(s, max, job, a, fd);
      } else {
        SameExplained(s, max, a, fd);
      }
  }

  lemma SameExplained(s: State, max: nat, a: Action, fd: nat)
    ensures StepExplained(s, s, max, a, fd)
  {
  }

  lemma {:induction false} EveryDescriptorIsExplained(max: nat, actions: seq<Action>, fd: nat)
    ensures Explained(max, actions, fd)
    decreases |actions|
  {
    if actions != [] {
      var n := |actions| - 1;
      var before, a := actions[..n], actions[n];
      EveryDescriptorIsExplained(max, before, fd);
      EveryRunKeepsInv(max, before);
      StillExcused(max, actions, fd);
      var s := Run(max, before);
      hide Run, Step, Inv, Excused, HadWorker;
      StepExplains(s, max, a, fd);
      if s.acceptor.Admitting? {
        CountIsLive(max, before);
      }
      if TurnedAway(max, actions, n, fd) {
        LastTurnedAway(max, actions, fd);
      }
      if fd in s.workers {
        HasWorker(max, before, fd);
      }
    }
  }

  /** In every interleaving, a descriptor that was closed without ever having had a worker was dropped, came as
      the server was stopping, found no thread to serve it, or was refused while exactly `max` jobs were live. */
  lemma ClosedUnservedBecause(max: nat, actions: seq<Action>, fd: nat)
    requires fd in Run(max, actions).closes && Run(max, actions).closes[fd] > 0
    ensures HadWorker(max, actions, fd) || Excused(max, actions, fd)
  {
    EveryDescriptorIsExplained(max, actions, fd);
  }

  /** With room for one client, the first to come is served. */
  lemma FirstClientIsServed(max: nat)
    requires max >= 1
    ensures Run(max, [Accept, Ready, Lock, Admit, Create]).workers == map[0 := Serving]
  {
    hide Run;
    var actions := [Accept, Ready, Lock, Admit, Create];
    assert [] + [Accept] == [Accept] && [Accept] + [Ready] == [Accept, Ready];
    assert [Accept, Ready] + [Lock] == [Accept, Ready, Lock];
    assert [Accept, Ready, Lock] + [Admit] == [Accept, Ready, Lock, Admit];
    assert [Accept, Ready, Lock, Admit] + [Create] == actions;
    StartsInitial(max);
    OneStep(max, [], Accept);
    OneStep(max, [Accept], Ready);
    OneStep(max, [Accept, Ready], Lock);
    OneStep(max, [Accept, Ready, Lock], Admit);
    OneStep(max, [Accept, Ready, Lock, Admit], Create);
  }

  lemma StartsInitial(max: nat)
    ensures Run(max, []) == Initial()
  {
  }

  // ----- a fatal failure -----

  /** A worker whose service failed for good says so when it closes, and it is never forgotten. */
  lemma FatalIsKnown(max: nat, actions: seq<Action>, a: Action)
    ensures var s, t := Run(max, actions), Run(max, actions + [a]);
      && (s.fatal ==> t.fatal)
      && (t.fatal ==> s.fatal || (a.WorkerCloses? && a.job in s.workers && s.workers[a.job] == Closing(true)))
      && (a.WorkerCloses? && a.job in s.workers && s.workers[a.job] == Closing(true) ==> t.fatal)
  {
    hide Run, AcceptorStep, WorkerStep;
    OneStep(max, actions, a);
    var s := Run(max, actions);
    AcceptorKeepsFatal(s, max, a);
    if JobOf(a).Some? && JobOf(a).value in s.workers {
      WorkerKeepsFatal(s, JobOf(a).value, a);
    }
  }

  lemma AcceptorKeepsFatal(s: State, max: nat, a: Action)
    ensures AcceptorStep(s, max, a).fatal == s.fatal
  {
    hide QuietPoll, Remove;
    QuietLeaves(s);
  }

  lemma WorkerKeepsFatal(s: State, job: nat, a: Action)
    requires job in s.workers
    ensures WorkerStep(s, job, a).fatal == (s.fatal || (a.WorkerCloses? && s.workers[job] == Closing(true)))
  {
    hide Remove;
  }

  // ----- idle compaction -----

  function QuietPolls(max: nat, s: State, n: nat): State {
    if n == 0 then s else Step(QuietPolls(max, s, n - 1), max, Quiet)
  }

  /** Quiet polls with nobody connected compact once, at the twentieth in a row, if a client has been admitted
      since the last time; without one they never do. */
  lemma {:induction false} QuietCompactsOnce(max: nat, s: State, n: nat)
    requires s.acceptor.Polling? && s.lock.None? && s.count == 0 && s.quiet == 0
    ensures QuietPolls(max, s, n).compactions == s.compactions + (if s.armed && n >= 20 then 1 else 0)
    ensures QuietPolls(max, s, n).armed == (s.armed && n < 20)
  {
    QuietCount(max, s, n);
  }

  lemma {:induction false} QuietCount(max: nat, s: State, n: nat)
    requires s.acceptor.Polling? && s.lock.None? && s.count == 0 && s.quiet == 0
    ensures QuietPolls(max, s, n) ==
      if !s.armed then s else if n < 20 then s.(quiet := n) else s.(armed := false, compactions := s.compactions + 1)
  {
    if n > 0 {
      QuietCount(max, s, n - 1);
    }
  }

  // ----- each event in its place -----

  /** The events that mean something to an acceptor in this place. */
  predicate Belongs(at: AcceptorAt, a: Action) {
    match at
    case Polling => a.Stop? || a.Quiet? || a.Accept?
    case Holding(_) => a.Drop? || a.StopHolding? || a.Ready?
    case Locking(_) => a.Lock?
    case Admitting(_) => a.Admit?
    case Linked(_) => a.Create? || a.CreateFails?
    case Unlinked(_, _) => a.Unlock?
    case Refusing(_, _) => a.CloseRefused?
    case Admitted => a.Unlock?
    case Draining => a.Drain?
    case Checking => a.Check?
    case Waiting(woken) => woken && a.Wake?
    case Returned => false
  }

  /** Taking the table lock, and looking at the table on a quiet poll. */
  predicate WantsLock(a: Action) { a.Quiet? || a.Lock? || a.Drain? || a.Wake? }

  /** An event out of its place changes nothing, and what needs the table lock waits while it is taken. */
  lemma OutOfPlaceChangesNothing(max: nat, actions: seq<Action>, a: Action)
    requires JobOf(a).None?
    requires !Belongs(Run(max, actions).acceptor, a) || (WantsLock(a) && Run(max, actions).lock.Some?)
    ensures Run(max, actions + [a]) == Run(max, actions)
  {
    hide Run, Remove, QuietPoll, Unlink, Close;
    OneStep(max, actions, a);
  }

  /** A connection held is dropped, or turned away because the server is stopping, or goes on to the table lock; one
      turned away has been closed once and for all. */
  lemma HeldBecomes(max: nat, actions: seq<Action>, a: Action)
    requires Run(max, actions).acceptor.Holding? && Belongs(Run(max, actions).acceptor, a)
    ensures var s, t := Run(max, actions), Run(max, actions + [a]);
      var fd := s.acceptor.fd;
      && t.acceptor == (if a.Drop? then Polling else if a.StopHolding? then Draining else Locking(fd))
      && fd in t.closes && t.closes[fd] == (if a.Ready? then 0 else 1)
  {
    EveryRunKeepsInv(max, actions);
    hide Run;
    OneStep(max, actions, a);
    assert Held(Run(max, actions), Run(max, actions).acceptor.fd);
  }

  /** A connection refused is closed once and for all, and the acceptor polls again unless thread creation is gone for
      good. */
  lemma RefusedIsClosed(max: nat, actions: seq<Action>)
    requires Run(max, actions).acceptor.Refusing?
    ensures var s, t := Run(max, actions), Run(max, actions + [CloseRefused]);
      var fd := s.acceptor.fd;
      && t.acceptor == (if s.acceptor.gone then Draining else Polling)
      && fd in t.closes && t.closes[fd] == 1 && fd !in t.workers && fd !in t.list
  {
    EveryRunKeepsInv(max, actions);
    hide Run;
    OneStep(max, actions, CloseRefused);
    var s := Run(max, actions);
    assert Held(s, s.acceptor.fd);
    assert s.acceptor.fd in s.list <==> Listed(s, s.acceptor.fd);
  }

  function QuietIn(actions: seq<Action>): nat {
    if actions == [] then 0 else QuietIn(actions[..|actions| - 1]) + if actions[|actions| - 1].Quiet? then 1 else 0
  }

  /** A quiet poll that finds somebody connected starts the count over: nothing is compacted until twenty more quiet
      polls, whatever happens between them. */
  lemma {:induction false} BusyPollStartsOver(max: nat, actions: seq<Action>, more: seq<Action>)
    requires Run(max, actions).acceptor.Polling? && Run(max, actions).lock.None? && Run(max, actions).count > 0
    requires QuietIn(more) < 20
    ensures var s, t := Run(max, actions), Run(max, actions + [Quiet] + more);
      t.compactions == s.compactions && t.quiet <= QuietIn(more)
    decreases |more|
  {
    hide Run;
    if more == [] {
      OneStep(max, actions, Quiet);
      assert actions + [Quiet] + more == actions + [Quiet];
    } else {
      var n := |more| - 1;
      BusyPollStartsOver(max, actions, more[..n]);
      OneStep(max, actions + [Quiet] + more[..n], more[n]);
      assert actions + [Quiet] + more[..n] + [more[n]] == actions + [Quiet] + more;
      QuietGrows(Run(max, actions + [Quiet] + more[..n]), max, more[n]);
    }
  }

  lemma QuietGrows(s: State, max: nat, a: Action)
    ensures var t := Step(s, max, a);
      && t.quiet <= s.quiet + (if a.Quiet? then 1 else 0)
      && (t.compactions == s.compactions || (a.Quiet? && s.quiet + 1 >= 20))
  {
    hide AcceptorStep, WorkerStep;
    match JobOf(a)
    case None => AcceptorCounts(s, max, a);
    case Some(job) =>
      if job in s.workers {
        WorkerCounts(s, job, a);
      }
  }

  lemma AcceptorCounts(s: State, max: nat, a: Action)
    ensures var t := AcceptorStep(s, max, a);
      && t.quiet <= s.quiet + (if a.Quiet? then 1 else 0)
      && (t.compactions == s.compactions || (a.Quiet? && s.quiet + 1 >= 20))
  {
    hide AcceptorStep;
    if s.acceptor.Polling? {
      PollingCounts(s, a);
      OnlyPolls(s, max, a);
    } else {
      OthersCompactNothing(s, max, a);
      OthersCountNothing(s, max, a);
    }
  }

  lemma OnlyPolls(s: State, max: nat, a: Action)
    requires s.acceptor.Polling?
    ensures AcceptorStep(s, max, a) == FromPolling(s, a)
  {
    hide FromPolling;
  }

  lemma OthersCompactNothing(s: State, max: nat, a: Action)
    requires !s.acceptor.Polling?
    ensures AcceptorStep(s, max, a).compactions == s.compactions
  {
    hide FromPolling, Unlink;
    UnlinkCounts(s, if s.acceptor.Linked? then s.acceptor.fd else 0);
  }

  lemma OthersCountNothing(s: State, max: nat, a: Action)
    requires !s.acceptor.Polling?
    ensures AcceptorStep(s, max, a).quiet <= s.quiet
  {
    hide FromPolling, Unlink;
    UnlinkCounts(s, if s.acceptor.Linked? then s.acceptor.fd else 0);
  }

  lemma PollingCounts(s: State, a: Action)
    ensures var t := FromPolling(s, a);
      && t.quiet <= s.quiet + (if a.Quiet? then 1 else 0)
      && (t.compactions == s.compactions || (a.Quiet? && s.quiet + 1 >= 20))
  {
  }

  lemma UnlinkCounts(s: State, job: nat)
    ensures Unlink(s, job).quiet == s.quiet && Unlink(s, job).compactions == s.compactions
  {
    hide Remove;
  }

  lemma WorkerCounts(s: State, job: nat, a: Action)
    requires job in s.workers
    ensures WorkerStep(s, job, a).quiet == s.quiet && WorkerStep(s, job, a).compactions == s.compactions
  {
    hide Unlink;
    UnlinkCounts(s, job);
  }
}
