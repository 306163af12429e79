/** The commit sequencer: one thread that groups queued tickets into cohorts and answers each. */
module Sequencer {
  import opened Bytes

  const MAX_FRAMES := 32
  const MAX_BYTES := 1024 * 1024

  datatype Ticket = Ticket(id: nat, bytes: nat)

  datatype Entry = Queued(ticket: Ticket) | StopMark

  /** What a poll of the queue meets: an entry, or the wait running out with none there. */
  datatype Event = Item(entry: Entry) | Timeout

  /** How a ticket's completion is delivered. */
  datatype Answer = Answered | Failed | NotRunning

  datatype Delivery = Delivery(ticket: Ticket, answer: Answer)

  // ----- the entries a script holds -----

  function TicketsIn(events: seq<Event>): seq<Ticket> {
    if events == [] then [] else
    (if events[0].Item? && events[0].entry.Queued? then [events[0].entry.ticket] else []) + TicketsIn(events[1..])
  }

  lemma {:induction false} TicketsJoin(a: seq<Event>, b: seq<Event>)
    ensures TicketsIn(a + b) == TicketsIn(a) + TicketsIn(b)
  {
    if a == [] {
      assert a + b == b;
    } else {
      assert (a + b)[1..] == a[1..] + b;
      TicketsJoin(a[1..], b);
      var first := if a[0].Item? && a[0].entry.Queued? then [a[0].entry.ticket] else [];
      assert first + (TicketsIn(a[1..]) + TicketsIn(b)) == (first + TicketsIn(a[1..])) + TicketsIn(b);
    }
  }

  /** The tickets taken from the queue when `before` has become `after`. */
  ghost predicate Took(before: seq<Event>, after: seq<Event>, tickets: seq<Ticket>) {
    |after| <= |before| && before[|before| - |after|..] == after && TicketsIn(before) == tickets + TicketsIn(after)
  }

  /** What is left once polling has met an empty queue. */
  function AfterDrain(events: seq<Event>): seq<Event> {
    if events == [] then [] else if events[0].Timeout? then events[1..] else AfterDrain(events[1..])
  }

  /** The tickets that polling takes before it meets an empty queue. */
  function BeforeEmpty(events: seq<Event>): seq<Ticket> {
    if events == [] || events[0].Timeout? then [] else
    (if events[0].entry.Queued? then [events[0].entry.ticket] else []) + BeforeEmpty(events[1..])
  }

  lemma {:induction false} DrainSplits(events: seq<Event>)
    ensures TicketsIn(events) == BeforeEmpty(events) + TicketsIn(AfterDrain(events))
  {
    if events != [] && events[0].Item? {
      DrainSplits(events[1..]);
      var first := if events[0].entry.Queued? then [events[0].entry.ticket] else [];
      assert first + (BeforeEmpty(events[1..]) + TicketsIn(AfterDrain(events)))
        == (first + BeforeEmpty(events[1..])) + TicketsIn(AfterDrain(events));
    }
  }

  /** The events met while the script went from `before` to `after`. */
  function Met(before: seq<Event>, after: seq<Event>): seq<Event> {
    if |after| <= |before| then before[..|before| - |after|] else []
  }

  predicate Suffix(after: seq<Event>, before: seq<Event>) {
    |after| <= |before| && before[|before| - |after|..] == after
  }

  /** The last of them is `event`. */
  predicate JustMet(before: seq<Event>, after: seq<Event>, event: Event) {
    |after| < |before| && before[|before| - |after| - 1] == event
  }

  /** What one step meets last is what the run it belongs to met last. */
  lemma MetFurther(start: seq<Event>, before: seq<Event>, after: seq<Event>)
    requires Suffix(before, start) && Suffix(after, before)
    ensures Suffix(after, start)
    ensures forall e :: JustMet(before, after, e) ==> JustMet(start, after, e)
  {
    assert before[|before| - |after|..] == start[|start| - |after|..];
  }

  function OfEntry(e: Option<Entry>): seq<Ticket> {
    if e.Some? && e.value.Queued? then [e.value.ticket] else []
  }

  function TotalBytes(tickets: seq<Ticket>): nat {
    if tickets == [] then 0 else TotalBytes(tickets[..|tickets| - 1]) + tickets[|tickets| - 1].bytes
  }

  /** At most 32 tickets, and at most a mebibyte of them unless there is only one. */
  predicate WithinBounds(tickets: seq<Ticket>) {
    1 <= |tickets| <= 32 && (TotalBytes(tickets) <= 1_048_576 || |tickets| == 1)
  }

  function Concat(cohorts: seq<seq<Ticket>>): seq<Ticket> {
    if cohorts == [] then [] else Concat(cohorts[..|cohorts| - 1]) + cohorts[|cohorts| - 1]
  }

  function TicketsOf(deliveries: seq<Delivery>): (tickets: seq<Ticket>)
    ensures |tickets| == |deliveries|
  {
    seq(|deliveries|, i requires 0 <= i < |deliveries| => deliveries[i].ticket)
  }

  class Queue {
    /** What this thread's polls will meet, in order. */
    var script: seq<Event>

    constructor (script: seq<Event>)
      ensures this.script == script
    {
      this.script := script;
    }

    /** Waits up to the cohort's deadline; None when it passes first. */
    method Poll() returns (e: Option<Entry>)
      modifies this
      ensures Took(old(script), script, OfEntry(e))
      ensures e.Some? ==> JustMet(old(script), script, Item(e.value))
      ensures e.None? ==> script == [] || JustMet(old(script), script, Timeout)
      ensures AfterDrain(old(script)) == if e.Some? then AfterDrain(script) else script
    {
      if script == [] {
        return None;
      }
      var event := script[0];
      script := script[1..];
      return if event.Item? then Some(event.entry) else None;
    }

    /** Waits for the next entry; None when none ever comes. */
    method Take() returns (e: Option<Entry>)
      modifies this
      ensures Took(old(script), script, OfEntry(e))
      ensures e.Some? ==> JustMet(old(script), script, Item(e.value))
      ensures e.None? ==> script == []
    {
      e := None;
      while script != [] && e.None?
        invariant Took(old(script), script, OfEntry(e))
        invariant e.Some? ==> JustMet(old(script), script, Item(e.value))
        decreases |script|
      {
        e := if script[0].Item? then Some(script[0].entry) else None;
        script := script[1..];
      }
    }
  }

  lemma TookAgain(a: seq<Event>, b: seq<Event>, c: seq<Event>, x: seq<Ticket>, y: seq<Ticket>)
    requires Took(a, b, x) && Took(b, c, y)
    ensures Took(a, c, x + y)
  {
    assert x + (y + TicketsIn(c)) == (x + y) + TicketsIn(c);
    assert a[|a| - |c|..] == b[|b| - |c|..];
  }

  /** Groups what follows the first ticket: it stops only when the cohort is full, when a poll comes back
      empty, or at a stop or a ticket that would overflow it, which is handed back. */
  method TakeCohort(queue: Queue, first: Ticket) returns (tickets: seq<Ticket>, pending: Option<Entry>)
    modifies queue
    ensures WithinBounds(tickets) && tickets[0] == first
    ensures Took(old(queue.script), queue.script, tickets[1..] + OfEntry(pending))
    ensures pending.Some? && pending.value.Queued? ==> TotalBytes(tickets) + pending.value.ticket.bytes > 1_048_576
    ensures pending.Some? ==> JustMet(old(queue.script), queue.script, Item(pending.value)) && |tickets| < 32
    ensures pending.None? && |tickets| < 32 ==>
      queue.script == [] || JustMet(old(queue.script), queue.script, Timeout)
  {
    tickets, pending := [first], None;
    var bytes := first.bytes;
    assert tickets[..0] == [] && tickets[1..] == [];
    while |tickets| < MAX_FRAMES
      invariant WithinBounds(tickets) && tickets[0] == first && bytes == TotalBytes(tickets)
      invariant Took(old(queue.script), queue.script, tickets[1..])
      decreases MAX_FRAMES - |tickets|
    {
      ghost var before := queue.script;
      var e := queue.Poll();
      TookAgain(old(queue.script), before, queue.script, tickets[1..], OfEntry(e));
      if e.None? {
        assert tickets[1..] + [] == tickets[1..];
        return;
      }
      if e.value.StopMark? || bytes + e.value.ticket.bytes > MAX_BYTES {
        pending := e;
        return;
      }
      ghost var grown := tickets + [e.value.ticket];
      assert grown[..|tickets|] == tickets && grown[1..] == tickets[1..] + [e.value.ticket];
      tickets, bytes := tickets + [e.value.ticket], bytes + e.value.ticket.bytes;
    }
    assert tickets[1..] + [] == tickets[1..];
  }

  class Sequencer {
    const queue: Queue
    var cohorts: seq<seq<Ticket>>
    var deliveries: seq<Delivery>

    constructor (queue: Queue)
      ensures this.queue == queue && cohorts == [] && deliveries == []
    {
      this.queue, cohorts, deliveries := queue, [], [];
    }

    /** Commits a cohort and answers every ticket in it, in order. */
    method DeliverCohort(tickets: seq<Ticket>, fails: bool)
      modifies this`cohorts, this`deliveries
      ensures cohorts == old(cohorts) + [tickets]
      ensures old(deliveries) <= deliveries && |deliveries| == |old(deliveries)| + |tickets|
      ensures TicketsOf(deliveries) == TicketsOf(old(deliveries)) + tickets
      ensures forall i :: |old(deliveries)| <= i < |deliveries| ==> deliveries[i].answer == if fails then Failed else Answered
    {
      cohorts := cohorts + [tickets];
      for i := 0 to |tickets|
        invariant cohorts == old(cohorts) + [tickets]
        invariant old(deliveries) <= deliveries && |deliveries| == |old(deliveries)| + i
        invariant TicketsOf(deliveries) == TicketsOf(old(deliveries)) + tickets[..i]
        invariant forall j :: |old(deliveries)| <= j < |deliveries| ==> deliveries[j].answer == if fails then Failed else Answered
      {
        ghost var before := deliveries;
        deliveries := deliveries + [Delivery(tickets[i], if fails then Failed else Answered)];
        assert TicketsOf(deliveries) == TicketsOf(before) + [tickets[i]];
      }
      assert tickets[..|tickets|] == tickets;
    }

    method Refuse(ticket: Ticket)
      modifies this`deliveries
      ensures deliveries == old(deliveries) + [Delivery(ticket, NotRunning)]
      ensures TicketsOf(deliveries) == TicketsOf(old(deliveries)) + [ticket]
    {
      deliveries := deliveries + [Delivery(ticket, NotRunning)];
    }

    /** Every cohort within bounds and answered in queue order; every later answer a refusal; and everything
        taken from the queue, but for what is held, answered once. */
    ghost predicate Progress(all: seq<Ticket>, held: seq<Ticket>)
      reads this, queue
    {
      && (forall i :: 0 <= i < |cohorts| ==> WithinBounds(cohorts[i]))
      && Concat(cohorts) <= TicketsOf(deliveries)
      && (forall i :: |Concat(cohorts)| <= i < |deliveries| ==> deliveries[i].answer.NotRunning?)
      && all == TicketsOf(deliveries) + (held + TicketsIn(queue.script))
    }

    /** Nothing has been refused yet. */
    ghost predicate Open()
      reads this
    {
      TicketsOf(deliveries) == Concat(cohorts)
    }

    /** Answers a held ticket, if there is one, as refused. */
    method RefuseHeld(held: Option<Entry>, ghost all: seq<Ticket>)
      requires Progress(all, OfEntry(held))
      modifies this`deliveries
      ensures Progress(all, [])
    {
      if held.Some? && held.value.Queued? {
        Refuse(held.value.ticket);
        Regroup(TicketsOf(old(deliveries)), [], [held.value.ticket], [], TicketsIn(queue.script));
      }
    }

    /** Answers everything still queued once the loop has ended, until the queue is found empty. */
    method Drain(ghost all: seq<Ticket>)
      requires Progress(all, [])
      modifies this`deliveries, queue
      ensures Progress(all, []) && queue.script == AfterDrain(old(queue.script))
    {
      hide Progress;
      var e := PollHeld(all);
      while e.Some?
        invariant Progress(all, OfEntry(e))
        invariant AfterDrain(old(queue.script)) == if e.Some? then AfterDrain(queue.script) else queue.script
        decreases |queue.script| + (if e.Some? then 1 else 0)
      {
        RefuseHeld(e, all);
        e := PollHeld(all);
      }
    }

    method PollHeld(ghost all: seq<Ticket>) returns (e: Option<Entry>)
      requires Progress(all, [])
      modifies queue
      ensures Progress(all, OfEntry(e)) && |queue.script| <= |old(queue.script)| - (if e.Some? then 1 else 0)
      ensures AfterDrain(old(queue.script)) == if e.Some? then AfterDrain(queue.script) else queue.script
    {
      ghost var script := queue.script;
      e := queue.Poll();
      assert [] + TicketsIn(script) == OfEntry(e) + TicketsIn(queue.script);
    }

    /** The next entry to work on: the one held over, or the next to arrive. */
    method NextEntry(pending: Option<Entry>, ghost all: seq<Ticket>) returns (e: Option<Entry>)
      requires Progress(all, OfEntry(pending)) && Open()
      modifies queue
      ensures Progress(all, OfEntry(e)) && Open()
      ensures pending.Some? ==> e == pending && queue.script == old(queue.script)
      ensures |queue.script| <= |old(queue.script)| && Suffix(queue.script, old(queue.script))
      ensures pending.None? && e.Some? ==> JustMet(old(queue.script), queue.script, Item(e.value))
      ensures e.None? ==> queue.script == []
    {
      if pending.Some? {
        return pending;
      }
      ghost var script := queue.script;
      e := queue.Take();
      assert [] + TicketsIn(script) == OfEntry(e) + TicketsIn(queue.script);
    }

    /** Runs until it is stopped: by a stop mark, or by finding the queue no longer registered after
        `checks` turns. Every cohort is within bounds and every ticket taken is answered exactly once and in
        queue order. What was still queued when the loop ended, `atStop`, is answered up to the first poll
        that finds the queue empty, also when the stop arrived while a ticket was held over. */
    method Run(checks: nat, failures: set<nat>) returns (stopped: bool, ghost atStop: seq<Event>)
      requires cohorts == [] && deliveries == []
      modifies this, queue
      ensures forall i :: 0 <= i < |cohorts| ==> WithinBounds(cohorts[i])
      ensures Concat(cohorts) <= TicketsOf(deliveries)
      ensures forall i :: |Concat(cohorts)| <= i < |deliveries| ==> deliveries[i].answer.NotRunning?
      ensures TicketsIn(old(queue.script)) == TicketsOf(deliveries) + TicketsIn(queue.script)
      ensures !stopped ==> queue.script == []
      ensures stopped ==> Suffix(atStop, old(queue.script)) && queue.script == AfterDrain(atStop)
      ensures stopped ==> JustMet(old(queue.script), atStop, Item(StopMark)) || |cohorts| == checks
      ensures stopped ==> TicketsOf(deliveries) == TicketsIn(Met(old(queue.script), atStop)) + BeforeEmpty(atStop)
    {
      ghost var all, start := TicketsIn(queue.script), queue.script;
      assert [] + TicketsIn(queue.script) == TicketsIn(queue.script);
      assert Suffix(start, start);
      hide Progress, Open, Suffix, JustMet, Met, AfterDrain, BeforeEmpty;
      var pending: Option<Entry> := None;
      var turns := 0;
      while true
        invariant Progress(all, OfEntry(pending)) && Open()
        invariant Suffix(queue.script, start) && |cohorts| == turns <= checks
        invariant pending.Some? ==> JustMet(start, queue.script, Item(pending.value))
        decreases |queue.script| + (if pending.Some? then 1 else 0)
      {
        if turns == checks {
          RefuseHeld(pending, all);
          break;
        }
        ghost var before := queue.script;
        var first := NextEntry(pending, all);
        MetFurther(start, before, queue.script);
        if first.None? {
          Settled(all);
          return false, [];
        }
        if first.value.StopMark? {
          break;
        }
        turns := turns + 1;
        ghost var taken := queue.script;
        pending := Turn(first.value.ticket, turns in failures, all);
        MetFurther(start, taken, queue.script);
      }
      atStop := queue.script;
      Drain(all);
      Settled(all);
      EveryoneAnswered(start, atStop, TicketsOf(deliveries));
      return true, atStop;
    }

    lemma EveryoneAnswered(start: seq<Event>, atStop: seq<Event>, answered: seq<Ticket>)
      requires Suffix(atStop, start) && TicketsIn(start) == answered + TicketsIn(AfterDrain(atStop))
      ensures answered == TicketsIn(Met(start, atStop)) + BeforeEmpty(atStop)
    {
      var met, rest := Met(start, atStop), TicketsIn(AfterDrain(atStop));
      assert start == met + atStop;
      TicketsJoin(met, atStop);
      DrainSplits(atStop);
      var all := TicketsIn(start);
      assert all == (TicketsIn(met) + BeforeEmpty(atStop)) + rest;
      assert answered == all[..|all| - |rest|];
    }

    lemma Settled(all: seq<Ticket>)
      requires Progress(all, [])
      ensures forall i :: 0 <= i < |cohorts| ==> WithinBounds(cohorts[i])
      ensures Concat(cohorts) <= TicketsOf(deliveries)
      ensures forall i :: |Concat(cohorts)| <= i < |deliveries| ==> deliveries[i].answer.NotRunning?
      ensures all == TicketsOf(deliveries) + TicketsIn(queue.script)
    {
      assert [] + TicketsIn(queue.script) == TicketsIn(queue.script);
    }

    /** One turn of the loop: a cohort taken and answered. */
    method Turn(first: Ticket, fails: bool, ghost all: seq<Ticket>) returns (pending: Option<Entry>)
      requires Progress(all, [first]) && Open()
      modifies this`cohorts, this`deliveries, queue
      ensures Progress(all, OfEntry(pending)) && Open()
      ensures |queue.script| + (if pending.Some? then 1 else 0) <= |old(queue.script)|
      ensures Suffix(queue.script, old(queue.script)) && |cohorts| == |old(cohorts)| + 1
      ensures pending.Some? ==> JustMet(old(queue.script), queue.script, Item(pending.value))
    {
      ghost var sent, script := TicketsOf(deliveries), queue.script;
      var tickets;
      tickets, pending := TakeCohort(queue, first);
      ghost var before := cohorts;
      DeliverCohort(tickets, fails);
      assert cohorts[..|before|] == before;
      assert tickets == [first] + tickets[1..];
      Regroup(sent, [first], tickets[1..], OfEntry(pending), TicketsIn(queue.script));
    }
  }

  lemma Regroup(sent: seq<Ticket>, first: seq<Ticket>, more: seq<Ticket>, held: seq<Ticket>, rest: seq<Ticket>)
    ensures sent + (first + ((more + held) + rest)) == (sent + (first + more)) + (held + rest)
  {
  }
}
