/** Predicting what a commit will do before it is made. */
module Preflight {
  import opened Bytes
  import opened Collections
  import opened Terms
  import opened Frames
  import opened FrameLog
  import opened TermStore
  import opened Coordinates
  import opened Requests
  import opened Durability
  import opened Fence
  import opened Leases
  import opened LeaseSafety

  datatype Policy = SubjectAny | SubjectExisting

  datatype ActionRequest = ActionRequest(action: Action, proposition: Term, policy: Policy)

  datatype Decided = Decided(index: nat, changed: bool)

  /** The operations to commit, whether each is expected to change anything, and the list simulated. */
  datatype Plan = Plan(operations: seq<Operation>, decisions: seq<Decided>, simulated: seq<Term>)

  datatype Planned = Prepared(plan: Plan) | SubjectNotFound

  /** Removes the last equal value, and says whether there was one. */
  function RemoveLastEqual(values: seq<Term>, x: Term): (seq<Term>, bool) {
    if values == [] then ([], false) else
    var n := |values| - 1;
    if values[n] == x then (values[..n], true) else
    var (rest, found) := RemoveLastEqual(values[..n], x);
    (rest + [values[n]], found)
  }

  predicate SubjectKnown(values: seq<Term>, x: Term) {
    x.Triple? && exists i :: 0 <= i < |values| && values[i].Triple? && values[i].t1 == x.t1
  }

  function Simulate(values: seq<Term>, op: Operation): (seq<Term>, bool) {
    if op.action.Assert? then (values + [op.proposition], true) else RemoveLastEqual(values, op.proposition)
  }

  /** Walks the actions over a copy of the live propositions. */
  function PrepareActions(values: seq<Term>, actions: seq<ActionRequest>): (r: Planned)
    ensures r.Prepared? ==> |r.plan.operations| == |actions| == |r.plan.decisions|
    ensures r.Prepared? ==> forall i :: 0 <= i < |actions| ==>
      r.plan.operations[i] == Operation(actions[i].action, actions[i].proposition)
    decreases |actions|
  {
    if actions == [] then Prepared(Plan([], [], values)) else
    var n := |actions| - 1;
    match PrepareActions(values, actions[..n])
    case SubjectNotFound => SubjectNotFound
    case Prepared(before) =>
      var a := actions[n];
      if a.policy.SubjectExisting? && !SubjectKnown(before.simulated, a.proposition) then SubjectNotFound else
      var op := Operation(a.action, a.proposition);
      var (after, changed) := Simulate(before.simulated, op);
      Prepared(Plan(before.operations + [op], before.decisions + [Decided(n, changed)], after))
  }

  function LiveList(s: Store): seq<Term> { Propositions(s, LivePositions(s)) }

  function EffectiveList(s: Store): seq<Term> { Propositions(s, EffectivePositions(s)) }

  predicate AllPlainAsserts(actions: seq<ActionRequest>) {
    forall i :: 0 <= i < |actions| ==> actions[i].action.Assert? && actions[i].policy.SubjectAny?
  }

  /** The shortcut for plain assertions, which reads no live propositions, and the general walk. */
  function PrepareOnStore(s: Store, actions: seq<ActionRequest>): (seq<Operation>, Option<seq<Decided>>) {
    if AllPlainAsserts(actions) then
      (seq(|actions|, i requires 0 <= i < |actions| => Operation(Assert, actions[i].proposition)),
       Some(seq(|actions|, i requires 0 <= i < |actions| => Decided(i, true))))
    else
      match PrepareActions(EffectiveList(s), actions)
      case SubjectNotFound => ([], None)
      case Prepared(plan) => (plan.operations, Some(plan.decisions))
  }

  function PredictedOccurrences(s: Store, count: nat): seq<Term> {
    seq(count, i requires 0 <= i < count => OccurrenceCoordinate(TransactionCoordinate(s.space, s.next), i))
  }

  // ----- the shortcut -----

  lemma {:induction false} PlainAssertsAllChange(values: seq<Term>, actions: seq<ActionRequest>)
    requires AllPlainAsserts(actions)
    ensures var r := PrepareActions(values, actions);
      r.Prepared? && |r.plan.decisions| == |actions| && forall i :: 0 <= i < |actions| ==> r.plan.decisions[i] == Decided(i, true)
    decreases |actions|
  {
    if actions != [] {
      PlainAssertsAllChange(values, actions[..|actions| - 1]);
    }
  }

  /** The shortcut decides exactly what the general walk would. */
  lemma ShortcutAgrees(s: Store, actions: seq<ActionRequest>)
    requires AllPlainAsserts(actions)
    ensures var r := PrepareActions(EffectiveList(s), actions);
      r.Prepared? && PrepareOnStore(s, actions) == (r.plan.operations, Some(r.plan.decisions))
  {
    hide EffectiveList;
    PlainAssertsAllChange(EffectiveList(s), actions);
    var r := PrepareActions(EffectiveList(s), actions);
    var (operations, decisions) := PrepareOnStore(s, actions);
    assert operations == r.plan.operations;
    assert decisions.value == r.plan.decisions;
  }

  /** With the shortcut or without, what is prepared for a store is what the walk over its effective
      propositions prepares, and nothing exactly when the walk misses a subject. */
  lemma PreparedByTheWalk(s: Store, actions: seq<ActionRequest>)
    ensures PrepareOnStore(s, actions) == match PrepareActions(EffectiveList(s), actions)
      case SubjectNotFound => ([], None)
      case Prepared(plan) => (plan.operations, Some(plan.decisions))
  {
    hide EffectiveList;
    if AllPlainAsserts(actions) {
      ShortcutAgrees(s, actions);
    }
  }

  // ----- the live list follows the simulation -----

  /** Ascending lists with the same members are equal. */
  lemma {:induction false} AscendingUnique(a: seq<nat>, b: seq<nat>)
    requires Ascending(a) && Ascending(b) && forall p :: p in a <==> p in b
    ensures a == b
    decreases |a|
  {
    assert (b != [] ==> b[|b| - 1] in b) && (a != [] ==> a[|a| - 1] in a);
    if a != [] {
      var m, n := |a| - 1, |b| - 1;
      assert a[m] == b[n];
      forall p ensures p in a[..m] <==> p in b[..n] {
        assert p in a <==> p in a[..m] || p == a[m];
        assert p in b <==> p in b[..n] || p == b[n];
        assert a[m] !in a[..m] && b[n] !in b[..n];
      }
      AscendingUnique(a[..m], b[..n]);
    }
  }

  /** Asserting adds the new position at the end of the live list. */
  lemma AssertAppends(s: Store, row: Row)
    requires Consistent(s) && row.action.Assert?
    ensures LiveList(ApplyRow(s, row)) == LiveList(s) + [row.proposition]
  {
    hide StackOf, Live, LivePositions, Consistent;
    var t, n := ApplyRow(s, row), |s.rows|;
    var before, after := LivePositions(s), LivePositions(t);
    var grown := before + [n];
    forall p: nat ensures p in after <==> p in grown {
      LiveAfterAssert(s, row, p);
    }
    GrownAscends(s, before);
    AscendingUnique(after, grown);
    SamePropositions(s, t, before);
    assert Propositions(t, grown) == Propositions(t, before) + [row.proposition];
  }

  lemma GrownAscends(s: Store, positions: seq<nat>)
    requires Within(s, positions) && Ascending(positions)
    ensures Ascending(positions + [|s.rows|])
  {
  }

  lemma LiveAfterAssert(s: Store, row: Row, p: nat)
    requires Consistent(s) && row.action.Assert?
    ensures Live(ApplyRow(s, row), p) <==> Live(s, p) || p == |s.rows|
  {
    var t, n := ApplyRow(s, row), |s.rows|;
    if p < n {
      assert t.rows[p] == s.rows[p];
    }
    StackOfMeetsSpec(s.rows, row.proposition);
    assert s.Stack(row.proposition) == StackOf(s.rows, row.proposition);
  }

  /** Retracting with nothing live changes nothing. */
  lemma RetractOfNothing(s: Store, row: Row)
    requires Consistent(s) && row.action.Retract? && s.Stack(row.proposition) == []
    ensures LivePositions(ApplyRow(s, row)) == LivePositions(s)
  {
    var t, n := ApplyRow(s, row), |s.rows|;
    forall p: nat ensures p in LivePositions(t) <==> p in LivePositions(s) {
      if p < n {
        assert t.rows[p] == s.rows[p];
      }
    }
    AscendingUnique(LivePositions(t), LivePositions(s));
  }

  lemma LiveAfterRetract(s: Store, row: Row, p: nat)
    requires Consistent(s) && row.action.Retract? && s.Stack(row.proposition) != []
    ensures var stack := s.Stack(row.proposition);
      Live(ApplyRow(s, row), p) <==> Live(s, p) && p != stack[|stack| - 1]
  {
    var t, n, x := ApplyRow(s, row), |s.rows|, row.proposition;
    var stack := s.Stack(x);
    if p < n {
      assert t.rows[p] == s.rows[p];
    }
    assert stack == StackOf(s.rows, x);
    hide StackOf, Consistent;
    TopRecordsIt(s.rows, x);
    PoppedKeepsRest(s.rows, x, p);
  }

  lemma TopRecordsIt(rows: seq<Row>, x: Term)
    requires StackOf(rows, x) != []
    ensures var stack := StackOf(rows, x); stack[|stack| - 1] < |rows| && rows[stack[|stack| - 1]].proposition == x
  {
    hide StackOf, Balance, Unmatched;
    StackOfMeetsSpec(rows, x);
    var stack := StackOf(rows, x);
    assert IsLayer(rows, x, stack[|stack| - 1], 0);
  }

  /** Positions without one of them. */
  function Without(positions: seq<nat>, p: nat): seq<nat> {
    if positions == [] then [] else
    var n := |positions| - 1;
    if positions[n] == p then positions[..n] else Without(positions[..n], p) + [positions[n]]
  }

  lemma {:induction false} WithoutMembers(positions: seq<nat>, p: nat)
    requires Ascending(positions)
    ensures Ascending(Without(positions, p)) && forall q :: q in Without(positions, p) <==> q in positions && q != p
  {
    if positions != [] {
      var n := |positions| - 1;
      WithoutMembers(positions[..n], p);
      assert forall q :: q in positions <==> q in positions[..n] || q == positions[n];
      var rest := Without(positions[..n], p);
      forall i | 0 <= i < |rest| ensures rest[i] < positions[n] {
        assert rest[i] in rest;
      }
    }
  }

  /** What removing the last equal proposition leaves: the positions without the last that records it. */
  ghost predicate Drops(s: Store, positions: seq<nat>, x: Term) {
    Within(s, positions) && match LastEqual(s, positions, x)
      case None => RemoveLastEqual(Propositions(s, positions), x) == (Propositions(s, positions), false)
      case Some(p) =>
        && Within(s, Without(positions, p))
        && RemoveLastEqual(Propositions(s, positions), x) == (Propositions(s, Without(positions, p)), true)
  }

  lemma {:induction false} DropsLastEqual(s: Store, positions: seq<nat>, x: Term)
    requires Within(s, positions) && Ascending(positions)
    ensures Drops(s, positions, x)
    decreases |positions|
  {
    hide Drops, Propositions, RemoveLastEqual, LastEqual;
    if positions == [] {
      DropsNothing(s, x);
    } else {
      var n := |positions| - 1;
      var before, last := positions[..n], positions[n];
      assert positions == before + [last];
      if s.rows[last].proposition == x {
        DropsLast(s, before, last, x);
      } else {
        DropsLastEqual(s, before, x);
        if last in before {
          NotTheLast(positions, last);
        }
        DropsEarlier(s, before, last, x);
      }
    }
  }

  lemma DropsNothing(s: Store, x: Term)
    ensures Drops(s, [], x)
  {
  }

  lemma DropsLast(s: Store, before: seq<nat>, last: nat, x: Term)
    requires Within(s, before) && last < |s.rows| && s.rows[last].proposition == x
    ensures Drops(s, before + [last], x)
  {
    PropositionsAppend(s, before, last);
    assert (before + [last])[..|before|] == before;
    var all := Propositions(s, before + [last]);
    assert all[..|before|] == Propositions(s, before);
  }

  lemma DropsEarlier(s: Store, before: seq<nat>, last: nat, x: Term)
    requires last < |s.rows| && s.rows[last].proposition != x && last !in before
    requires Within(s, before) && Drops(s, before, x)
    ensures Drops(s, before + [last], x)
  {
    LastEqualEarlier(s, before, last, x);
    RemoveFromEarlier(Propositions(s, before), s.rows[last].proposition, x);
    PropositionsAppend(s, before, last);
    hide RemoveLastEqual, LastEqual, Propositions, Without;
    match LastEqual(s, before, x)
    case None =>
    case Some(p) =>
      WithoutEarlier(before, last, p);
      PropositionsAppend(s, Without(before, p), last);
  }

  lemma LastEqualEarlier(s: Store, before: seq<nat>, last: nat, x: Term)
    requires Within(s, before) && last < |s.rows| && s.rows[last].proposition != x
    ensures Within(s, before + [last]) && LastEqual(s, before + [last], x) == LastEqual(s, before, x)
  {
    assert (before + [last])[..|before|] == before;
  }

  lemma RemoveFromEarlier(values: seq<Term>, last: Term, x: Term)
    requires last != x
    ensures var (rest, found) := RemoveLastEqual(values, x); RemoveLastEqual(values + [last], x) == (rest + [last], found)
  {
    assert (values + [last])[..|values|] == values;
  }

  lemma WithoutEarlier(positions: seq<nat>, last: nat, p: nat)
    requires last != p
    ensures Without(positions + [last], p) == Without(positions, p) + [last]
  {
    assert (positions + [last])[..|positions|] == positions;
  }

  lemma PropositionsAppend(s: Store, positions: seq<nat>, last: nat)
    requires Within(s, positions) && last < |s.rows|
    ensures Within(s, positions + [last])
    ensures Propositions(s, positions + [last]) == Propositions(s, positions) + [s.rows[last].proposition]
  {
  }

  lemma NotTheLast(positions: seq<nat>, p: nat)
    requires positions != [] && Ascending(positions) && p in positions[..|positions| - 1]
    ensures p != positions[|positions| - 1]
  {
  }

  lemma SamePropositions(s: Store, t: Store, positions: seq<nat>)
    requires Within(s, positions) && s.rows <= t.rows
    ensures Within(t, positions) && Propositions(t, positions) == Propositions(s, positions)
  {
  }

  /** One row moves the live list as one action moves the simulated list, and it withdraws something exactly
      when the simulation says it changes something. */
  lemma RowFollowsSimulation(s: Store, row: Row)
    requires Consistent(s)
    ensures var t := ApplyRow(s, row);
      var (list, changed) := Simulate(LiveList(s), Operation(row.action, row.proposition));
      && LiveList(t) == list && |t.targets| == |s.rows| + 1
      && changed == (row.action.Assert? || t.targets[|s.rows|].Some?)
  {
    hide StackOf, Live, LivePositions;
    var t, x := ApplyRow(s, row), row.proposition;
    if row.action.Assert? {
      AssertAppends(s, row);
    } else {
      RetractFollowsSimulation(s, row);
    }
  }

  lemma RetractFollowsSimulation(s: Store, row: Row)
    requires Consistent(s) && row.action.Retract?
    ensures var t := ApplyRow(s, row);
      && RemoveLastEqual(LiveList(s), row.proposition) == (LiveList(t), t.targets[|s.rows|].Some?)
  {
    hide StackOf, Live, LivePositions, RemoveLastEqual, Without, Propositions, LastEqual, Ascending;
    var t, x := ApplyRow(s, row), row.proposition;
    var live := LivePositions(s);
    LastEqualIsTop(s, x);
    assert s.Stack(x) == StackOf(s.rows, x);
    DropsLastEqual(s, live, x);
    if s.Stack(x) == [] {
      RetractOfNothing(s, row);
      SamePropositions(s, t, live);
    } else {
      var p := s.Stack(x)[|s.Stack(x)| - 1];
      WithoutMembers(live, p);
      forall q: nat ensures q in LivePositions(t) <==> q in Without(live, p) {
        LiveAfterRetract(s, row, q);
      }
      AscendingUnique(LivePositions(t), Without(live, p));
      SamePropositions(s, t, Without(live, p));
    }
  }

  // ----- whole transactions -----

  lemma SameLive(s: Store, t: Store)
    requires t.rows == s.rows && t.active == s.active
    ensures LiveList(t) == LiveList(s)
  {
    forall p: nat ensures p in LivePositions(t) <==> p in LivePositions(s) {
      assert Live(t, p) <==> Live(s, p);
    }
    AscendingUnique(LivePositions(t), LivePositions(s));
    SamePropositions(s, t, LivePositions(s));
  }

  function Begun(s: Store, f: Frame): Store {
    s.(transactions := s.transactions + [TransactionRow(f.sequence, |s.rows|, |f.operations|)])
  }

  /** The frame the prepared operations commit as. */
  function FrameOf(s: Store, plan: Plan): Frame { Frame(s.next, plan.operations) }

  /** Each decision says what its row did. */
  ghost predicate Decides(plan: Plan, before: Store, after: Store) {
    && |after.targets| == |before.targets| + |plan.operations| && |plan.decisions| == |plan.operations|
    && forall i :: 0 <= i < |plan.decisions| ==>
         plan.decisions[i] == Decided(i, plan.operations[i].action.Assert? || after.targets[|before.targets| + i].Some?)
  }

  /** Walking the raw live list follows the rows of the frame one by one. */
  lemma {:induction false} SimulationFollowsRows(b: Store, actions: seq<ActionRequest>, rows: seq<Row>)
    requires Consistent(b) && PrepareActions(LiveList(b), actions).Prepared? && |rows| == |actions|
    requires forall i :: 0 <= i < |rows| ==>
      rows[i].action == actions[i].action && rows[i].proposition == actions[i].proposition
    ensures var plan := PrepareActions(LiveList(b), actions).plan;
      && Consistent(ApplyRows(b, rows)) && plan.simulated == LiveList(ApplyRows(b, rows)) && Decides(plan, b, ApplyRows(b, rows))
    decreases |actions|
  {
    hide Consistent, ApplyRow, LiveList, Simulate;
    if actions != [] {
      var n := |actions| - 1;
      SimulationFollowsRows(b, actions[..n], rows[..n]);
      var mid := ApplyRows(b, rows[..n]);
      ApplyRowConsistent(mid, rows[n]);
      RowFollowsSimulation(mid, rows[n]);
      TargetsOf(mid, rows[n]);
    }
  }

  lemma TargetsOf(s: Store, row: Row)
    requires Consistent(s)
    ensures |s.targets| == |s.rows| && |ApplyRow(s, row).targets| == |s.targets| + 1
    ensures s.targets <= ApplyRow(s, row).targets
  {
  }

  /** Walking the raw live list predicts the commit exactly. */
  lemma RawWalkIsExact(s: Store, actions: seq<ActionRequest>)
    requires Consistent(s) && PrepareActions(LiveList(s), actions).Prepared?
    ensures var plan := PrepareActions(LiveList(s), actions).plan;
      var t := Commit(s, FrameOf(s, plan));
      && plan.simulated == LiveList(t) && Decides(plan, s, t)
  {
    hide Consistent, LiveList, ApplyRows, PrepareActions;
    var plan := PrepareActions(LiveList(s), actions).plan;
    var f := FrameOf(s, plan);
    var b := Begun(s, f);
    SameHistory(s, b);
    SameLive(s, b);
    SimulationFollowsRows(b, actions, RowsOf(f));
    SameLive(ApplyRows(b, RowsOf(f)), Commit(s, f));
  }

  // ----- exactly when the prediction is right -----

  /** No live occurrence is hidden from readers. */
  ghost predicate NoneSuppressed(s: Store) {
    forall p: nat :: Live(s, p) ==> Effective(s, p)
  }

  /** What is prepared for the store is refused, or commits the actions asked for and every decision comes
      true. */
  ghost predicate Predicts(s: Store, actions: seq<ActionRequest>) {
    var (operations, decisions) := PrepareOnStore(s, actions);
    decisions.Some? ==>
      && |operations| == |actions|
      && (forall i :: 0 <= i < |actions| ==> operations[i] == Operation(actions[i].action, actions[i].proposition))
      && Decides(Plan(operations, decisions.value, []), s, Commit(s, Frame(s.next, operations)))
  }

  lemma PredictsMeans(s: Store, actions: seq<ActionRequest>)
    ensures Predicts(s, actions) <==> match PrepareActions(EffectiveList(s), actions)
      case SubjectNotFound => true
      case Prepared(plan) => Decides(plan, s, Commit(s, FrameOf(s, plan)))
  {
    hide EffectiveList, PrepareOnStore, PrepareActions, Commit;
    PreparedByTheWalk(s, actions);
  }

  lemma NoneSuppressedMeansSame(s: Store)
    requires NoneSuppressed(s)
    ensures EffectiveList(s) == LiveList(s)
  {
    forall p: nat ensures p in EffectivePositions(s) <==> p in LivePositions(s) {
      assert Effective(s, p) ==> Live(s, p);
    }
    AscendingUnique(EffectivePositions(s), LivePositions(s));
  }

  function Count(values: seq<Term>, x: Term): nat {
    if values == [] then 0 else
    Count(values[..|values| - 1], x) + if values[|values| - 1] == x then 1 else 0
  }

  lemma {:induction false} RemovalCounts(values: seq<Term>, x: Term)
    ensures var (rest, found) := RemoveLastEqual(values, x);
      (found <==> Count(values, x) > 0) && Count(rest, x) == if found then Count(values, x) - 1 else 0
  {
    if values != [] {
      var n := |values| - 1;
      RemovalCounts(values[..n], x);
      var rest := RemoveLastEqual(values[..n], x).0;
      if values[n] != x {
        assert (rest + [values[n]])[..|rest|] == rest;
      }
    }
  }

  function Retracts(x: Term, m: nat): (actions: seq<ActionRequest>)
    ensures |actions| == m
  {
    seq(m, _ => ActionRequest(Retract, x, SubjectAny))
  }

  /** Retracting the same proposition over and over changes something just as often as it is there. */
  lemma {:induction false} RetractsDecide(values: seq<Term>, x: Term, m: nat)
    ensures var r := PrepareActions(values, Retracts(x, m));
      && r.Prepared? && Count(r.plan.simulated, x) == (if m < Count(values, x) then Count(values, x) - m else 0)
      && forall i :: 0 <= i < m ==> r.plan.decisions[i] == Decided(i, i < Count(values, x))
  {
    hide Count, RemoveLastEqual;
    if m > 0 {
      assert Retracts(x, m)[..m - 1] == Retracts(x, m - 1);
      RetractsDecide(values, x, m - 1);
      RemovalCounts(PrepareActions(values, Retracts(x, m - 1)).plan.simulated, x);
    }
  }

  function Recording(s: Store, positions: seq<nat>, x: Term): set<nat>
    requires Within(s, positions)
  {
    set q | q in positions && q < |s.rows| && s.rows[q].proposition == x
  }

  lemma {:induction false} CountRecords(s: Store, positions: seq<nat>, x: Term)
    requires Within(s, positions) && Ascending(positions)
    ensures Count(Propositions(s, positions), x) == |Recording(s, positions, x)|
  {
    if positions != [] {
      var n := |positions| - 1;
      var before, all := positions[..n], Propositions(s, positions);
      CountRecords(s, before, x);
      assert all[..n] == Propositions(s, before);
      assert forall q :: q in positions <==> q in before || q == positions[n];
      if positions[n] in before {
        NotTheLast(positions, positions[n]);
      }
      hide Ascending;
      var few, more := Recording(s, before, x), Recording(s, positions, x);
      forall q: nat ensures q in more <==> q in few || (q == positions[n] && all[n] == x) {}
      GrowsBy(few, more, positions[n], all[n] == x);
    }
  }

  /** A suppressed live occurrence makes some retraction's prediction wrong. */
  lemma SuppressedMisleads(s: Store, p: nat)
    requires Consistent(s) && Live(s, p) && !Effective(s, p)
    ensures var x := s.rows[p].proposition; !Predicts(s, Retracts(x, Count(EffectiveList(s), x) + 1))
  {
    hide Consistent, Live, PrepareActions, PrepareOnStore, Predicts, Commit, Effective;
    var live, seen := LivePositions(s), EffectivePositions(s);
    assert p in live && p !in seen;
    var x := s.rows[p].proposition;
    forall q | q in Recording(s, seen, x) ensures q in Recording(s, live, x) {
      EffectiveIsStillLive(s, q);
    }
    FewerThan(Recording(s, seen, x), Recording(s, live, x), p);
    CountRecords(s, seen, x);
    CountRecords(s, live, x);
    var k := Count(EffectiveList(s), x);
    var actions := Retracts(x, k + 1);
    RetractsDecide(EffectiveList(s), x, k + 1);
    RetractsDecide(LiveList(s), x, k + 1);
    RawWalkIsExact(s, actions);
    var plan, raw := PrepareActions(EffectiveList(s), actions).plan, PrepareActions(LiveList(s), actions).plan;
    assert plan.operations == raw.operations;
    assert plan.decisions[k] != raw.decisions[k];
    PredictsMeans(s, actions);
  }

  lemma EffectiveIsStillLive(s: Store, q: nat)
    ensures Effective(s, q) ==> Live(s, q)
  {
  }

  /** The preflight's decisions come true for every list of actions exactly when no live occurrence is
      suppressed. */
  lemma PreflightIsExactIff(s: Store)
    requires Consistent(s)
    ensures (forall actions :: Predicts(s, actions)) <==> NoneSuppressed(s)
  {
    hide *;
    if NoneSuppressed(s) {
      forall actions ensures Predicts(s, actions) {
        ExactWhenNone(s, actions);
      }
    } else {
      var p := SomeSuppressed(s);
      SuppressedMisleads(s, p);
    }
  }

  lemma ExactWhenNone(s: Store, actions: seq<ActionRequest>)
    requires Consistent(s) && NoneSuppressed(s)
    ensures Predicts(s, actions)
  {
    hide *;
    NoneSuppressedMeansSame(s);
    PredictsMeans(s, actions);
    if PrepareActions(EffectiveList(s), actions).Prepared? {
      RawWalkIsExact(s, actions);
    }
  }

  lemma SomeSuppressed(s: Store) returns (p: nat)
    requires !NoneSuppressed(s)
    ensures Live(s, p) && p < |s.rows| && !Effective(s, p)
  {
    p :| Live(s, p) && !Effective(s, p);
  }

  // ----- a history that misleads it -----

  const FIRST := Triple(Int(0), Int(0), Int(0))
  const SECOND := Triple(Int(1), Int(0), Int(0))

  /** The store after one frame that asserts one triple. */
  function Asserting(space: Octets): Store {
    Commit(NewStore(space), Frame(1, [Operation(Assert, FIRST)]))
  }

  /** Asserts another triple in its place. */
  function Replacing(space: Octets): Request {
    Request([Plain(Assert, SECOND).(supersedes := Some(OccurrenceCoordinate(TransactionCoordinate(space, 1), 0)))], None, None, None)
  }

  /** The frame that request prepares. */
  function ReplacingFrame(space: Octets): Frame {
    Frame(2, [Operation(Assert, SECOND), Operation(Assert, Triple(OccurrenceCoordinate(TransactionCoordinate(space, 2), 0),
      SUPERSEDES, OccurrenceCoordinate(TransactionCoordinate(space, 1), 0)))])
  }

  lemma ApplyOne(s: Store, row: Row)
    ensures ApplyRows(s, [row]) == ApplyRow(s, row)
  {
    hide ApplyRow;
    assert [row][..0] == [];
  }

  lemma ApplyTwo(s: Store, a: Row, b: Row)
    ensures ApplyRows(s, [a, b]) == ApplyRow(ApplyRow(s, a), b)
  {
    hide ApplyRow;
    assert [a, b][..1] == [a];
    ApplyOne(s, a);
  }

  lemma AssertingRows(space: Octets)
    ensures var s := Asserting(space);
      && s.rows == [Row(1, 0, Assert, FIRST)] && s.space == space && s.next == 2 && s.active == map[FIRST := [0]]
  {
    hide ApplyRows;
    var f, row := Frame(1, [Operation(Assert, FIRST)]), Row(1, 0, Assert, FIRST);
    assert RowsOf(f) == [row];
    ApplyOne(NewStore(space).(transactions := [] + [TransactionRow(1, 0, 1)]), row);
    assert [] + [row] == [row] && [] + [0] == [0];
  }

  lemma ReplacingPrepares(space: Octets)
    requires space != []
    ensures Prepare(Asserting(space), false, Replacing(space)) == Fine(ReplacingFrame(space))
  {
    AssertingRows(space);
    var s, request := Asserting(space), Replacing(space);
    var transaction := TransactionCoordinate(space, 2);
    assert CoordinateAt(s, 0) == OccurrenceCoordinate(TransactionCoordinate(space, 1), 0);
    assert Resolves(s, CoordinateAt(s, 0));
    assert request.operations[1..] == [];
    assert SourceOperations(request.operations) == Fine([Operation(Assert, SECOND)] + []);
    assert MetadataFault(s, request.operations[0]) == None;
    assert SourceMetadata(s, transaction, request.operations, 1) == Fine([]);
    var metadata := MetadataOf(OccurrenceCoordinate(transaction, 0), request.operations[0]);
    assert metadata == [ReplacingFrame(space).operations[1]];
    assert SourceMetadata(s, transaction, request.operations, 0) == Fine(metadata + []);
    assert [Operation(Assert, SECOND)] + [] + (metadata + [] + []) == ReplacingFrame(space).operations;
  }

  lemma ReplacedRows(space: Octets)
    ensures var t, f := Commit(Asserting(space), ReplacingFrame(space)), ReplacingFrame(space);
      && t.rows == [Row(1, 0, Assert, FIRST), Row(2, 0, Assert, SECOND), Row(2, 1, Assert, f.operations[1].proposition)]
      && t.space == space && Live(t, 0) && Live(t, 2)
  {
    AssertingRows(space);
    hide Asserting, ApplyRows;
    var s, f := Asserting(space), ReplacingFrame(space);
    var b := s.(transactions := s.transactions + [TransactionRow(2, |s.rows|, 2)]);
    var r0, r1 := Row(2, 0, Assert, SECOND), Row(2, 1, Assert, f.operations[1].proposition);
    assert RowsOf(f) == [r0, r1];
    ApplyTwo(b, r0, r1);
    assert f.operations[1].proposition != FIRST && f.operations[1].proposition != SECOND && SECOND != FIRST;
  }

  lemma ReplacedReplays(space: Octets)
    ensures ReplayAll(NewStore(space), [Frame(1, [Operation(Assert, FIRST)]), ReplacingFrame(space)])
      == Ok(Commit(Asserting(space), ReplacingFrame(space)))
  {
    AssertingRows(space);
    hide Commit;
    var a, f := Frame(1, [Operation(Assert, FIRST)]), ReplacingFrame(space);
    assert [a, f][..1] == [a] && [a][..0] == [];
    assert ReplayAll(NewStore(space), [a]) == ReplayFrame(NewStore(space), a);
    assert ReplayFrame(NewStore(space), a) == Ok(Asserting(space));
  }

  /** Two commits any client can make leave a triple that readers no longer see and a retraction still
      finds: preflight says retracting it changes nothing, and committing the retraction withdraws it. */
  lemma ReplacedIsMispredicted(space: Octets)
    requires space != []
    ensures var t := Commit(Asserting(space), ReplacingFrame(space));
      && Prepare(Asserting(space), false, Replacing(space)) == Fine(ReplacingFrame(space))
      && ReplayAll(NewStore(space), [Frame(1, [Operation(Assert, FIRST)]), ReplacingFrame(space)]) == Ok(t)
      && PrepareOnStore(t, Retracts(FIRST, 1)).1 == Some([Decided(0, false)])
      && !Predicts(t, Retracts(FIRST, 1))
  {
    hide Prepare, Commit, PrepareActions, EffectiveList, Live, Predicts, Count, ReplayAll, Consistent, Asserting;
    var fs := [Frame(1, [Operation(Assert, FIRST)]), ReplacingFrame(space)];
    var t := Commit(Asserting(space), ReplacingFrame(space));
    ReplacingPrepares(space);
    ReplacedRows(space);
    ReplacedReplays(space);
    NewIsConsistent(space);
    ReplayConsistent(NewStore(space), fs);
    assert Suppressor(t, 2, CoordinateAt(t, 0));
    NotCounted(t);
    SuppressedMisleads(t, 0);
    RetractsDecide(EffectiveList(t), FIRST, 1);
    assert Retracts(FIRST, 1)[0].action.Retract?;
    assert PrepareActions(EffectiveList(t), Retracts(FIRST, 1)).plan.decisions == [Decided(0, false)];
  }

  lemma NewIsConsistent(space: Octets)
    ensures Consistent(NewStore(space))
  {
  }

  /** No row but the first records the triple, and that one is not seen. */
  lemma NotCounted(t: Store)
    requires |t.rows| == 3 && !Effective(t, 0)
    requires t.rows[1].proposition != FIRST && t.rows[2].proposition != FIRST
    ensures Count(EffectiveList(t), FIRST) == 0
  {
    hide Effective, Live, Count;
    CountRecords(t, EffectivePositions(t), FIRST);
    assert Recording(t, EffectivePositions(t), FIRST) == {};
  }

  /** The rows the first `n` actions would commit as. */
  function RowsFor(s: Store, actions: seq<ActionRequest>, n: nat): (rows: seq<Row>)
    requires n <= |actions|
    ensures |rows| == n
    ensures forall i :: 0 <= i < n ==> rows[i] == Row(s.next, i, actions[i].action, actions[i].proposition)
  {
    seq(n, i requires 0 <= i < n => Row(s.next, i, actions[i].action, actions[i].proposition))
  }

  /** Some live proposition has the subject of `x`. */
  ghost predicate SubjectLive(s: Store, x: Term) {
    x.Triple? && exists p: nat :: Live(s, p) && s.rows[p].proposition.Triple? && s.rows[p].proposition.t1 == x.t1
  }

  /** Action `i` asks for a subject that is not live once the actions before it are committed. */
  ghost predicate Orphan(s: Store, actions: seq<ActionRequest>, i: nat) {
    && i < |actions| && actions[i].policy.SubjectExisting?
    && !SubjectLive(ApplyRows(s, RowsFor(s, actions, i)), actions[i].proposition)
  }

  lemma SubjectKnownIsLive(s: Store, x: Term)
    ensures SubjectKnown(LiveList(s), x) <==> SubjectLive(s, x)
  {
    hide Live;
    var live, values := LivePositions(s), LiveList(s);
    if SubjectLive(s, x) {
      var p: nat :| Live(s, p) && s.rows[p].proposition.Triple? && s.rows[p].proposition.t1 == x.t1;
      var i :| 0 <= i < |live| && live[i] == p;
      assert values[i] == s.rows[p].proposition;
    }
    if SubjectKnown(values, x) {
      var i :| 0 <= i < |values| && values[i].Triple? && values[i].t1 == x.t1;
      assert live[i] in live;
    }
  }

  lemma {:induction false} RawPolicyIsExact(s: Store, actions: seq<ActionRequest>, n: nat)
    requires Consistent(s) && n <= |actions|
    ensures PrepareActions(LiveList(s), actions[..n]).SubjectNotFound? <==> exists i: nat :: i < n && Orphan(s, actions, i)
  {
    hide Consistent, LiveList, SubjectLive, Simulate, SubjectKnown, ApplyRows, Orphan;
    if n > 0 {
      var before := actions[..n - 1];
      assert actions[..n][..n - 1] == before;
      RawPolicyIsExact(s, actions, n - 1);
      if PrepareActions(LiveList(s), before).Prepared? {
        SimulationFollowsRows(s, before, RowsFor(s, actions, n - 1));
        SubjectKnownIsLive(ApplyRows(s, RowsFor(s, actions, n - 1)), actions[n - 1].proposition);
        OrphanMeans(s, actions, n - 1);
      }
    }
  }

  lemma OrphanMeans(s: Store, actions: seq<ActionRequest>, i: nat)
    requires i < |actions|
    ensures Orphan(s, actions, i) <==>
      actions[i].policy.SubjectExisting? && !SubjectLive(ApplyRows(s, RowsFor(s, actions, i)), actions[i].proposition)
  {
  }

  /** While nothing is superseded, a request is refused for its subjects exactly when one of its actions asks
      for a subject that would not be live after committing the actions before it. */
  lemma SubjectPolicyIsExactIff(s: Store, actions: seq<ActionRequest>)
    requires Consistent(s) && NoneSuppressed(s)
    ensures PrepareOnStore(s, actions).1 == None <==> exists i: nat :: Orphan(s, actions, i)
  {
    hide Consistent, LiveList, EffectiveList, PrepareActions, PrepareOnStore, NoneSuppressed, SubjectLive;
    PreparedByTheWalk(s, actions);
    NoneSuppressedMeansSame(s);
    RawPolicyIsExact(s, actions, |actions|);
    assert actions[..|actions|] == actions;
  }

  /** Then the list it simulates is also what is live once its operations are committed. */
  lemma PreflightSimulatesCommit(s: Store, actions: seq<ActionRequest>)
    requires Consistent(s) && NoneSuppressed(s) && PrepareActions(EffectiveList(s), actions).Prepared?
    ensures var plan := PrepareActions(EffectiveList(s), actions).plan;
      && PrepareOnStore(s, actions) == (plan.operations, Some(plan.decisions))
      && plan.simulated == LiveList(Commit(s, FrameOf(s, plan)))
  {
    hide Consistent, PrepareActions, PrepareOnStore, Commit, NoneSuppressed, EffectiveList, LiveList;
    NoneSuppressedMeansSame(s);
    PreparedByTheWalk(s, actions);
    RawWalkIsExact(s, actions);
  }

  /** A committed request's receipt names the transaction and the occurrences the preflight predicted, and
      counts the rows the commit added. */
  lemma PredictedAreCommitted(h: Host, db: Db, operations: seq<SourceOperation>, base: Option<Term>, fault: Option<nat>, receipt: Receipt)
    requires CommitStep(h, db, Request(operations, base, None, None), fault).1 == Committed(receipt)
    ensures var predicted := PredictedOccurrences(db.store, |operations|);
      |receipt.occurrences| == |operations|
      && forall i :: 0 <= i < |operations| ==> receipt.occurrences[i].coordinate == predicted[i]
    ensures receipt.transaction == TransactionCoordinate(db.store.space, db.store.next)
    ensures var after := CommitStep(h, db, Request(operations, base, None, None), fault).0.store;
      |after.rows| == |db.store.rows| + receipt.count
  {
    hide ParseLog, Append, FenceAndReconcile, Prepare, Commit, ReceiptOf;
    var request := Request(operations, base, None, None);
    var f := Prepare(db.store, db.torn.Some?, request).value;
    assert receipt == ReceiptOf(db.store, Commit(db.store, f), f, |operations|);
    assert CommitStep(h, db, request, fault).0.store == Commit(db.store, f);
    SourceComesFirst(db.store, db.torn.Some?, request);
    hide *;
    ReceiptNamesRows(db.store, f, |operations|);
  }

  lemma ReceiptNamesRows(s: Store, f: Frame, count: nat)
    requires count <= |f.operations| && f.sequence == s.next
    ensures var occurrences := ReceiptOf(s, Commit(s, f), f, count).occurrences;
      && |occurrences| == count
      && forall i :: 0 <= i < count ==> occurrences[i].coordinate == PredictedOccurrences(s, count)[i]
    ensures var receipt := ReceiptOf(s, Commit(s, f), f, count);
      receipt.transaction == TransactionCoordinate(s.space, s.next) && |Commit(s, f).rows| == |s.rows| + receipt.count
  {
    CommittedRows(s, f);
    var t, n := Commit(s, f), |s.rows|;
    hide Commit, WithdrawalsFrom;
    assert ReceiptOf(s, t, f, count).occurrences == OccurrencesFrom(t, n, n + count);
    forall i | 0 <= i < count ensures CoordinateAt(t, n + i) == PredictedOccurrences(s, count)[i] {
      assert t.rows[n + i] == RowsOf(f)[i];
    }
  }

  lemma SourceComesFirst(s: Store, torn: bool, request: Request)
    requires Prepare(s, torn, request).Fine?
    ensures |Prepare(s, torn, request).value.operations| >= |request.operations|
    ensures Prepare(s, torn, request).value.sequence == s.next
  {
  }
}
