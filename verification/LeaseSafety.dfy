/** What every commit keeps about leases. */
module LeaseSafety {
  import opened Bytes
  import opened Terms
  import opened Frames
  import opened TermStore
  import opened Coordinates
  import opened Requests
  import opened Durability
  import opened Fence
  import opened Leases

  // ----- numbering -----

  predicate Before(a: Row, b: Row) {
    a.sequence < b.sequence || (a.sequence == b.sequence && a.ordinal < b.ordinal)
  }

  /** Rows are numbered in order, all before the next sequence. */
  ghost predicate Numbered(s: Store) {
    && (forall p :: 0 <= p < |s.rows| ==> s.rows[p].sequence < s.next)
    && (forall p, q :: 0 <= p < q < |s.rows| ==> Before(s.rows[p], s.rows[q]))
  }

  lemma CommitNumbered(s: Store, f: Frame)
    requires Numbered(s) && f.sequence >= s.next
    ensures Numbered(Commit(s, f))
  {
    hide Commit;
    CommitFacts(s, f);
  }

  /** Coordinates name rows uniquely. */
  lemma CoordinatesDiffer(s: Store, p: nat, q: nat)
    requires Numbered(s) && p < |s.rows| && q < |s.rows| && CoordinateAt(s, p) == CoordinateAt(s, q)
    ensures p == q
  {
  }

  // ----- stacks under a frame that takes nothing back -----

  predicate Touches(row: Row, action: Action, x: Term) {
    row.action == action && row.proposition == x
  }

  ghost predicate NoRetraction(rows: seq<Row>, from: nat, x: Term) {
    forall q :: from <= q < |rows| ==> !Touches(rows[q], Retract, x)
  }

  /** Rows that never retract `x` keep its stack and add their own assertions of it. */
  lemma {:induction false} StackGrows(rows: seq<Row>, from: nat, x: Term, p: nat)
    requires from <= |rows| && NoRetraction(rows, from, x)
    ensures p in StackOf(rows, x) <==>
      (if p < from then p in StackOf(rows[..from], x) else p < |rows| && Touches(rows[p], Assert, x))
    decreases |rows|
  {
    if |rows| == from {
      assert rows[..from] == rows;
      StackOfMeetsSpec(rows, x);
    } else {
      var n := |rows| - 1;
      assert rows[..n][..from] == rows[..from];
      StackGrows(rows[..n], from, x, p);
      assert !Touches(rows[n], Retract, x);
      StackOfMeetsSpec(rows[..n], x);
    }
  }

  lemma CommittedRows(s: Store, f: Frame)
    ensures var t := Commit(s, f);
      && t.rows == s.rows + RowsOf(f) && t.rows[..|s.rows|] == s.rows && t.space == s.space && t.next == f.sequence + 1
  {
    hide Commit;
    CommitFacts(s, f);
  }

  lemma LiveIsStacked(s: Store, p: nat, x: Term)
    requires Consistent(s) && p < |s.rows| && s.rows[p].proposition == x
    ensures Live(s, p) <==> p in StackOf(s.rows, x)
  {
    StackOfMeetsSpec(s.rows, x);
    assert s.Stack(x) == StackOf(s.rows, x);
  }

  ghost predicate FrameRetracts(f: Frame, x: Term) {
    exists i :: 0 <= i < |f.operations| && f.operations[i] == Operation(Retract, x)
  }

  /** A proposition the frame never retracts keeps its live assertions and gains the frame's own. */
  lemma LiveUnderFrame(s: Store, f: Frame, p: nat)
    requires Consistent(s) && p < |s.rows| + |f.operations|
    requires |Commit(s, f).rows| == |s.rows| + |f.operations|
    requires !FrameRetracts(f, Commit(s, f).rows[p].proposition)
    ensures Live(Commit(s, f), p) <==>
      (if p < |s.rows| then Live(s, p) else f.operations[p - |s.rows|].action.Assert?)
  {
    hide Commit, Live, StackOf;
    var t := Commit(s, f);
    CommittedRows(s, f);
    CommitConsistent(s, f);
    var x := t.rows[p].proposition;
    forall q | |s.rows| <= q < |t.rows| ensures !Touches(t.rows[q], Retract, x) {
      var i := q - |s.rows|;
      assert RowsOf(f)[i].proposition == f.operations[i].proposition;
    }
    StackGrows(t.rows, |s.rows|, x, p);
    LiveIsStacked(t, p, x);
    if p < |s.rows| {
      LiveIsStacked(s, p, x);
    }
  }

  // ----- suppression under a frame -----

  predicate Replaces(op: Operation, action: Action, c: Term) {
    op.action == action && IsSupersession(op.proposition) && op.proposition.t3 == c
  }

  predicate FrameReplaces(f: Frame, action: Action, c: Term) {
    exists i :: 0 <= i < |f.operations| && Replaces(f.operations[i], action, c)
  }

  lemma SuppressorSurvives(s: Store, f: Frame, q: nat, c: Term)
    requires Consistent(s) && q < |s.rows| && !FrameReplaces(f, Retract, c)
    ensures Suppressor(Commit(s, f), q, c) <==> Suppressor(s, q, c)
  {
    hide Commit, Live;
    CommittedRows(s, f);
    var t := Commit(s, f);
    assert t.rows[q] == s.rows[q];
    if IsSupersession(s.rows[q].proposition) && s.rows[q].proposition.t3 == c {
      forall i | 0 <= i < |f.operations| ensures f.operations[i] != Operation(Retract, s.rows[q].proposition) {
        assert !Replaces(f.operations[i], Retract, c);
      }
      LiveUnderFrame(s, f, q);
    }
  }

  lemma NewSuppressor(s: Store, f: Frame, i: nat, c: Term)
    requires Consistent(s) && i < |f.operations| && !FrameReplaces(f, Retract, c)
    ensures Suppressor(Commit(s, f), |s.rows| + i, c) <==> Replaces(f.operations[i], Assert, c)
  {
    hide Commit, Live;
    CommittedRows(s, f);
    var t := Commit(s, f);
    var op := f.operations[i];
    assert t.rows[|s.rows| + i] == RowsOf(f)[i];
    if IsSupersession(op.proposition) && op.proposition.t3 == c {
      forall j | 0 <= j < |f.operations| ensures f.operations[j] != Operation(Retract, op.proposition) {
        assert !Replaces(f.operations[j], Retract, c);
      }
      LiveUnderFrame(s, f, |s.rows| + i);
    }
  }

  /** Unless the frame takes a supersession of `c` back, it only adds its own. */
  lemma SuppressedUnderFrame(s: Store, f: Frame, c: Term)
    requires Consistent(s) && !FrameReplaces(f, Retract, c)
    ensures Suppressed(Commit(s, f), c) <==> Suppressed(s, c) || FrameReplaces(f, Assert, c)
  {
    hide Commit, Live;
    CommittedRows(s, f);
    var t := Commit(s, f);
    if Suppressed(s, c) {
      var q :| 0 <= q < |s.rows| && Suppressor(s, q, c);
      SuppressorSurvives(s, f, q, c);
    }
    if FrameReplaces(f, Assert, c) {
      var i :| 0 <= i < |f.operations| && Replaces(f.operations[i], Assert, c);
      NewSuppressor(s, f, i, c);
    }
    if Suppressed(t, c) {
      var q :| 0 <= q < |t.rows| && Suppressor(t, q, c);
      if q < |s.rows| {
        SuppressorSurvives(s, f, q, c);
      } else {
        NewSuppressor(s, f, q - |s.rows|, c);
      }
    }
  }

  // ----- the lease invariant -----

  /** Not the coordinate of a row still to come. */
  predicate Past(s: Store, c: Term) {
    IsOccurrenceCoordinate(c) ==> c.t1.t1 != Text(s.space) || c.t1.t3.value < s.next
  }

  predicate SameResource(s: Store, p: nat, q: nat) {
    p < |s.rows| && IsLease(s.rows[p].proposition) && LeaseAt(s, q, Resource(s.rows[p].proposition))
  }

  ghost predicate LeaseSafe(s: Store) {
    && Consistent(s) && Numbered(s)
    && (forall q, c :: Suppressor(s, q, c) ==> Past(s, c))
    && (forall p, q :: SameResource(s, p, q) && Effective(s, p) && Live(s, q) ==> q <= p)
    && (forall p :: 0 <= p < |s.rows| && IsLease(s.rows[p].proposition) ==> Canonical(s.rows[p].proposition))
  }

  lemma LivenessShrinks(s: Store, f: Frame, p: nat)
    requires Consistent(s) && p < |s.rows| && Live(Commit(s, f), p)
    ensures Live(s, p)
  {
    hide Commit, Live, StackOf;
    var t := Commit(s, f);
    CommittedRows(s, f);
    CommitConsistent(s, f);
    var x := s.rows[p].proposition;
    assert t.rows[p] == t.rows[..|s.rows|][p];
    LiveIsStacked(t, p, x);
    StackShrinks(t.rows, x, |s.rows|, p);
    LiveIsStacked(s, p, x);
    StillAsserted(t, p);
  }

  lemma StillAsserted(s: Store, p: nat)
    requires Live(s, p)
    ensures p < |s.rows| && s.rows[p].action.Assert?
  {
  }

  predicate LeaseRow(s: Store, p: nat) {
    p < |s.rows| && IsLease(s.rows[p].proposition)
  }

  /** The frame takes no supersession of a lease back. */
  ghost predicate KeepsReplaced(s: Store, f: Frame) {
    forall p :: LeaseRow(s, p) ==> !FrameReplaces(f, Retract, CoordinateAt(s, p))
  }

  /** A lease the frame asserts replaces every effective lease on its resource. */
  ghost predicate ReplacesRivals(s: Store, f: Frame) {
    |f.operations| > 0 && f.operations[0].action.Assert? && IsLease(f.operations[0].proposition) ==>
      forall p :: LeaseAt(s, p, Resource(f.operations[0].proposition)) && Effective(s, p) ==>
        FrameReplaces(f, Assert, CoordinateAt(s, p))
  }

  /** What a frame owes the leases: it replaces only what is recorded, never takes a replacement of a
      lease back, and asserts or retracts a lease only in first place. */
  ghost predicate LeaseFrame(s: Store, f: Frame) {
    && f.sequence >= s.next
    && (forall i :: 0 <= i < |f.operations| && IsSupersession(f.operations[i].proposition) ==>
         Past(s, f.operations[i].proposition.t3))
    && (forall i :: 0 <= i < |f.operations| && IsLease(f.operations[i].proposition) ==>
         i == 0 && Canonical(f.operations[i].proposition))
    && KeepsReplaced(s, f) && ReplacesRivals(s, f)
  }

  /** A lease that is not effective never becomes effective; one the frame replaces stops being so. */
  lemma EffectiveUnderFrame(s: Store, f: Frame, p: nat)
    requires Consistent(s) && LeaseFrame(s, f) && LeaseRow(s, p)
    ensures Effective(Commit(s, f), p) <==>
      Effective(s, p) && Live(Commit(s, f), p) && !FrameReplaces(f, Assert, CoordinateAt(s, p))
  {
    hide Commit, Live, Suppressed, FrameReplaces;
    CommittedRows(s, f);
    var c := CoordinateAt(s, p);
    assert CoordinateAt(Commit(s, f), p) == c;
    SuppressedUnderFrame(s, f, c);
    if Live(Commit(s, f), p) {
      LivenessShrinks(s, f, p);
    }
  }

  lemma PastUnderFrame(s: Store, f: Frame, q: nat, c: Term)
    requires LeaseSafe(s) && LeaseFrame(s, f) && Suppressor(Commit(s, f), q, c)
    ensures Past(Commit(s, f), c)
  {
    hide Commit, Live;
    CommittedRows(s, f);
    var t := Commit(s, f);
    if q < |s.rows| {
      assert t.rows[q] == s.rows[q];
      LivenessShrinks(s, f, q);
      assert Suppressor(s, q, c);
    } else {
      assert t.rows[q] == RowsOf(f)[q - |s.rows|];
    }
  }

  /** The newest live lease on a resource stays the only one that can be effective. */
  lemma NewestUnderFrame(s: Store, f: Frame, p: nat, q: nat)
    requires LeaseSafe(s) && LeaseFrame(s, f)
    requires SameResource(Commit(s, f), p, q) && Effective(Commit(s, f), p) && Live(Commit(s, f), q)
    ensures q <= p
  {
    hide Commit, Effective, FrameReplaces, Consistent, Live;
    CommittedRows(s, f);
    var t, n := Commit(s, f), |s.rows|;
    if q >= n {
      assert t.rows[q] == RowsOf(f)[q - n];
      StillAsserted(t, q);
    } else {
      LivenessShrinks(s, f, q);
    }
    if p < n {
      EffectiveUnderFrame(s, f, p);
      assert q < n ==> SameResource(s, p, q);
    } else {
      assert t.rows[p] == RowsOf(f)[p - n];
    }
  }

  /** Every such frame keeps the lease invariant. */
  lemma LeaseSafeUnderFrame(s: Store, f: Frame)
    requires LeaseSafe(s) && LeaseFrame(s, f)
    ensures LeaseSafe(Commit(s, f))
  {
    hide Commit, Effective, Live, Suppressor, Consistent, SameResource, Past, KeepsReplaced, ReplacesRivals;
    var t := Commit(s, f);
    CommitConsistent(s, f);
    CommitNumbered(s, f);
    CommittedRows(s, f);
    forall q, c | Suppressor(t, q, c) ensures Past(t, c) {
      PastUnderFrame(s, f, q, c);
    }
    forall p, q | SameResource(t, p, q) && Effective(t, p) && Live(t, q) ensures q <= p {
      NewestUnderFrame(s, f, p, q);
    }
    forall p | 0 <= p < |t.rows| && IsLease(t.rows[p].proposition) ensures Canonical(t.rows[p].proposition) {
      assert p >= |s.rows| ==> t.rows[p] == RowsOf(f)[p - |s.rows|];
    }
  }

  lemma NewStoreLeaseSafe(space: Octets)
    ensures LeaseSafe(NewStore(space))
  {
  }

  // ----- exact withdrawal -----

  lemma {:induction false} LastEqualIsNewest(s: Store, positions: seq<nat>, x: Term)
    requires Within(s, positions) && Ascending(positions)
    ensures forall p :: p in positions && s.rows[p].proposition == x ==>
      LastEqual(s, positions, x).Some? && p <= LastEqual(s, positions, x).value
  {
    if positions != [] {
      LastEqualIsNewest(s, positions[..|positions| - 1], x);
    }
  }

  /** The newest live equal assertion a reader finds is the one a retraction withdraws. */
  lemma LastEqualIsTop(s: Store, x: Term)
    requires Consistent(s)
    ensures var stack := StackOf(s.rows, x);
      LastEqual(s, LivePositions(s), x) == if stack == [] then None else Some(stack[|stack| - 1])
  {
    hide StackOf, Balance;
    var stack := StackOf(s.rows, x);
    var live := LivePositions(s);
    LastEqualIsNewest(s, live, x);
    StackOfMeetsSpec(s.rows, x);
    assert s.Stack(x) == stack;
    if stack != [] {
      var top := stack[|stack| - 1];
      assert IsLayer(s.rows, x, top, 0);
      assert Live(s, top);
      assert top in live;
    }
    var r := LastEqual(s, live, x);
    if r.Some? {
      assert Live(s, r.value);
    }
  }

  /** A frame that retracts `x` first and then only asserts. */
  predicate Withdraws(f: Frame, x: Term) {
    && |f.operations| > 0 && f.operations[0] == Operation(Retract, x)
    && forall i :: 1 <= i < |f.operations| ==> f.operations[i].action.Assert?
  }

  /** It withdraws the newest live assertion of `x`, and no other. */
  lemma WithdrawalIsExact(s: Store, f: Frame, x: Term, p: nat)
    requires Consistent(s) && Withdraws(f, x) && LastEqual(s, LivePositions(s), x) == Some(p)
    ensures var t := Commit(s, f);
      && |t.targets| == |s.rows| + |f.operations| && t.targets[|s.rows|] == Some(p)
      && forall q :: 0 <= q < |s.rows| ==> (Live(t, q) <==> Live(s, q) && q != p)
  {
    hide Commit, Live, StackOf;
    var t, n := Commit(s, f), |s.rows|;
    CommittedRows(s, f);
    CommitConsistent(s, f);
    LastEqualIsTop(s, x);
    assert t.rows[n] == RowsOf(f)[0];
    WithdrawnStack(t.rows, n, x);
    forall q | 0 <= q < n ensures Live(t, q) <==> Live(s, q) && q != p {
      if s.rows[q].proposition == x {
        WithdrawnLater(s, f, x, q, p);
      } else {
        forall i | 0 <= i < |f.operations| ensures f.operations[i] != Operation(Retract, s.rows[q].proposition) {}
        LiveUnderFrame(s, f, q);
      }
    }
  }

  lemma WithdrawnStack(rows: seq<Row>, n: nat, x: Term)
    requires n < |rows| && Touches(rows[n], Retract, x)
    ensures var stack := StackOf(rows[..n], x);
      && TargetOf(rows, n) == (if stack == [] then None else Some(stack[|stack| - 1]))
      && StackOf(rows[..n + 1], x) == if stack == [] then [] else stack[..|stack| - 1]
  {
    assert rows[..n + 1][..n] == rows[..n];
  }

  lemma WithdrawnLater(s: Store, f: Frame, x: Term, q: nat, p: nat)
    requires Consistent(s) && Withdraws(f, x) && LastEqual(s, LivePositions(s), x) == Some(p)
    requires q < |s.rows| && s.rows[q].proposition == x
    ensures Live(Commit(s, f), q) <==> Live(s, q) && q != p
  {
    hide Commit, Live, StackOf, LastEqual, LivePositions;
    var t, n := Commit(s, f), |s.rows|;
    CommittedRows(s, f);
    CommitConsistent(s, f);
    LastEqualIsTop(s, x);
    WithdrawnFirst(s, f, x);
    PoppedKeepsRest(s.rows, x, q);
    hide Withdraws, Consistent, RowsOf;
    StackGrows(t.rows, n + 1, x, q);
    LiveIsStacked(t, q, x);
    LiveIsStacked(s, q, x);
  }

  /** The frame's first row pops the stack, and no later row takes anything from it. */
  lemma WithdrawnFirst(s: Store, f: Frame, x: Term)
    requires Withdraws(f, x)
    ensures var t, n, stack := Commit(s, f), |s.rows|, StackOf(s.rows, x);
      && n < |t.rows| && StackOf(t.rows[..n + 1], x) == (if stack == [] then [] else stack[..|stack| - 1])
      && forall i :: n + 1 <= i < |t.rows| ==> !Touches(t.rows[i], Retract, x)
  {
    hide Commit, StackOf;
    var t, n := Commit(s, f), |s.rows|;
    CommittedRows(s, f);
    assert t.rows[n] == RowsOf(f)[0] && t.rows[..n] == s.rows;
    WithdrawnStack(t.rows, n, x);
    forall i | n + 1 <= i < |t.rows| ensures !Touches(t.rows[i], Retract, x) {
      assert t.rows[i] == RowsOf(f)[i - n];
    }
  }

  lemma PoppedKeepsRest(rows: seq<Row>, x: Term, q: nat)
    requires StackOf(rows, x) != []
    ensures var stack := StackOf(rows, x);
      q in stack[..|stack| - 1] <==> q in stack && q != stack[|stack| - 1]
  {
    hide StackOf, IsLayer, Unmatched;
    StackOfMeetsSpec(rows, x);
    var stack := StackOf(rows, x);
    assert q in stack && q != stack[|stack| - 1] ==> q in stack[..|stack| - 1];
  }
}
