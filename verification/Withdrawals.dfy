/** Withdrawing one exact occurrence: when it is refused, and what it takes back. */
module Withdrawals {
  import opened Bytes
  import opened Terms
  import opened Frames
  import opened TermStore
  import opened Coordinates
  import opened Requests
  import opened Durability
  import opened Fence
  import opened Leases
  import opened LeaseSafety

  /** A later live occurrence says the same, so a retraction would withdraw that one. */
  predicate Shadowed(s: Store, p: nat)
    requires p < |s.rows|
  {
    exists q: nat :: p < q < |s.rows| && Live(s, q) && s.rows[q].proposition == s.rows[p].proposition
  }

  /** What withdrawing the occurrence recorded at row `p` is answered. */
  ghost predicate Answers(s: Store, p: nat, actor: Option<Term>, d: Decision)
    requires p < |s.rows|
  {
    if s.rows[p].action.Retract? then d == Reject(NotAssertionOccurrence) else
    if !Effective(s, p) then d == Reject(OccurrenceNotLive) else
    if Shadowed(s, p) then d == Reject(WithdrawalTargetNotCurrent) else
    d == Submit(Request([Plain(Retract, s.rows[p].proposition)], None, None, actor))
  }

  /** An occurrence can be withdrawn exactly when it is an assertion, readers see it and no later live occurrence
      says the same; and each of the four refusals has its own cause. */
  lemma WithdrawDecides(s: Store, target: Term, actor: Option<Term>)
    requires Numbered(s)
    ensures var d := WithdrawOccurrence(s, target, actor);
      && (!Resolves(s, target) ==> d == Reject(UnknownOccurrence))
      && forall p: nat :: p < |s.rows| && CoordinateAt(s, p) == target ==> Answers(s, p, actor, d)
  {
    hide Effective, Live, Numbered, LastEqual, Answers;
    var d := WithdrawOccurrence(s, target, actor);
    forall p: nat | p < |s.rows| && CoordinateAt(s, p) == target ensures Answers(s, p, actor, d) {
      CoordinatesDiffer(s, p, FindFrom(s, target, 0).value);
      if s.rows[p].action.Assert? && Effective(s, p) {
        NewestUnlessShadowed(s, p);
      }
      AnswersMean(s, target, p, actor);
    }
  }

  lemma AnswersMean(s: Store, target: Term, p: nat, actor: Option<Term>)
    requires FindFrom(s, target, 0) == Some(p)
    requires s.rows[p].action.Assert? && Effective(s, p) ==>
      (LastEqual(s, LivePositions(s), s.rows[p].proposition) == Some(p) <==> !Shadowed(s, p))
    ensures Answers(s, p, actor, WithdrawOccurrence(s, target, actor))
  {
    hide Effective, Shadowed, LastEqual;
  }

  lemma NewestUnlessShadowed(s: Store, p: nat)
    requires p < |s.rows| && Effective(s, p)
    ensures LastEqual(s, LivePositions(s), s.rows[p].proposition) == Some(p) <==> !Shadowed(s, p)
  {
    var live, x := LivePositions(s), s.rows[p].proposition;
    assert p in live by { LiveIfEffective(s, p); }
    hide Effective, Live;
    LastEqualIsNewest(s, live, x);
    var r := LastEqual(s, live, x);
    if Shadowed(s, p) {
      var q: nat :| p < q < |s.rows| && Live(s, q) && s.rows[q].proposition == x;
      assert q in live;
    } else {
      assert Live(s, r.value);
    }
  }

  lemma LiveIfEffective(s: Store, p: nat)
    requires Effective(s, p)
    ensures Live(s, p)
  {
  }

  /** Committed, it takes back that very occurrence and leaves every other as live as it was. */
  lemma WithdrawTakesExactly(s: Store, target: Term, actor: Option<Term>, torn: bool, f: Frame, p: nat)
    requires Consistent(s) && Numbered(s) && p < |s.rows| && CoordinateAt(s, p) == target
    requires WithdrawOccurrence(s, target, actor).Submit?
    requires Prepare(s, torn, WithdrawOccurrence(s, target, actor).request) == Fine(f)
    ensures var t := Commit(s, f);
      && |t.targets| == |s.rows| + |f.operations| && t.targets[|s.rows|] == Some(p)
      && forall q :: 0 <= q < |s.rows| ==> (Live(t, q) <==> Live(s, q) && q != p)
  {
    hide Consistent, Effective, Live, Commit, Prepare, Numbered, MetadataIn, Says;
    CoordinatesDiffer(s, p, FindFrom(s, target, 0).value);
    var x := s.rows[p].proposition;
    PreparedFrameSays(s, torn, WithdrawOccurrence(s, target, actor).request);
    MetadataAsserts(s, torn, WithdrawOccurrence(s, target, actor).request, f);
    WithdrawalIsExact(s, f, x, p);
  }

  /** What a frame says beyond the operations asked for is asserted. */
  lemma MetadataAsserts(s: Store, torn: bool, request: Request, f: Frame)
    requires Prepare(s, torn, request) == Fine(f)
    ensures |request.operations| <= |f.operations|
    ensures forall i :: |request.operations| <= i < |f.operations| ==> f.operations[i].action.Assert?
  {
    PreparedFrameSays(s, torn, request);
    hide Prepare;
    var n := |request.operations|;
    forall i | n <= i < |f.operations| ensures f.operations[i].action.Assert? {
      assert f.operations[i] == f.operations[n..][i - n];
      assert f.operations[i] in f.operations[n..];
    }
  }
}
