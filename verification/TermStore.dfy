/** The occurrence store: an append-only list of operation rows and, for every proposition, the
    stack of assertion positions still live. */
module TermStore {
  import opened Bytes
  import opened Terms
  import opened Frames

  datatype Row = Row(sequence: int, ordinal: nat, action: Action, proposition: Term)

  datatype TransactionRow = TransactionRow(sequence: int, first: nat, count: nat)

  datatype Store = Store(
    space: Octets,
    next: int,
    transactions: seq<TransactionRow>,
    rows: seq<Row>,
    targets: seq<Option<nat>>,
    active: map<Term, seq<nat>>)
  {
    function Stack(x: Term): seq<nat> {
      if x in active then active[x] else []
    }

    /** The sequence of the newest transaction, or 0. */
    function Current(): int { next - 1 }
  }

  function NewStore(space: Octets): Store {
    Store(space, 1, [], [], [], map[])
  }

  // ----- applying transactions -----

  /** Asserting pushes a live position; retracting withdraws the newest live equal assertion, if any. */
  function ApplyRow(s: Store, row: Row): Store {
    var x, position, stack := row.proposition, |s.rows|, s.Stack(row.proposition);
    if row.action.Assert? then
      s.(rows := s.rows + [row], targets := s.targets + [None], active := s.active[x := stack + [position]])
    else if stack == [] then
      s.(rows := s.rows + [row], targets := s.targets + [None])
    else
      s.(rows := s.rows + [row], targets := s.targets + [Some(stack[|stack| - 1])],
         active := s.active[x := stack[..|stack| - 1]])
  }

  function ApplyRows(s: Store, rows: seq<Row>): Store
    decreases |rows|
  {
    if rows == [] then s else ApplyRow(ApplyRows(s, rows[..|rows| - 1]), rows[|rows| - 1])
  }

  function RowsOf(f: Frame): (rows: seq<Row>)
    ensures |rows| == |f.operations|
    ensures forall i :: 0 <= i < |rows| ==>
      rows[i] == Row(f.sequence, i, f.operations[i].action, f.operations[i].proposition)
  {
    seq(|f.operations|, i requires 0 <= i < |f.operations| =>
      Row(f.sequence, i, f.operations[i].action, f.operations[i].proposition))
  }

  function Commit(s: Store, f: Frame): Store {
    ApplyRows(s.(transactions := s.transactions + [TransactionRow(f.sequence, |s.rows|, |f.operations|)]), RowsOf(f))
      .(next := f.sequence + 1)
  }

  function ReplayFrame(s: Store, f: Frame): Result<Store> {
    if f.sequence < 0 || !ValidOperations(f.operations) then Err(InvalidFrame) else
    if f.sequence < s.next then Err(NonmonotonicSequence) else
    Ok(Commit(s, f))
  }

  function ReplayAll(s: Store, fs: seq<Frame>): Result<Store>
    decreases |fs|
  {
    if fs == [] then Ok(s) else
    var before :- ReplayAll(s, fs[..|fs| - 1]);
    ReplayFrame(before, fs[|fs| - 1])
  }

  lemma {:induction false} ReplayConcat(s: Store, a: seq<Frame>, b: seq<Frame>)
    ensures ReplayAll(s, a + b) ==
      (match ReplayAll(s, a) case Err(e) => Err(e) case Ok(mid) => ReplayAll(mid, b))
    decreases |b|
  {
    if b == [] {
      assert a + b == a;
    } else {
      var n := |b| - 1;
      assert (a + b)[..|a| + n] == a + b[..n] && (a + b)[|a| + n] == b[n];
      ReplayConcat(s, a, b[..n]);
    }
  }

  lemma {:induction false} ApplyRowsConcat(s: Store, a: seq<Row>, b: seq<Row>)
    ensures ApplyRows(s, a + b) == ApplyRows(ApplyRows(s, a), b)
    decreases |b|
  {
    if b == [] {
      assert a + b == a;
    } else {
      var n := |b| - 1;
      assert (a + b)[..|a| + n] == a + b[..n] && (a + b)[|a| + n] == b[n];
      ApplyRowsConcat(s, a, b[..n]);
    }
  }

  /** What applying rows leaves alone. */
  lemma {:induction false} ApplyRowsFrame(s: Store, rows: seq<Row>)
    ensures var t := ApplyRows(s, rows);
      && t.rows == s.rows + rows && t.transactions == s.transactions
      && t.space == s.space && t.next == s.next
    decreases |rows|
  {
    if rows != [] {
      var n := |rows| - 1;
      ApplyRowsFrame(s, rows[..n]);
      assert rows == rows[..n] + [rows[n]];
      assert s.rows + rows == (s.rows + rows[..n]) + [rows[n]];
    } else {
      assert s.rows + rows == s.rows;
    }
  }

  // ----- the live stacks, by definition -----

  /** The live positions of `x` after `rows`, newest last. */
  function StackOf(rows: seq<Row>, x: Term): seq<nat>
    decreases |rows|
  {
    if rows == [] then [] else
    var n := |rows| - 1;
    var stack := StackOf(rows[..n], x);
    if rows[n].proposition != x then stack else
    if rows[n].action.Assert? then stack + [n] else
    if stack == [] then [] else stack[..|stack| - 1]
  }

  /** The assertion a row withdraws: the newest live equal one before it. */
  function TargetOf(rows: seq<Row>, q: nat): Option<nat>
    requires q < |rows|
  {
    var stack := StackOf(rows[..q], rows[q].proposition);
    if rows[q].action.Assert? || stack == [] then None else Some(stack[|stack| - 1])
  }

  ghost predicate Consistent(s: Store) {
    && |s.targets| == |s.rows|
    && (forall x {:trigger s.Stack(x)} :: s.Stack(x) == StackOf(s.rows, x))
    && (forall q :: 0 <= q < |s.rows| ==> s.targets[q] == TargetOf(s.rows, q))
  }

  lemma ApplyRowConsistent(s: Store, row: Row)
    requires Consistent(s)
    ensures Consistent(ApplyRow(s, row))
  {
    var t := ApplyRow(s, row);
    var n := |s.rows|;
    assert t.rows[..n] == s.rows;
    forall x ensures t.Stack(x) == StackOf(t.rows, x) {
      assert s.Stack(x) == StackOf(s.rows, x);
    }
    forall q | 0 <= q < |t.rows| ensures t.targets[q] == TargetOf(t.rows, q) {
      assert t.rows[..q] == s.rows[..q];
      assert s.rows[..n] == s.rows;
    }
  }

  lemma {:induction false} ApplyRowsConsistent(s: Store, rows: seq<Row>)
    requires Consistent(s)
    ensures Consistent(ApplyRows(s, rows))
    decreases |rows|
  {
    if rows != [] {
      ApplyRowsConsistent(s, rows[..|rows| - 1]);
      ApplyRowConsistent(ApplyRows(s, rows[..|rows| - 1]), rows[|rows| - 1]);
    }
  }

  lemma SameHistory(s: Store, t: Store)
    requires Consistent(s) && t.rows == s.rows && t.targets == s.targets && t.active == s.active
    ensures Consistent(t)
  {
    forall x ensures t.Stack(x) == StackOf(t.rows, x) {
      assert s.Stack(x) == StackOf(s.rows, x);
    }
  }

  lemma CommitConsistent(s: Store, f: Frame)
    requires Consistent(s)
    ensures Consistent(Commit(s, f))
  {
    hide Consistent;
    var begun := s.(transactions := s.transactions + [TransactionRow(f.sequence, |s.rows|, |f.operations|)]);
    SameHistory(s, begun);
    ApplyRowsConsistent(begun, RowsOf(f));
    SameHistory(ApplyRows(begun, RowsOf(f)), Commit(s, f));
  }

  /** Replay keeps the indexed stacks and withdrawal targets equal to their definitions. */
  lemma {:induction false} ReplayConsistent(s: Store, fs: seq<Frame>)
    requires Consistent(s) && ReplayAll(s, fs).Ok?
    ensures Consistent(ReplayAll(s, fs).value)
    decreases |fs|
  {
    hide Consistent, Commit;
    if fs != [] {
      var n := |fs| - 1;
      ReplayConsistent(s, fs[..n]);
      var before := ReplayAll(s, fs[..n]).value;
      CommitConsistent(before, fs[n]);
    }
  }

  // ----- liveness without stacks -----

  /** What a row adds to the balance of `x`. */
  function Weight(row: Row, x: Term): int {
    if row.proposition != x then 0 else if row.action.Assert? then 1 else -1
  }

  /** Assertions minus retractions of `x` among the rows after position `p` and before `hi`. */
  function Balance(rows: seq<Row>, x: Term, p: nat, hi: nat): int
    requires p < hi <= |rows|
    decreases hi
  {
    if hi == p + 1 then 0 else Balance(rows, x, p, hi - 1) + Weight(rows[hi - 1], x)
  }

  /** An assertion no stretch of later rows has taken back: never more retractions than assertions. */
  ghost predicate Unmatched(rows: seq<Row>, p: nat)
    requires p < |rows|
  {
    rows[p].action.Assert? && forall q :: p < q <= |rows| ==> Balance(rows, rows[p].proposition, p, q) >= 0
  }

  /** `p` is an unmatched assertion of `x` with exactly `above` newer ones. */
  ghost predicate IsLayer(rows: seq<Row>, x: Term, p: nat, above: int) {
    p < |rows| && rows[p].proposition == x && Unmatched(rows, p) && Balance(rows, x, p, |rows|) == above
  }

  ghost predicate StackSpec(rows: seq<Row>, x: Term, stack: seq<nat>) {
    && (forall i :: 0 <= i < |stack| ==> IsLayer(rows, x, stack[i], |stack| - 1 - i))
    && (forall i, j :: 0 <= i < j < |stack| ==> stack[i] < stack[j])
    && (forall p :: 0 <= p < |rows| && rows[p].proposition == x && Unmatched(rows, p) ==> p in stack)
  }

  lemma {:induction false} BalancePrefix(rows: seq<Row>, row: Row, x: Term, p: nat, hi: nat)
    requires p < hi <= |rows|
    ensures Balance(rows + [row], x, p, hi) == Balance(rows, x, p, hi)
    decreases hi
  {
    if p + 1 < hi {
      BalancePrefix(rows, row, x, p, hi - 1);
    }
  }

  /** How one more row changes the matching of an earlier position. */
  lemma UnmatchedStep(rows: seq<Row>, row: Row, p: nat)
    requires p < |rows|
    ensures var x := rows[p].proposition; var after := Balance(rows, x, p, |rows|) + Weight(row, x);
      && Balance(rows + [row], x, p, |rows| + 1) == after
      && (Unmatched(rows + [row], p) <==> Unmatched(rows, p) && after >= 0)
  {
    var x := rows[p].proposition;
    forall q | p < q <= |rows| ensures Balance(rows + [row], x, p, q) == Balance(rows, x, p, q) {
      BalancePrefix(rows, row, x, p, q);
    }
    if Unmatched(rows + [row], p) {
      forall q | p < q <= |rows| ensures Balance(rows, x, p, q) >= 0 {
        assert Balance(rows + [row], x, p, q) >= 0;
      }
    }
  }

  lemma LayerStep(rows: seq<Row>, row: Row, x: Term, p: nat, above: nat)
    requires IsLayer(rows, x, p, above) && above + Weight(row, x) >= 0
    ensures IsLayer(rows + [row], x, p, above + Weight(row, x))
  {
    UnmatchedStep(rows, row, p);
  }

  lemma WasUnmatched(rows: seq<Row>, row: Row, x: Term, stack: seq<nat>, p: nat) returns (i: nat)
    requires StackSpec(rows, x, stack) && p < |rows| && rows[p].proposition == x && Unmatched(rows + [row], p)
    ensures i < |stack| && stack[i] == p && |stack| - 1 - i + Weight(row, x) >= 0
  {
    UnmatchedStep(rows, row, p);
    i :| 0 <= i < |stack| && stack[i] == p;
    assert IsLayer(rows, x, stack[i], |stack| - 1 - i);
  }

  lemma OtherRowKeeps(before: seq<Row>, row: Row, x: Term, stack: seq<nat>)
    requires StackSpec(before, x, stack) && row.proposition != x
    ensures StackSpec(before + [row], x, stack)
  {
    hide Balance, Unmatched, IsLayer;
    forall i | 0 <= i < |stack| ensures IsLayer(before + [row], x, stack[i], |stack| - 1 - i) {
      LayerStep(before, row, x, stack[i], |stack| - 1 - i);
    }
    forall p | 0 <= p < |before| + 1 && (before + [row])[p].proposition == x && Unmatched(before + [row], p)
      ensures p in stack
    {
      var i := WasUnmatched(before, row, x, stack, p);
    }
  }

  lemma AssertPushes(before: seq<Row>, row: Row, x: Term, stack: seq<nat>)
    requires StackSpec(before, x, stack) && row.proposition == x && row.action.Assert?
    ensures StackSpec(before + [row], x, stack + [|before|])
  {
    hide Balance, Unmatched, IsLayer;
    var pushed := stack + [|before|];
    NewestLayer(before, row, x);
    forall i | 0 <= i < |pushed| ensures IsLayer(before + [row], x, pushed[i], |pushed| - 1 - i) {
      if i < |stack| {
        LayerStep(before, row, x, stack[i], |stack| - 1 - i);
      }
    }
    forall i, j | 0 <= i < j < |pushed| ensures pushed[i] < pushed[j] {
      LayerBelow(before, x, stack[i], |stack| - 1 - i);
    }
    forall p | 0 <= p < |before| + 1 && (before + [row])[p].proposition == x && Unmatched(before + [row], p)
      ensures p in pushed
    {
      if p < |before| {
        var i := WasUnmatched(before, row, x, stack, p);
        assert pushed[i] == p;
      } else {
        assert pushed[|stack|] == p;
      }
    }
  }

  lemma LayerBelow(rows: seq<Row>, x: Term, p: nat, above: int)
    requires IsLayer(rows, x, p, above)
    ensures p < |rows|
  {
  }

  lemma NewestLayer(before: seq<Row>, row: Row, x: Term)
    requires row.proposition == x && row.action.Assert?
    ensures IsLayer(before + [row], x, |before|, 0)
  {
  }

  lemma RetractPops(before: seq<Row>, row: Row, x: Term, stack: seq<nat>)
    requires StackSpec(before, x, stack) && row.proposition == x && row.action.Retract?
    ensures StackSpec(before + [row], x, if stack == [] then [] else stack[..|stack| - 1])
  {
    hide Balance, IsLayer;
    var popped := if stack == [] then [] else stack[..|stack| - 1];
    forall i | 0 <= i < |popped| ensures IsLayer(before + [row], x, popped[i], |popped| - 1 - i) {
      LayerStep(before, row, x, stack[i], |stack| - 1 - i);
    }
    forall p | 0 <= p < |before| + 1 && (before + [row])[p].proposition == x && Unmatched(before + [row], p)
      ensures p in popped
    {
      var i := WasUnmatched(before, row, x, stack, p);
      assert i < |popped| && popped[i] == p;
    }
  }

  /** The stack definition holds exactly the unmatched assertions, in order. */
  lemma {:induction false} StackOfMeetsSpec(rows: seq<Row>, x: Term)
    ensures StackSpec(rows, x, StackOf(rows, x))
    decreases |rows|
  {
    hide StackSpec;
    if rows == [] {
      EmptyMeetsSpec(x);
    } else {
      var n := |rows| - 1;
      var before, row := rows[..n], rows[n];
      assert rows == before + [row];
      StackOfMeetsSpec(before, x);
      var stack := StackOf(before, x);
      if row.proposition != x {
        OtherRowKeeps(before, row, x, stack);
      } else if row.action.Assert? {
        AssertPushes(before, row, x, stack);
      } else {
        RetractPops(before, row, x, stack);
      }
    }
  }

  lemma EmptyMeetsSpec(x: Term)
    ensures StackSpec([], x, [])
  {
  }

  predicate Live(s: Store, p: nat) {
    p < |s.rows| && s.rows[p].action.Assert? && p in s.Stack(s.rows[p].proposition)
  }

  /** A position is live exactly when its assertion is unmatched by the rows after it. */
  lemma LiveIffUnmatched(s: Store, p: nat)
    requires Consistent(s) && p < |s.rows|
    ensures Live(s, p) <==> Unmatched(s.rows, p)
  {
    StackOfMeetsSpec(s.rows, s.rows[p].proposition);
  }

  lemma {:induction false} StackShrinks(rows: seq<Row>, x: Term, j: nat, p: nat)
    requires p < j <= |rows| && p in StackOf(rows, x)
    ensures p in StackOf(rows[..j], x)
    decreases |rows|
  {
    if j == |rows| {
      assert rows[..j] == rows;
    } else {
      var n := |rows| - 1;
      assert p in StackOf(rows[..n], x);
      StackShrinks(rows[..n], x, j, p);
      assert rows[..n][..j] == rows[..j];
    }
  }

  /** A retraction withdraws an equal assertion before it, live until then and newest of its kind;
      no assertion is ever withdrawn twice. */
  lemma WithdrawalsAreExact(s: Store, q: nat)
    requires Consistent(s) && q < |s.rows| && s.targets[q].Some?
    ensures var p := s.targets[q].value;
      && p < q && s.rows[q].action.Retract? && s.rows[p].proposition == s.rows[q].proposition
      && Unmatched(s.rows[..q], p)
      && (forall p' :: p < p' < q && s.rows[p'].proposition == s.rows[q].proposition ==> !Unmatched(s.rows[..q], p'))
      && (forall q' :: 0 <= q' < |s.rows| && q' != q ==> s.targets[q'] != Some(p))
  {
    var p := s.targets[q].value;
    StackOfMeetsSpec(s.rows[..q], s.rows[q].proposition);
    forall q' | 0 <= q' < |s.rows| && q' != q ensures s.targets[q'] != Some(p) {
      if s.targets[q'] == Some(p) {
        StackOfMeetsSpec(s.rows[..q'], s.rows[q'].proposition);
        WithdrawnOnce(s.rows, if q < q' then q else q', if q < q' then q' else q, p);
      }
    }
  }

  lemma WithdrawnOnce(rows: seq<Row>, q: nat, q': nat, p: nat)
    requires q < q' < |rows| && TargetOf(rows, q) == Some(p)
    requires rows[q].proposition == rows[q'].proposition
    ensures TargetOf(rows, q') != Some(p)
  {
    var x := rows[q].proposition;
    var stack := StackOf(rows[..q], x);
    StackOfMeetsSpec(rows[..q], x);
    assert rows[..q + 1][..q] == rows[..q];
    assert StackOf(rows[..q + 1], x) == stack[..|stack| - 1];
    assert rows[..q'][..q + 1] == rows[..q + 1];
    if p in StackOf(rows[..q'], x) {
      StackShrinks(rows[..q'], x, q + 1, p);
    }
  }
}
