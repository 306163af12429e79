/** The store as it is kept: operation rows name propositions by handle, and every asserted handle has
    a bucket with its stack of live positions. It mirrors the store over terms. */
module InternedLog {
  import opened Bytes
  import opened Terms
  import opened Frames
  import opened TermStore
  import opened SlotIndex
  import opened Interned

  /** Buckets in the order their handles were first asserted. While a fold is open the stacks live in
      separate cells and the buckets' own positions are empty. */
  datatype Actives = Actives(buckets: Index<nat>, positions: seq<seq<nat>>, cells: seq<seq<nat>>, folding: bool)
  {
    function Stacks(): seq<seq<nat>> {
      if folding then cells else positions
    }

    predicate Shaped() {
      && |buckets.slots| > 0 && |positions| == |buckets.rows|
      && (if folding then |cells| == |buckets.rows| else cells == [])
      && (folding ==> forall p :: 0 <= p < |positions| ==> positions[p] == [])
    }

    /** The live positions of a handle, newest last. */
    function Positions(h: Hashes, handle: nat): seq<nat>
      requires Shaped()
    {
      match Find(h.handle, buckets, handle)
      case None => []
      case Some(p) => Stacks()[p]
    }

    function SetPositions(h: Hashes, handle: nat, stack: seq<nat>): (a: Actives)
      requires Shaped()
      ensures a.Shaped() && a.folding == folding
    {
      match Find(h.handle, buckets, handle)
      case Some(p) => if folding then this.(cells := cells[p := stack]) else this.(positions := positions[p := stack])
      case None =>
        Actives(Append(h.handle, buckets, handle), positions + [if folding then [] else stack],
          if folding then cells + [stack] else cells, folding)
    }

    function OpenFold(): Actives {
      if folding then this else Actives(buckets, seq(|positions|, i => []), positions, true)
    }

    function CloseFold(): Actives {
      if !folding then this else Actives(buckets, cells, [], false)
    }
  }

  function NewActives(expected: nat): Actives {
    Actives(NewIndex(expected), [], [], false)
  }

  ghost predicate WellFormedActives(h: Hashes, a: Actives) {
    a.Shaped() && WellIndexed(h.handle, a.buckets)
  }

  /** Setting one handle's stack sets that stack alone, through any rehash. */
  lemma SetPositionsIsUpdate(h: Hashes, a: Actives, handle: nat, stack: seq<nat>, other: nat)
    requires WellFormedActives(h, a)
    ensures var set' := a.SetPositions(h, handle, stack);
      && WellFormedActives(h, set')
      && set'.Positions(h, other) == (if other == handle then stack else a.Positions(h, other))
      && (other in set'.buckets.rows <==> other in a.buckets.rows || other == handle)
  {
    hide WellIndexed, Find, Append;
    FindIsExact(h.handle, a.buckets, handle);
    FindIsExact(h.handle, a.buckets, other);
    if Find(h.handle, a.buckets, handle).None? {
      AppendKeepsIndexed(h.handle, a.buckets, handle);
      FindIsExact(h.handle, Append(h.handle, a.buckets, handle), other);
    }
  }

  /** Opening and closing a fold change no stack, and leave it open and closed. */
  lemma FoldKeepsPositions(h: Hashes, a: Actives, handle: nat)
    requires WellFormedActives(h, a)
    ensures WellFormedActives(h, a.OpenFold()) && WellFormedActives(h, a.CloseFold())
    ensures a.OpenFold().Positions(h, handle) == a.Positions(h, handle) == a.CloseFold().Positions(h, handle)
    ensures a.OpenFold().folding && !a.CloseFold().folding
  {
  }

  // ----- the log of operations -----

  datatype OperationRow = OperationRow(sequence: int, ordinal: nat, action: Action, handle: nat)

  datatype Log = Log(table: Table, actives: Actives, operations: seq<OperationRow>, targets: seq<Option<nat>>)

  function NewLog(atoms: nat, triples: nat, buckets: nat): Log {
    Log(NewTable(atoms, triples), NewActives(buckets), [], [])
  }

  function ApplyOperation(h: Hashes, log: Log, row: OperationRow): (r: Log)
    requires log.actives.Shaped()
    ensures r.actives.Shaped() && r.table == log.table && r.actives.folding == log.actives.folding
  {
    var active, position := log.actives.Positions(h, row.handle), |log.operations|;
    var more := log.(operations := log.operations + [row]);
    if row.action.Assert? then
      more.(targets := log.targets + [None], actives := log.actives.SetPositions(h, row.handle, active + [position]))
    else if active == [] then
      more.(targets := log.targets + [None])
    else
      more.(targets := log.targets + [Some(active[|active| - 1])],
            actives := log.actives.SetPositions(h, row.handle, active[..|active| - 1]))
  }

  /** Interns the propositions of a transaction, in order. */
  function InternAll(h: Hashes, tb: Table, operations: seq<Operation>): (r: (Table, seq<nat>))
    requires Slotted(tb)
    ensures Slotted(r.0) && |r.1| == |operations|
    decreases |operations|
  {
    if operations == [] then (tb, []) else
    var n := |operations| - 1;
    var (before, handles) := InternAll(h, tb, operations[..n]);
    var (after, x) := Intern(h, before, operations[n].proposition);
    (after, handles + [x])
  }

  function ApplyOperations(h: Hashes, log: Log, f: Frame, handles: seq<nat>, n: nat): (r: Log)
    requires log.actives.Shaped() && n <= |f.operations| == |handles|
    ensures r.actives.Shaped() && r.table == log.table && r.actives.folding == log.actives.folding
  {
    if n == 0 then log else
    ApplyOperation(h, ApplyOperations(h, log, f, handles, n - 1),
      OperationRow(f.sequence, n - 1, f.operations[n - 1].action, handles[n - 1]))
  }

  function AppendTransaction(h: Hashes, log: Log, f: Frame): (r: Log)
    requires log.actives.Shaped() && Slotted(log.table)
    ensures r.actives.Shaped() && Slotted(r.table) && r.actives.folding == log.actives.folding
  {
    var (table, handles) := InternAll(h, log.table, f.operations);
    ApplyOperations(h, log.(table := table), f, handles, |f.operations|)
  }

  // ----- the mirror -----

  predicate NamesTriple(tb: Table, x: nat) {
    ValidHandle(tb, x) && !IsAtomHandle(x)
  }

  predicate NameTriples(tb: Table, handles: seq<nat>) {
    forall i :: 0 <= i < |handles| ==> NamesTriple(tb, handles[i])
  }

  ghost predicate WellFormedLog(h: Hashes, log: Log) {
    && WellFormedTable(h, log.table) && WellFormedActives(h, log.actives)
    && NameTriples(log.table, log.actives.buckets.rows)
  }

  /** The row at `p` is the other store's row with its proposition spelled out. */
  ghost predicate SameRow(log: Log, s: Store, p: nat)
    requires p < |log.operations| && p < |s.rows| && Ordered(log.table)
  {
    var o := log.operations[p];
    && NamesTriple(log.table, o.handle)
    && s.rows[p] == Row(o.sequence, o.ordinal, o.action, Resolve(log.table, o.handle))
  }

  ghost predicate SameRows(log: Log, s: Store)
    requires Ordered(log.table)
  {
    && |log.operations| == |s.rows| && log.targets == s.targets
    && (forall p :: 0 <= p < |s.rows| ==> SameRow(log, s, p))
  }

  /** Every live stack is kept under the handle of its proposition, and under no other. */
  ghost predicate SameStacks(h: Hashes, log: Log, s: Store)
    requires Ordered(log.table) && log.actives.Shaped()
  {
    && (forall x :: NamesTriple(log.table, x) ==> log.actives.Positions(h, x) == s.Stack(Resolve(log.table, x)))
    && (forall t {:trigger s.Stack(t)} :: s.Stack(t) != [] ==>
          exists x :: NamesTriple(log.table, x) && Resolve(log.table, x) == t)
  }

  ghost predicate Mirrors(h: Hashes, log: Log, s: Store) {
    WellFormedLog(h, log) && SameRows(log, s) && SameStacks(h, log, s)
  }

  lemma NewMirrors(h: Hashes, space: Octets, atoms: nat, triples: nat, buckets: nat)
    ensures Mirrors(h, NewLog(atoms, triples, buckets), NewStore(space))
  {
    NewIsIndexed(h.term, atoms);
    NewIsIndexed(h.row, triples);
    NewIsIndexed(h.handle, buckets);
  }

  lemma UnbucketedIsEmpty(h: Hashes, a: Actives, x: nat)
    requires WellFormedActives(h, a) && x !in a.buckets.rows
    ensures a.Positions(h, x) == []
  {
    FindIsExact(h.handle, a.buckets, x);
  }

  /** Terms interned for later operations disturb nothing that is already mirrored. */
  lemma GrowthKeepsMirror(h: Hashes, log: Log, s: Store, more: Table)
    requires Mirrors(h, log, s) && WellFormedTable(h, more) && Grows(log.table, more)
    ensures Mirrors(h, log.(table := more), s)
  {
    hide Grows, WellIndexed, Resolve;
    var grown := log.(table := more);
    forall x | NamesTriple(log.table, x) ensures NamesTriple(more, x) && Resolve(more, x) == Resolve(log.table, x) {
      GrowsValid(log.table, more, x);
      ResolveIsStable(log.table, more, x);
    }
    assert WellFormedLog(h, grown);
    forall p | 0 <= p < |s.rows| ensures SameRow(grown, s, p) {
      assert SameRow(log, s, p);
    }
    assert SameRows(grown, s);
    GrowthKeepsStacks(h, log, s, more);
  }

  lemma GrowthKeepsStacks(h: Hashes, log: Log, s: Store, more: Table)
    requires Mirrors(h, log, s) && WellFormedTable(h, more) && Grows(log.table, more)
    ensures SameStacks(h, log.(table := more), s)
  {
    hide Grows, WellIndexed, Resolve;
    forall x | NamesTriple(more, x) ensures log.actives.Positions(h, x) == s.Stack(Resolve(more, x)) {
      if NamesTriple(log.table, x) {
        ResolveIsStable(log.table, more, x);
      } else {
        UnbucketedIsEmpty(h, log.actives, x);
        NewTermIsNotLive(h, log, s, more, x);
      }
    }
    forall t | s.Stack(t) != [] ensures exists x :: NamesTriple(more, x) && Resolve(more, x) == t {
      var x :| NamesTriple(log.table, x) && Resolve(log.table, x) == t;
      ResolveIsStable(log.table, more, x);
      GrowsValid(log.table, more, x);
    }
  }

  /** A handle new to a table names a term nothing live refers to. */
  lemma NewTermIsNotLive(h: Hashes, log: Log, s: Store, more: Table, x: nat)
    requires Mirrors(h, log, s) && WellFormedTable(h, more) && Grows(log.table, more)
    requires NamesTriple(more, x) && !NamesTriple(log.table, x)
    ensures s.Stack(Resolve(more, x)) == []
  {
    hide Grows, WellIndexed, Resolve;
    var t := Resolve(more, x);
    if s.Stack(t) != [] {
      var y :| NamesTriple(log.table, y) && Resolve(log.table, y) == t;
      ResolveIsStable(log.table, more, y);
      HandlesAreInverse(h, more, t, x);
      HandlesAreInverse(h, more, t, y);
    }
  }

  /** The stacks after one row, on both sides. */
  ghost predicate StepStack(log: Log, more: Log, s: Store, t: Store, h: Hashes, handle: nat, stack: seq<nat>)
    requires Ordered(log.table) && ValidHandle(log.table, handle) && log.actives.Shaped() && more.actives.Shaped()
  {
    && more.table == log.table && WellFormedActives(h, more.actives)
    && (forall y :: more.actives.Positions(h, y) == (if y == handle then stack else log.actives.Positions(h, y)))
    && (forall y :: y in more.actives.buckets.rows ==> y in log.actives.buckets.rows || y == handle)
    && (forall x :: t.Stack(x) == (if x == Resolve(log.table, handle) then stack else s.Stack(x)))
  }

  lemma StackStepMirrors(h: Hashes, log: Log, more: Log, s: Store, t: Store, handle: nat, stack: seq<nat>)
    requires WellFormedLog(h, log) && SameStacks(h, log, s) && NamesTriple(log.table, handle)
    requires more.actives.Shaped() && StepStack(log, more, s, t, h, handle, stack)
    ensures WellFormedLog(h, more) && SameStacks(h, more, t)
  {
    hide Resolve, WellIndexed;
    var buckets := more.actives.buckets.rows;
    forall i | 0 <= i < |buckets| ensures NamesTriple(more.table, buckets[i]) {
      assert buckets[i] in buckets;
    }
    forall x | NamesTriple(more.table, x) ensures more.actives.Positions(h, x) == t.Stack(Resolve(more.table, x)) {
      HandlesAreInverse(h, log.table, Resolve(log.table, x), x);
      HandlesAreInverse(h, log.table, Resolve(log.table, x), handle);
    }
    forall x | t.Stack(x) != [] ensures exists y :: NamesTriple(more.table, y) && Resolve(more.table, y) == x {
      if x == Resolve(log.table, handle) {
        assert NamesTriple(more.table, handle);
      } else {
        assert s.Stack(x) != [];
      }
    }
  }

  lemma SetIsStep(h: Hashes, log: Log, s: Store, more: Log, t: Store, handle: nat, stack: seq<nat>)
    requires WellFormedLog(h, log) && NamesTriple(log.table, handle)
    requires more.table == log.table && more.actives == log.actives.SetPositions(h, handle, stack)
    requires t.active == s.active[Resolve(log.table, handle) := stack]
    ensures StepStack(log, more, s, t, h, handle, stack)
  {
    hide Resolve, WellIndexed;
    forall y ensures more.actives.Positions(h, y) == (if y == handle then stack else log.actives.Positions(h, y))
      && (y in more.actives.buckets.rows ==> y in log.actives.buckets.rows || y == handle)
      && WellFormedActives(h, more.actives)
    {
      SetPositionsIsUpdate(h, log.actives, handle, stack, y);
    }
    assert WellFormedActives(h, more.actives) by {
      SetPositionsIsUpdate(h, log.actives, handle, stack, handle);
    }
  }

  lemma RowStepMirrors(h: Hashes, log: Log, s: Store, o: OperationRow)
    requires Mirrors(h, log, s) && NamesTriple(log.table, o.handle)
    ensures var row := Row(o.sequence, o.ordinal, o.action, Resolve(log.table, o.handle));
      SameRows(ApplyOperation(h, log, o), ApplyRow(s, row))
  {
    hide Resolve, WellIndexed;
    var row := Row(o.sequence, o.ordinal, o.action, Resolve(log.table, o.handle));
    var more, t := ApplyOperation(h, log, o), ApplyRow(s, row);
    assert log.actives.Positions(h, o.handle) == s.Stack(row.proposition);
    forall p | 0 <= p < |t.rows| ensures SameRow(more, t, p) {
      if p < |s.rows| {
        assert SameRow(log, s, p);
      }
    }
  }

  /** The stack that one operation leaves, if it leaves a new one. */
  function NextStack(action: Action, stack: seq<nat>, position: nat): Option<seq<nat>> {
    if action.Assert? then Some(stack + [position]) else
    if stack == [] then None else Some(stack[..|stack| - 1])
  }

  lemma OperationSteps(h: Hashes, log: Log, s: Store, o: OperationRow)
    requires Mirrors(h, log, s) && NamesTriple(log.table, o.handle)
    ensures var x := Resolve(log.table, o.handle);
      var more, t := ApplyOperation(h, log, o), ApplyRow(s, Row(o.sequence, o.ordinal, o.action, x));
      && more.table == log.table
      && match NextStack(o.action, s.Stack(x), |s.rows|)
         case Some(stack) =>
           more.actives == log.actives.SetPositions(h, o.handle, stack) && t.active == s.active[x := stack]
         case None => more.actives == log.actives && t.active == s.active
  {
    hide Resolve, WellIndexed, Find;
    assert log.actives.Positions(h, o.handle) == s.Stack(Resolve(log.table, o.handle));
  }

  /** One operation row, applied by handle and by term. */
  lemma OperationMirrors(h: Hashes, log: Log, s: Store, o: OperationRow)
    requires Mirrors(h, log, s) && NamesTriple(log.table, o.handle)
    ensures var row := Row(o.sequence, o.ordinal, o.action, Resolve(log.table, o.handle));
      Mirrors(h, ApplyOperation(h, log, o), ApplyRow(s, row))
  {
    RowStepMirrors(h, log, s, o);
    OperationSteps(h, log, s, o);
    hide Resolve, WellIndexed, StepStack, SameRows, ApplyOperation, ApplyRow, Find, NamesTriple;
    var x := o.handle;
    var row := Row(o.sequence, o.ordinal, o.action, Resolve(log.table, x));
    var more, t := ApplyOperation(h, log, o), ApplyRow(s, row);
    match NextStack(o.action, s.Stack(row.proposition), |s.rows|)
    case Some(stack) =>
      SetIsStep(h, log, s, more, t, x, stack);
      StackStepMirrors(h, log, more, s, t, x, stack);
    case None =>
      SameStacksStay(h, log, s, more, t);
  }

  lemma SameStacksStay(h: Hashes, log: Log, s: Store, more: Log, t: Store)
    requires WellFormedLog(h, log) && SameStacks(h, log, s)
    requires more.table == log.table && more.actives == log.actives && t.active == s.active
    ensures WellFormedLog(h, more) && SameStacks(h, more, t)
  {
    hide Resolve, WellIndexed, Find;
    forall x ensures t.Stack(x) == s.Stack(x) {
    }
  }

  /** The handles name the propositions of the operations. */
  ghost predicate Names(tb: Table, operations: seq<Operation>, handles: seq<nat>)
    requires Ordered(tb)
  {
    && |handles| == |operations|
    && forall i :: 0 <= i < |handles| ==>
      NamesTriple(tb, handles[i]) && Resolve(tb, handles[i]) == operations[i].proposition
  }

  lemma {:induction false} InternAllNames(h: Hashes, tb: Table, operations: seq<Operation>)
    requires WellFormedTable(h, tb) && forall i :: 0 <= i < |operations| ==> operations[i].proposition.Triple?
    ensures var (more, handles) := InternAll(h, tb, operations);
      WellFormedTable(h, more) && Grows(tb, more) && Names(more, operations, handles)
    decreases |operations|
  {
    hide Resolve, Covers, Distinct, Intern;
    if operations != [] {
      var n := |operations| - 1;
      InternAllNames(h, tb, operations[..n]);
      var (before, handles) := InternAll(h, tb, operations[..n]);
      InternMeets(h, before, operations[n].proposition);
      var (more, x) := Intern(h, before, operations[n].proposition);
      forall i | 0 <= i < n
        ensures NamesTriple(more, handles[i]) && Resolve(more, handles[i]) == operations[i].proposition
      {
        ResolveIsStable(before, more, handles[i]);
        assert operations[..n][i] == operations[i];
      }
    }
  }

  lemma {:induction false} OperationsMirror(h: Hashes, log: Log, s: Store, f: Frame, handles: seq<nat>, n: nat)
    requires Mirrors(h, log, s) && Names(log.table, f.operations, handles) && n <= |f.operations|
    ensures Mirrors(h, ApplyOperations(h, log, f, handles, n), ApplyRows(s, RowsOf(f)[..n]))
  {
    hide SameRows, SameStacks, Resolve, WellIndexed, ApplyRow, ApplyOperation;
    if n > 0 {
      OperationsMirror(h, log, s, f, handles, n - 1);
      assert RowsOf(f)[..n][..n - 1] == RowsOf(f)[..n - 1];
      OperationMirrors(h, ApplyOperations(h, log, f, handles, n - 1), ApplyRows(s, RowsOf(f)[..n - 1]),
        OperationRow(f.sequence, n - 1, f.operations[n - 1].action, handles[n - 1]));
    }
  }

  lemma SameMirror(h: Hashes, log: Log, s: Store, t: Store)
    requires Mirrors(h, log, s) && t.rows == s.rows && t.targets == s.targets && t.active == s.active
    ensures Mirrors(h, log, t)
  {
    hide Resolve, WellIndexed;
    forall x ensures t.Stack(x) == s.Stack(x) {
    }
    forall p | 0 <= p < |t.rows| ensures SameRow(log, t, p) {
      assert SameRow(log, s, p);
    }
  }

  /** Committing a transaction by handles mirrors committing it by terms. */
  lemma TransactionMirrors(h: Hashes, log: Log, s: Store, f: Frame)
    requires Mirrors(h, log, s) && ValidOperations(f.operations)
    ensures Mirrors(h, AppendTransaction(h, log, f), Commit(s, f))
  {
    hide SameRows, SameStacks, Resolve, WellIndexed, ApplyOperations, ApplyRows;
    var (table, handles) := InternAll(h, log.table, f.operations);
    InternAllNames(h, log.table, f.operations);
    GrowthKeepsMirror(h, log, s, table);
    var begun := s.(transactions := s.transactions + [TransactionRow(f.sequence, |s.rows|, |f.operations|)]);
    SameMirror(h, log.(table := table), s, begun);
    OperationsMirror(h, log.(table := table), begun, f, handles, |f.operations|);
    assert RowsOf(f)[..|f.operations|] == RowsOf(f);
    SameMirror(h, AppendTransaction(h, log, f), ApplyRows(begun, RowsOf(f)), Commit(s, f));
  }

  /** The store after replaying frames, kept by handles. */
  function ReplayLog(h: Hashes, log: Log, fs: seq<Frame>): (r: Log)
    requires log.actives.Shaped() && Slotted(log.table)
    ensures r.actives.Shaped() && Slotted(r.table) && r.actives.folding == log.actives.folding
    decreases |fs|
  {
    if fs == [] then log else AppendTransaction(h, ReplayLog(h, log, fs[..|fs| - 1]), fs[|fs| - 1])
  }

  /** Every replayed history is mirrored. */
  lemma {:induction false} ReplayMirrors(h: Hashes, log: Log, s: Store, fs: seq<Frame>)
    requires Mirrors(h, log, s) && ReplayAll(s, fs).Ok?
    ensures Mirrors(h, ReplayLog(h, log, fs), ReplayAll(s, fs).value)
    decreases |fs|
  {
    hide SameRows, SameStacks, AppendTransaction, Commit, WellIndexed;
    if fs != [] {
      var n := |fs| - 1;
      ReplayMirrors(h, log, s, fs[..n]);
      TransactionMirrors(h, ReplayLog(h, log, fs[..n]), ReplayAll(s, fs[..n]).value, fs[n]);
    }
  }
}
