/** The query fast path for one triple pattern over the hash-consed store. */
module FastPath {
  import opened Bytes
  import opened Terms
  import opened Frames
  import opened TermStore
  import opened SlotIndex
  import opened Interned
  import opened InternedLog

  datatype QueryTerm = Variable(name: Octets) | Constant(value: Term)

  type Bindings = map<Octets, Term>

  /** What a pattern argument asks of a handle. */
  datatype Wanted = Unbound | Missing | Known(handle: nat) {
    predicate Accepts(handle: nat) { Unbound? || this == Known(handle) }
  }

  // ----- candidates -----

  function PatternHandle(h: Hashes, tb: Table, argument: QueryTerm): Wanted
    requires Slotted(tb)
  {
    if argument.Variable? then Unbound else
    match TermHandle(h, tb, argument.value)
    case None => Missing
    case Some(x) => Known(x)
  }

  datatype Expected = Expected(t1: Wanted, t2: Wanted, t3: Wanted) {
    predicate AnyMissing() { t1.Missing? || t2.Missing? || t3.Missing? }

    predicate AllBound() { !t1.Unbound? && !t2.Unbound? && !t3.Unbound? }

    predicate Accepts(row: TripleRow) { t1.Accepts(row.t1) && t2.Accepts(row.t2) && t3.Accepts(row.t3) }
  }

  function PatternHandles(h: Hashes, tb: Table, arguments: seq<QueryTerm>): Expected
    requires Slotted(tb) && |arguments| == 3
  {
    Expected(PatternHandle(h, tb, arguments[0]), PatternHandle(h, tb, arguments[1]), PatternHandle(h, tb, arguments[2]))
  }

  /** Some bucket listed in the handle's slot is the handle's and holds a position. */
  predicate ActiveHandle(h: Hashes, a: Actives, x: nat)
    requires a.Shaped()
  {
    exists p :: p in a.buckets.slots[SlotOf(h.handle(x), |a.buckets.slots|)]
      && p < |a.buckets.rows| && a.buckets.rows[p] == x && a.positions[p] != []
  }

  /** Bucket `p` holds a position and its row fits. */
  predicate Fits(log: Log, expected: Expected, p: nat)
    requires log.actives.Shaped() && NameTriples(log.table, log.actives.buckets.rows)
  {
    && p < |log.actives.buckets.rows| && log.actives.positions[p] != []
    && expected.Accepts(log.table.triples.rows[PositionOf(log.actives.buckets.rows[p])])
  }

  /** The first `n` buckets that hold a position and whose row fits. */
  function Scan(log: Log, expected: Expected, n: nat): seq<nat>
    requires log.actives.Shaped() && n <= |log.actives.buckets.rows|
    requires NameTriples(log.table, log.actives.buckets.rows)
  {
    if n == 0 then [] else
    var before := Scan(log, expected, n - 1);
    if Fits(log, expected, n - 1) then before + [log.actives.buckets.rows[n - 1]] else before
  }

  /** The handles worth resolving: none, one exact row, or a scan of the buckets. */
  function CandidateHandles(h: Hashes, log: Log, arguments: seq<QueryTerm>): seq<nat>
    requires Slotted(log.table) && log.actives.Shaped() && |arguments| == 3
    requires NameTriples(log.table, log.actives.buckets.rows)
  {
    var expected := PatternHandles(h, log.table, arguments);
    if expected.AnyMissing() then [] else
    if expected.AllBound() then
      match Find(h.row, log.table.triples, TripleRow(expected.t1.handle, expected.t2.handle, expected.t3.handle))
      case None => []
      case Some(p) => if ActiveHandle(h, log.actives, TripleHandle(p)) then [TripleHandle(p)] else []
    else
      Scan(log, expected, |log.actives.buckets.rows|)
  }

  // ----- matching and grounding -----

  function RowOf(t: Term): (row: seq<Term>)
    requires t.Triple?
    ensures |row| == 3
  {
    [t.t1, t.t2, t.t3]
  }

  /** Extends `bindings` so that the arguments from `position` on read as the row. */
  function MatchFrom(arguments: seq<QueryTerm>, row: seq<Term>, position: nat, bindings: Bindings): Option<Bindings>
    requires |row| == |arguments| && position <= |arguments|
    decreases |arguments| - position
  {
    if position == |arguments| then Some(bindings) else
    match arguments[position]
    case Variable(name) =>
      if name !in bindings then MatchFrom(arguments, row, position + 1, bindings[name := row[position]]) else
      if bindings[name] == row[position] then MatchFrom(arguments, row, position + 1, bindings) else None
    case Constant(value) =>
      if value == row[position] then MatchFrom(arguments, row, position + 1, bindings) else None
  }

  function MatchRow(arguments: seq<QueryTerm>, row: seq<Term>): Option<Bindings>
    requires |row| == |arguments|
  {
    MatchFrom(arguments, row, 0, map[])
  }

  /** The head under bindings; a variable the pattern does not bind grounds to nothing. */
  function GroundRow(head: seq<QueryTerm>, bindings: Bindings): seq<Option<Term>> {
    seq(|head|, i requires 0 <= i < |head| =>
      match head[i]
      case Variable(name) => if name in bindings then Some(bindings[name]) else None
      case Constant(value) => Some(value))
  }

  /** Collects the grounded rows of some candidates. */
  function Collect(tb: Table, arguments: seq<QueryTerm>, head: seq<QueryTerm>, handles: seq<nat>): set<seq<Option<Term>>>
    requires Ordered(tb) && |arguments| == 3 && NameTriples(tb, handles)
  {
    if handles == [] then {} else
    var n := |handles| - 1;
    var before := Collect(tb, arguments, head, handles[..n]);
    match MatchRow(arguments, RowOf(Resolve(tb, handles[n])))
    case None => before
    case Some(bindings) => before + {GroundRow(head, bindings)}
  }

  // ----- the meaning of a pattern -----

  /** `bindings` turns each argument from `from` on into the row's term. */
  ghost predicate Reads(arguments: seq<QueryTerm>, row: seq<Term>, bindings: Bindings, from: nat) {
    |row| == |arguments| && forall i :: from <= i < |arguments| ==>
      match arguments[i]
      case Variable(name) => name in bindings && bindings[name] == row[i]
      case Constant(value) => value == row[i]
  }

  predicate Mentions(arguments: seq<QueryTerm>, name: Octets) {
    exists i :: 0 <= i < |arguments| && arguments[i] == Variable(name)
  }

  /** The bindings under which the pattern is the row: exactly the pattern's variables are bound. */
  ghost predicate IsMatch(arguments: seq<QueryTerm>, row: seq<Term>, bindings: Bindings) {
    Reads(arguments, row, bindings, 0) && forall name :: name in bindings <==> Mentions(arguments, name)
  }

  lemma {:induction false} MatchFromIsSound(arguments: seq<QueryTerm>, row: seq<Term>, position: nat, bindings: Bindings)
    requires |row| == |arguments| && position <= |arguments|
    requires MatchFrom(arguments, row, position, bindings).Some?
    ensures var more := MatchFrom(arguments, row, position, bindings).value;
      && Reads(arguments, row, more, position)
      && (forall name :: name in bindings ==> name in more && more[name] == bindings[name])
      && (forall name :: name in more ==> name in bindings || Mentions(arguments, name))
    decreases |arguments| - position
  {
    if position < |arguments| {
      match arguments[position]
      case Variable(name) =>
        var next := if name in bindings then bindings else bindings[name := row[position]];
        MatchFromIsSound(arguments, row, position + 1, next);
      case Constant(_) =>
        MatchFromIsSound(arguments, row, position + 1, bindings);
    }
  }

  /** When some bindings read as the row, matching succeeds within them. */
  lemma {:induction false} MatchFromIsComplete(
      arguments: seq<QueryTerm>, row: seq<Term>, position: nat, bindings: Bindings, all: Bindings)
    requires Reads(arguments, row, all, position) && position <= |arguments|
    requires forall name :: name in bindings ==> name in all && all[name] == bindings[name]
    ensures var r := MatchFrom(arguments, row, position, bindings);
      r.Some? && forall name :: name in r.value ==> name in all && all[name] == r.value[name]
    decreases |arguments| - position
  {
    if position < |arguments| {
      match arguments[position]
      case Variable(name) =>
        var next := if name in bindings then bindings else bindings[name := row[position]];
        MatchFromIsComplete(arguments, row, position + 1, next, all);
      case Constant(_) =>
        MatchFromIsComplete(arguments, row, position + 1, bindings, all);
    }
  }

  /** Matching finds the bindings of a pattern, repeated variables included, and only those. */
  lemma MatchRowIsExact(arguments: seq<QueryTerm>, row: seq<Term>, bindings: Bindings)
    requires |row| == |arguments|
    ensures MatchRow(arguments, row) == Some(bindings) <==> IsMatch(arguments, row, bindings)
  {
    if MatchRow(arguments, row) == Some(bindings) {
      MatchFromIsSound(arguments, row, 0, map[]);
    }
    if IsMatch(arguments, row, bindings) {
      MatchFromIsComplete(arguments, row, 0, map[], bindings);
      MatchFromIsSound(arguments, row, 0, map[]);
      var found := MatchRow(arguments, row).value;
      forall name | name in bindings ensures name in found {
        var i :| 0 <= i < |arguments| && arguments[i] == Variable(name);
      }
      assert found == bindings;
    }
  }

  // ----- the candidates are the live triples that agree with the constants -----

  predicate AgreesAt(argument: QueryTerm, t: Term) {
    argument.Constant? ==> argument.value == t
  }

  predicate Agrees(arguments: seq<QueryTerm>, t: Term)
    requires |arguments| == 3 && t.Triple?
  {
    AgreesAt(arguments[0], t.t1) && AgreesAt(arguments[1], t.t2) && AgreesAt(arguments[2], t.t3)
  }

  lemma AcceptsAt(h: Hashes, tb: Table, argument: QueryTerm, x: nat)
    requires WellFormedTable(h, tb) && ValidHandle(tb, x)
    ensures PatternHandle(h, tb, argument).Accepts(x) <==> AgreesAt(argument, Resolve(tb, x))
  {
    hide TermHandle, Resolve, WellIndexed, Ordered;
    if argument.Constant? {
      HandlesAreInverse(h, tb, argument.value, x);
    }
  }

  /** A stored row is accepted exactly when the triple agrees with the pattern's constants. */
  lemma AcceptsIsAgrees(h: Hashes, tb: Table, arguments: seq<QueryTerm>, x: nat)
    requires WellFormedTable(h, tb) && NamesTriple(tb, x) && |arguments| == 3
    ensures PatternHandles(h, tb, arguments).Accepts(tb.triples.rows[PositionOf(x)])
      <==> Agrees(arguments, Resolve(tb, x))
  {
    hide PatternHandle, WellIndexed;
    var row := tb.triples.rows[PositionOf(x)];
    AcceptsAt(h, tb, arguments[0], row.t1);
    AcceptsAt(h, tb, arguments[1], row.t2);
    AcceptsAt(h, tb, arguments[2], row.t3);
  }

  lemma ActiveIsNonempty(h: Hashes, a: Actives, x: nat)
    requires WellFormedActives(h, a) && !a.folding
    ensures ActiveHandle(h, a, x) <==> a.Positions(h, x) != []
    ensures a.Positions(h, x) != [] <==>
      exists p :: 0 <= p < |a.buckets.rows| && a.buckets.rows[p] == x && a.positions[p] != []
  {
    FindIsExact(h.handle, a.buckets, x);
    if p :| 0 <= p < |a.buckets.rows| && a.buckets.rows[p] == x {
      assert p in a.buckets.slots[SlotOf(h.handle(x), |a.buckets.slots|)];
    }
  }

  lemma {:induction false} ScanIsExact(log: Log, expected: Expected, n: nat, x: nat)
    requires log.actives.Shaped() && n <= |log.actives.buckets.rows|
    requires NameTriples(log.table, log.actives.buckets.rows)
    ensures x in Scan(log, expected, n) <==> (exists p: nat :: p < n && log.actives.buckets.rows[p] == x && Fits(log, expected, p))
  {
    hide Fits;
    if n > 0 {
      ScanIsExact(log, expected, n - 1, x);
    }
  }

  /** The handle is a candidate of a pattern: it names a live triple that agrees with the constants. */
  ghost predicate IsCandidate(h: Hashes, log: Log, arguments: seq<QueryTerm>, x: nat)
    requires Ordered(log.table) && log.actives.Shaped() && |arguments| == 3
  {
    && NamesTriple(log.table, x) && log.actives.Positions(h, x) != []
    && Agrees(arguments, Resolve(log.table, x))
  }

  lemma ScanFindsCandidates(h: Hashes, log: Log, arguments: seq<QueryTerm>, x: nat)
    requires WellFormedLog(h, log) && !log.actives.folding && |arguments| == 3
    ensures x in Scan(log, PatternHandles(h, log.table, arguments), |log.actives.buckets.rows|)
      <==> IsCandidate(h, log, arguments, x)
  {
    hide WellIndexed, Find, Resolve, Scan, PatternHandles, Agrees;
    var expected := PatternHandles(h, log.table, arguments);
    ScanIsExact(log, expected, |log.actives.buckets.rows|, x);
    ActiveIsNonempty(h, log.actives, x);
    if NamesTriple(log.table, x) {
      AcceptsIsAgrees(h, log.table, arguments, x);
    }
  }

  /** With every argument bound, the one stored row that fits is the row of their handles. */
  lemma ExactRow(h: Hashes, tb: Table, arguments: seq<QueryTerm>, x: nat)
    requires WellFormedTable(h, tb) && |arguments| == 3
    requires PatternHandles(h, tb, arguments).AllBound() && !PatternHandles(h, tb, arguments).AnyMissing()
    ensures var e := PatternHandles(h, tb, arguments);
      (match Find(h.row, tb.triples, TripleRow(e.t1.handle, e.t2.handle, e.t3.handle))
       case None => false case Some(p) => TripleHandle(p) == x) <==>
      (NamesTriple(tb, x) && Agrees(arguments, Resolve(tb, x)))
  {
    hide WellIndexed, Find, Resolve, PatternHandle, Agrees;
    var e := PatternHandles(h, tb, arguments);
    RowKnown(h, tb, TripleRow(e.t1.handle, e.t2.handle, e.t3.handle), x);
    if NamesTriple(tb, x) {
      AcceptsIsAgrees(h, tb, arguments, x);
    }
  }

  /** A constant that is not stored agrees with no part of any stored triple. */
  lemma MissingAgreesWithNone(h: Hashes, tb: Table, arguments: seq<QueryTerm>, x: nat)
    requires WellFormedTable(h, tb) && |arguments| == 3 && PatternHandles(h, tb, arguments).AnyMissing()
    requires NamesTriple(tb, x)
    ensures !Agrees(arguments, Resolve(tb, x))
  {
    hide WellIndexed, Find, Resolve, PatternHandle;
    AcceptsIsAgrees(h, tb, arguments, x);
  }

  /** All three branches give exactly the live triples that agree with the constants. */
  lemma CandidatesAreExact(h: Hashes, log: Log, arguments: seq<QueryTerm>, x: nat)
    requires WellFormedLog(h, log) && !log.actives.folding && |arguments| == 3
    ensures x in CandidateHandles(h, log, arguments) <==> IsCandidate(h, log, arguments, x)
  {
    hide WellIndexed, Find, Resolve, Scan, PatternHandles, Agrees, ActiveHandle;
    var expected := PatternHandles(h, log.table, arguments);
    if expected.AnyMissing() {
      if NamesTriple(log.table, x) {
        MissingAgreesWithNone(h, log.table, arguments, x);
      }
    } else if expected.AllBound() {
      ExactRow(h, log.table, arguments, x);
      ActiveIsNonempty(h, log.actives, x);
    } else {
      ScanFindsCandidates(h, log, arguments, x);
    }
  }

  /** While a fold is open every bucket looks empty. */
  lemma FoldingHasNoCandidates(h: Hashes, log: Log, arguments: seq<QueryTerm>)
    requires WellFormedLog(h, log) && log.actives.folding && |arguments| == 3
    ensures CandidateHandles(h, log, arguments) == []
  {
    hide WellIndexed, Find, PatternHandles;
    var n := |log.actives.buckets.rows|;
    if Scan(log, PatternHandles(h, log.table, arguments), n) != [] {
      ScanIsExact(log, PatternHandles(h, log.table, arguments), n, Scan(log, PatternHandles(h, log.table, arguments), n)[0]);
    }
  }

  lemma CandidatesNameTriples(h: Hashes, log: Log, arguments: seq<QueryTerm>)
    requires WellFormedLog(h, log) && |arguments| == 3
    ensures NameTriples(log.table, CandidateHandles(h, log, arguments))
  {
    hide CandidateHandles, WellIndexed, Resolve, Agrees, NamesTriple;
    var handles := CandidateHandles(h, log, arguments);
    if log.actives.folding {
      FoldingHasNoCandidates(h, log, arguments);
    } else {
      forall i | 0 <= i < |handles| ensures NamesTriple(log.table, handles[i]) {
        CandidatesAreExact(h, log, arguments, handles[i]);
      }
    }
  }

  /** The rows the fast path serves. */
  function OneTripleRows(h: Hashes, log: Log, arguments: seq<QueryTerm>, head: seq<QueryTerm>): set<seq<Option<Term>>>
    requires WellFormedLog(h, log) && |arguments| == 3
  {
    CandidatesNameTriples(h, log, arguments);
    Collect(log.table, arguments, head, CandidateHandles(h, log, arguments))
  }

  // ----- the fast path keeps the meaning of the query -----

  /** A row reads as the head does under the bindings: its constants, what they give its variables, and nothing for a
      variable they do not bind. */
  ghost predicate Grounds(head: seq<QueryTerm>, b: Bindings, answer: seq<Option<Term>>) {
    && |answer| == |head|
    && forall i :: 0 <= i < |head| ==>
         (head[i].Constant? ==> answer[i] == Some(head[i].value))
         && (head[i].Variable? && head[i].name in b ==> answer[i] == Some(b[head[i].name]))
         && (head[i].Variable? && head[i].name !in b ==> answer[i] == None)
  }

  lemma GroundsIff(head: seq<QueryTerm>, b: Bindings, answer: seq<Option<Term>>)
    ensures Grounds(head, b, answer) <==> answer == GroundRow(head, b)
  {
    var row := GroundRow(head, b);
    if Grounds(head, b, answer) {
      forall i | 0 <= i < |head| ensures answer[i] == row[i] {
      }
    }
  }

  /** A row answers the query for one triple. */
  ghost predicate AnswersFor(arguments: seq<QueryTerm>, head: seq<QueryTerm>, t: Term, answer: seq<Option<Term>>)
    requires |arguments| == 3
  {
    t.Triple? && exists b: Bindings {:trigger IsMatch(arguments, RowOf(t), b)} ::
      IsMatch(arguments, RowOf(t), b) && Grounds(head, b, answer)
  }

  lemma AnswerIsGrounded(arguments: seq<QueryTerm>, head: seq<QueryTerm>, t: Term, answer: seq<Option<Term>>)
    requires |arguments| == 3 && t.Triple?
    ensures AnswersFor(arguments, head, t, answer) <==>
      (match MatchRow(arguments, RowOf(t)) case None => false case Some(b) => answer == GroundRow(head, b))
  {
    hide IsMatch, MatchRow, GroundRow, Grounds, RowOf;
    match MatchRow(arguments, RowOf(t))
    case Some(b) =>
      MatchRowIsExact(arguments, RowOf(t), b);
      GroundsIff(head, b, answer);
      if other: Bindings :| IsMatch(arguments, RowOf(t), other) && Grounds(head, other, answer) {
        MatchRowIsExact(arguments, RowOf(t), other);
      }
    case None =>
      if other: Bindings :| IsMatch(arguments, RowOf(t), other) && Grounds(head, other, answer) {
        MatchRowIsExact(arguments, RowOf(t), other);
      }
  }

  lemma {:induction false} CollectIsExact(
      tb: Table, arguments: seq<QueryTerm>, head: seq<QueryTerm>, handles: seq<nat>, answer: seq<Option<Term>>)
    requires Ordered(tb) && |arguments| == 3 && NameTriples(tb, handles)
    ensures answer in Collect(tb, arguments, head, handles) <==>
      exists x :: x in handles && NamesTriple(tb, x) && AnswersFor(arguments, head, Resolve(tb, x), answer)
  {
    hide AnswersFor, Resolve, Ordered, MatchRow, GroundRow, RowOf;
    if handles != [] {
      var n := |handles| - 1;
      CollectIsExact(tb, arguments, head, handles[..n], answer);
      AnswerIsGrounded(arguments, head, Resolve(tb, handles[n]), answer);
      assert handles == handles[..n] + [handles[n]];
      assert forall x :: x in handles <==> x in handles[..n] || x == handles[n];
    }
  }

  /** A match agrees with the constants. */
  lemma AnswerAgrees(arguments: seq<QueryTerm>, head: seq<QueryTerm>, t: Term, answer: seq<Option<Term>>)
    requires |arguments| == 3 && AnswersFor(arguments, head, t, answer)
    ensures Agrees(arguments, t)
  {
    hide Grounds;
    var b: Bindings :| IsMatch(arguments, RowOf(t), b) && Grounds(head, b, answer);
    assert forall i :: 0 <= i < 3 ==> AgreesAt(arguments[i], RowOf(t)[i]);
  }

  /** A term has a live stack exactly when some assertion of it is live. */
  lemma LiveTermHasStack(s: Store, t: Term)
    requires Consistent(s)
    ensures s.Stack(t) != [] <==> exists p: nat :: Live(s, p) && s.rows[p].proposition == t
  {
    StackOfMeetsSpec(s.rows, t);
    assert s.Stack(t) == StackOf(s.rows, t);
    if s.Stack(t) != [] {
      var p := s.Stack(t)[0];
      assert IsLayer(s.rows, t, p, |s.Stack(t)| - 1);
      assert Live(s, p);
    }
  }

  /** Live triples by handle are live triples by term. */
  lemma LiveByHandle(h: Hashes, log: Log, s: Store, t: Term)
    requires Mirrors(h, log, s) && Consistent(s)
    ensures (exists x :: NamesTriple(log.table, x) && Resolve(log.table, x) == t && log.actives.Positions(h, x) != [])
      <==> exists p: nat :: Live(s, p) && s.rows[p].proposition == t
  {
    hide Consistent, WellIndexed, Resolve, Find, Live;
    LiveTermHasStack(s, t);
    if s.Stack(t) != [] {
      var x :| NamesTriple(log.table, x) && Resolve(log.table, x) == t;
      assert log.actives.Positions(h, x) == s.Stack(t);
    }
  }

  /** For a store whose fold is closed, the fast path serves exactly the heads grounded by matching
      the pattern against every live triple. */
  lemma FastPathKeepsMeaning(h: Hashes, log: Log, s: Store, arguments: seq<QueryTerm>, head: seq<QueryTerm>,
      answer: seq<Option<Term>>)
    requires Mirrors(h, log, s) && Consistent(s) && !log.actives.folding && |arguments| == 3
    ensures answer in OneTripleRows(h, log, arguments, head) <==>
      exists p: nat :: Live(s, p) && AnswersFor(arguments, head, s.rows[p].proposition, answer)
  {
    var handles := CandidateHandles(h, log, arguments);
    CandidatesNameTriples(h, log, arguments);
    CollectIsExact(log.table, arguments, head, handles, answer);
    hide SameRows, SameStacks, Consistent, WellIndexed, CandidateHandles, Resolve, Find, Live, AnswersFor, Agrees, Collect;
    if answer in OneTripleRows(h, log, arguments, head) {
      var x :| x in handles && NamesTriple(log.table, x) && AnswersFor(arguments, head, Resolve(log.table, x), answer);
      CandidatesAreExact(h, log, arguments, x);
      LiveByHandle(h, log, s, Resolve(log.table, x));
    }
    if p: nat :| Live(s, p) && AnswersFor(arguments, head, s.rows[p].proposition, answer) {
      var t := s.rows[p].proposition;
      LiveByHandle(h, log, s, t);
      var x :| NamesTriple(log.table, x) && Resolve(log.table, x) == t && log.actives.Positions(h, x) != [];
      AnswerAgrees(arguments, head, t, answer);
      CandidatesAreExact(h, log, arguments, x);
    }
  }

  /** After any replayed history, whatever the host's hashes, the fast path answers the query over the
      assertions that are live. */
  lemma ServesEveryHistory(h: Hashes, space: Octets, atoms: nat, triples: nat, buckets: nat, fs: seq<Frame>,
      arguments: seq<QueryTerm>, head: seq<QueryTerm>, answer: seq<Option<Term>>)
    requires ReplayAll(NewStore(space), fs).Ok? && |arguments| == 3
    ensures var s := ReplayAll(NewStore(space), fs).value;
      var log := ReplayLog(h, NewLog(atoms, triples, buckets), fs);
      && WellFormedLog(h, log)
      && (answer in OneTripleRows(h, log, arguments, head) <==>
            (exists p: nat :: Live(s, p) && AnswersFor(arguments, head, s.rows[p].proposition, answer)))
  {
    hide ReplayAll, ReplayLog, SameRows, SameStacks, WellIndexed, OneTripleRows, AnswersFor, Live;
    NewMirrors(h, space, atoms, triples, buckets);
    ReplayMirrors(h, NewLog(atoms, triples, buckets), NewStore(space), fs);
    ReplayConsistent(NewStore(space), fs);
    FastPathKeepsMeaning(h, ReplayLog(h, NewLog(atoms, triples, buckets), fs), ReplayAll(NewStore(space), fs).value,
      arguments, head, answer);
  }

  /** While a fold is open the fast path serves nothing, so it is right exactly when there is no answer. */
  lemma FoldingServesNothing(h: Hashes, log: Log, arguments: seq<QueryTerm>, head: seq<QueryTerm>)
    requires WellFormedLog(h, log) && log.actives.folding && |arguments| == 3
    ensures OneTripleRows(h, log, arguments, head) == {}
  {
    hide CandidateHandles, WellIndexed;
    FoldingHasNoCandidates(h, log, arguments);
  }
}
