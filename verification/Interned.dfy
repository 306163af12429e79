/** Hash-consed terms: every atom and every triple of handles is stored once and named by a handle,
    even for an atom and odd for a triple. */
module Interned {
  import opened Bytes
  import opened Terms
  import opened SlotIndex

  datatype TripleRow = TripleRow(t1: nat, t2: nat, t3: nat)

  /** The host's hash of each kind of row; nothing is assumed of it. */
  datatype Hashes = Hashes(term: Term -> int, row: TripleRow -> int, handle: nat -> int)

  datatype Table = Table(atoms: Index<Term>, triples: Index<TripleRow>)

  function NewTable(expectedAtoms: nat, expectedTriples: nat): Table {
    Table(NewIndex(expectedAtoms), NewIndex(expectedTriples))
  }

  function AtomHandle(position: nat): nat { 2 * position }

  function TripleHandle(position: nat): nat { 2 * position + 1 }

  predicate IsAtomHandle(handle: nat) { handle % 2 == 0 }

  function PositionOf(handle: nat): nat { handle / 2 }

  /** A handle that names an atom, or a triple stored before position `below`. */
  predicate Prior(tb: Table, below: nat, handle: nat) {
    if IsAtomHandle(handle) then PositionOf(handle) < |tb.atoms.rows| else PositionOf(handle) < below
  }

  predicate ValidHandle(tb: Table, handle: nat) {
    Prior(tb, |tb.triples.rows|, handle)
  }

  predicate PriorRow(tb: Table, below: nat, row: TripleRow) {
    Prior(tb, below, row.t1) && Prior(tb, below, row.t2) && Prior(tb, below, row.t3)
  }

  /** Atoms are atoms, and a triple refers only to what was stored before it. */
  predicate Ordered(tb: Table) {
    && (forall p :: 0 <= p < |tb.atoms.rows| ==> !tb.atoms.rows[p].Triple?)
    && (forall p :: 0 <= p < |tb.triples.rows| ==> PriorRow(tb, p, tb.triples.rows[p]))
  }

  predicate Slotted(tb: Table) {
    |tb.atoms.slots| > 0 && |tb.triples.slots| > 0
  }

  /** What every table is, interned or loaded: its rows are in order and can be found. */
  ghost predicate IndexedTable(h: Hashes, tb: Table) {
    Slotted(tb) && Ordered(tb) && Covers(h.term, tb.atoms) && Covers(h.row, tb.triples)
  }

  /** No row is stored twice. */
  ghost predicate NoRepeats(tb: Table) {
    Distinct(tb.atoms.rows) && Distinct(tb.triples.rows)
  }

  ghost predicate WellFormedTable(h: Hashes, tb: Table) {
    Slotted(tb) && Ordered(tb) && WellIndexed(h.term, tb.atoms) && WellIndexed(h.row, tb.triples)
  }

  lemma WellFormedIsIndexed(h: Hashes, tb: Table)
    ensures WellFormedTable(h, tb) <==> IndexedTable(h, tb) && NoRepeats(tb)
  {
  }

  /** The rows of one table begin those of another. */
  ghost predicate Grows(tb: Table, more: Table) {
    tb.atoms.rows <= more.atoms.rows && tb.triples.rows <= more.triples.rows
  }

  /** The term a handle names. */
  function Resolve(tb: Table, handle: nat): (t: Term)
    requires Ordered(tb) && ValidHandle(tb, handle)
    ensures t.Triple? <==> !IsAtomHandle(handle)
    decreases if IsAtomHandle(handle) then 0 else PositionOf(handle) + 1
  {
    if IsAtomHandle(handle) then tb.atoms.rows[PositionOf(handle)] else
    var row := tb.triples.rows[PositionOf(handle)];
    Triple(Resolve(tb, row.t1), Resolve(tb, row.t2), Resolve(tb, row.t3))
  }

  /** The handle of a stored term, found from its parts up. */
  function TermHandle(h: Hashes, tb: Table, t: Term): Option<nat>
    requires Slotted(tb)
  {
    if t.Triple? then
      var t1, t2, t3 := TermHandle(h, tb, t.t1), TermHandle(h, tb, t.t2), TermHandle(h, tb, t.t3);
      if t1.None? || t2.None? || t3.None? then None else
      match Find(h.row, tb.triples, TripleRow(t1.value, t2.value, t3.value))
      case None => None
      case Some(p) => Some(TripleHandle(p))
    else
      match Find(h.term, tb.atoms, t)
      case None => None
      case Some(p) => Some(AtomHandle(p))
  }

  /** Stores a triple row unless it is known. */
  function InternRow(h: Hashes, tb: Table, row: TripleRow): (r: (Table, nat))
    requires Slotted(tb)
    ensures Slotted(r.0)
  {
    match Find(h.row, tb.triples, row)
    case Some(p) => (tb, TripleHandle(p))
    case None => (tb.(triples := Append(h.row, tb.triples, row)), TripleHandle(|tb.triples.rows|))
  }

  function InternAtom(h: Hashes, tb: Table, t: Term): (r: (Table, nat))
    requires Slotted(tb)
    ensures Slotted(r.0)
  {
    match Find(h.term, tb.atoms, t)
    case Some(p) => (tb, AtomHandle(p))
    case None => (tb.(atoms := Append(h.term, tb.atoms, t)), AtomHandle(|tb.atoms.rows|))
  }

  /** Stores a term and every part of it, each at most once. */
  function Intern(h: Hashes, tb: Table, t: Term): (r: (Table, nat))
    requires Slotted(tb)
    ensures Slotted(r.0)
    decreases t
  {
    if t.Triple? then
      var (tb1, t1) := Intern(h, tb, t.t1);
      var (tb2, t2) := Intern(h, tb1, t.t2);
      var (tb3, t3) := Intern(h, tb2, t.t3);
      InternRow(h, tb3, TripleRow(t1, t2, t3))
    else
      InternAtom(h, tb, t)
  }

  // ----- handles and terms are inverse -----

  lemma AtomKnown(h: Hashes, tb: Table, t: Term, x: nat)
    requires WellFormedTable(h, tb) && !t.Triple?
    ensures TermHandle(h, tb, t) == Some(x) <==>
      IsAtomHandle(x) && PositionOf(x) < |tb.atoms.rows| && tb.atoms.rows[PositionOf(x)] == t
  {
    FindIsExact(h.term, tb.atoms, t);
  }

  lemma RowKnown(h: Hashes, tb: Table, row: TripleRow, x: nat)
    requires WellFormedTable(h, tb)
    ensures (match Find(h.row, tb.triples, row) case None => false case Some(p) => TripleHandle(p) == x) <==>
      (!IsAtomHandle(x) && PositionOf(x) < |tb.triples.rows| && tb.triples.rows[PositionOf(x)] == row)
  {
    FindIsExact(h.row, tb.triples, row);
  }

  lemma RowResolves(tb: Table, p: nat, row: TripleRow)
    requires Ordered(tb) && p < |tb.triples.rows| && tb.triples.rows[p] == row
    ensures ValidHandle(tb, TripleHandle(p)) && ValidHandle(tb, row.t1) && ValidHandle(tb, row.t2) && ValidHandle(tb, row.t3)
    ensures Resolve(tb, TripleHandle(p)) == Triple(Resolve(tb, row.t1), Resolve(tb, row.t2), Resolve(tb, row.t3))
  {
    assert PriorRow(tb, p, row);
  }

  /** A term that is found is what its handle names. */
  lemma {:induction false} KnownResolves(h: Hashes, tb: Table, t: Term, x: nat)
    requires IndexedTable(h, tb) && TermHandle(h, tb, t) == Some(x)
    ensures ValidHandle(tb, x) && Resolve(tb, x) == t
    decreases t
  {
    hide Find, Covers, Ordered;
    if t.Triple? {
      hide Resolve;
      var t1, t2, t3 := TermHandle(h, tb, t.t1).value, TermHandle(h, tb, t.t2).value, TermHandle(h, tb, t.t3).value;
      KnownResolves(h, tb, t.t1, t1);
      KnownResolves(h, tb, t.t2, t2);
      KnownResolves(h, tb, t.t3, t3);
      FindIsFound(h.row, tb.triples, TripleRow(t1, t2, t3));
      RowResolves(tb, Find(h.row, tb.triples, TripleRow(t1, t2, t3)).value, TripleRow(t1, t2, t3));
    } else {
      FindIsFound(h.term, tb.atoms, t);
    }
  }

  lemma {:induction false} ResolvedIsKnown(h: Hashes, tb: Table, x: nat)
    requires WellFormedTable(h, tb) && ValidHandle(tb, x)
    ensures TermHandle(h, tb, Resolve(tb, x)) == Some(x)
    decreases if IsAtomHandle(x) then 0 else PositionOf(x) + 1
  {
    hide Find;
    if IsAtomHandle(x) {
      AtomKnown(h, tb, Resolve(tb, x), x);
    } else {
      var row := tb.triples.rows[PositionOf(x)];
      ResolvedIsKnown(h, tb, row.t1);
      ResolvedIsKnown(h, tb, row.t2);
      ResolvedIsKnown(h, tb, row.t3);
      RowKnown(h, tb, row, x);
    }
  }

  /** Looking a term up and resolving a handle undo each other, so every stored term has one handle. */
  lemma HandlesAreInverse(h: Hashes, tb: Table, t: Term, x: nat)
    requires WellFormedTable(h, tb)
    ensures TermHandle(h, tb, t) == Some(x) <==> ValidHandle(tb, x) && Resolve(tb, x) == t
  {
    hide TermHandle, Resolve, Covers, Distinct, Ordered;
    if TermHandle(h, tb, t) == Some(x) {
      KnownResolves(h, tb, t, x);
    } else if ValidHandle(tb, x) {
      ResolvedIsKnown(h, tb, x);
    }
  }

  /** The tables a dump's rows are loaded into: the slots are built afresh, and repeats are kept. */
  function LoadedTable(h: Hashes, atoms: seq<Term>, rows: seq<TripleRow>): Table {
    Table(Index(atoms, BuildSlots(h.term, atoms, WidthFor(|atoms|, INITIAL_SLOTS))),
          Index(rows, BuildSlots(h.row, rows, WidthFor(|rows|, INITIAL_SLOTS))))
  }

  lemma LoadedIsIndexed(h: Hashes, atoms: seq<Term>, rows: seq<TripleRow>)
    requires Ordered(LoadedTable(h, atoms, rows))
    ensures IndexedTable(h, LoadedTable(h, atoms, rows))
  {
    hide BuildSlots, Covers, Ordered;
    BuiltCovers(h.term, atoms, WidthFor(|atoms|, INITIAL_SLOTS));
    BuiltCovers(h.row, rows, WidthFor(|rows|, INITIAL_SLOTS));
  }

  ghost predicate EachIsFound(h: Hashes, tb: Table)
    requires Slotted(tb) && Ordered(tb)
  {
    forall x: nat :: ValidHandle(tb, x) ==> TermHandle(h, tb, Resolve(tb, x)) == Some(x)
  }

  /** On a table that may hold repeats, every handle is found again exactly when no row is stored twice. */
  lemma EachIsFoundIff(h: Hashes, tb: Table)
    requires IndexedTable(h, tb)
    ensures EachIsFound(h, tb) <==> NoRepeats(tb)
  {
    hide TermHandle, Resolve, Covers, Ordered;
    WellFormedIsIndexed(h, tb);
    if NoRepeats(tb) {
      forall x: nat | ValidHandle(tb, x) ensures TermHandle(h, tb, Resolve(tb, x)) == Some(x) {
        ResolvedIsKnown(h, tb, x);
      }
    }
    if EachIsFound(h, tb) {
      forall i, j | 0 <= i < j < |tb.atoms.rows| ensures tb.atoms.rows[i] != tb.atoms.rows[j] {
        assert ValidHandle(tb, AtomHandle(i)) && ValidHandle(tb, AtomHandle(j));
        SameRowSameTerm(tb, AtomHandle(i), AtomHandle(j));
      }
      forall i, j | 0 <= i < j < |tb.triples.rows| ensures tb.triples.rows[i] != tb.triples.rows[j] {
        assert ValidHandle(tb, TripleHandle(i)) && ValidHandle(tb, TripleHandle(j));
        SameRowSameTerm(tb, TripleHandle(i), TripleHandle(j));
      }
    }
  }

  lemma SameRowSameTerm(tb: Table, x: nat, y: nat)
    requires Ordered(tb) && ValidHandle(tb, x) && ValidHandle(tb, y) && (IsAtomHandle(x) <==> IsAtomHandle(y))
    ensures (if IsAtomHandle(x) then tb.atoms.rows[PositionOf(x)] == tb.atoms.rows[PositionOf(y)]
             else tb.triples.rows[PositionOf(x)] == tb.triples.rows[PositionOf(y)]) ==> Resolve(tb, x) == Resolve(tb, y)
  {
  }

  // ----- interning -----

  lemma GrowsValid(tb: Table, more: Table, x: nat)
    requires Grows(tb, more) && ValidHandle(tb, x)
    ensures ValidHandle(more, x)
  {
  }

  /** A handle keeps its meaning in every later table. */
  lemma {:induction false} ResolveIsStable(tb: Table, more: Table, x: nat)
    requires Ordered(tb) && Ordered(more) && Grows(tb, more) && ValidHandle(tb, x)
    ensures ValidHandle(more, x) && Resolve(more, x) == Resolve(tb, x)
    decreases if IsAtomHandle(x) then 0 else PositionOf(x) + 1
  {
    if !IsAtomHandle(x) {
      var row := tb.triples.rows[PositionOf(x)];
      ResolveIsStable(tb, more, row.t1);
      ResolveIsStable(tb, more, row.t2);
      ResolveIsStable(tb, more, row.t3);
    }
  }

  /** What interning promises: a larger table in which the handle names the term, its rows still in order,
      findable, and without repeats if there were none. */
  ghost predicate Interns(h: Hashes, tb: Table, t: Term, more: Table, x: nat) {
    && IndexedTable(h, more) && Grows(tb, more) && (NoRepeats(tb) ==> NoRepeats(more))
    && ValidHandle(more, x) && Resolve(more, x) == t
  }

  lemma InternAtomMeets(h: Hashes, tb: Table, t: Term)
    requires IndexedTable(h, tb) && !t.Triple?
    ensures Interns(h, tb, t, InternAtom(h, tb, t).0, InternAtom(h, tb, t).1)
  {
    hide Find, Covers, Append;
    FindIsFound(h.term, tb.atoms, t);
    AppendKeepsCovers(h.term, tb.atoms, t);
  }

  lemma InternRowOrdered(h: Hashes, tb: Table, row: TripleRow)
    requires IndexedTable(h, tb) && PriorRow(tb, |tb.triples.rows|, row)
    ensures var (more, x) := InternRow(h, tb, row);
      && IndexedTable(h, more) && Grows(tb, more) && (NoRepeats(tb) ==> NoRepeats(more))
      && !IsAtomHandle(x) && PositionOf(x) < |more.triples.rows| && more.triples.rows[PositionOf(x)] == row
  {
    hide Find, Covers, Append;
    FindIsFound(h.row, tb.triples, row);
    AppendKeepsCovers(h.row, tb.triples, row);
  }

  lemma InternRowMeets(h: Hashes, tb: Table, row: TripleRow)
    requires IndexedTable(h, tb) && PriorRow(tb, |tb.triples.rows|, row)
    ensures var t := Triple(Resolve(tb, row.t1), Resolve(tb, row.t2), Resolve(tb, row.t3));
      Interns(h, tb, t, InternRow(h, tb, row).0, InternRow(h, tb, row).1)
  {
    hide InternRow, Covers, NoRepeats;
    InternRowOrdered(h, tb, row);
    var more := InternRow(h, tb, row).0;
    ResolveIsStable(tb, more, row.t1);
    ResolveIsStable(tb, more, row.t2);
    ResolveIsStable(tb, more, row.t3);
  }

  lemma InternsThenGrows(h: Hashes, tb: Table, t: Term, more: Table, x: nat, later: Table)
    requires Interns(h, tb, t, more, x) && IndexedTable(h, later) && Grows(more, later)
    requires NoRepeats(more) ==> NoRepeats(later)
    ensures Interns(h, tb, t, later, x)
  {
    hide Covers, NoRepeats;
    ResolveIsStable(more, later, x);
  }

  lemma GrowsTransitive(a: Table, b: Table, c: Table)
    requires Grows(a, b) && Grows(b, c)
    ensures Grows(a, c)
  {
  }

  lemma {:induction false} InternMeets(h: Hashes, tb: Table, t: Term)
    requires IndexedTable(h, tb)
    ensures Interns(h, tb, t, Intern(h, tb, t).0, Intern(h, tb, t).1)
    decreases t
  {
    hide Resolve, Covers, NoRepeats, Grows, InternRow, InternAtom, Ordered;
    if t.Triple? {
      var (tb1, t1) := Intern(h, tb, t.t1);
      InternMeets(h, tb, t.t1);
      var (tb2, t2) := Intern(h, tb1, t.t2);
      InternMeets(h, tb1, t.t2);
      var (tb3, t3) := Intern(h, tb2, t.t3);
      InternMeets(h, tb2, t.t3);
      GrowsTransitive(tb1, tb2, tb3);
      InternsThenGrows(h, tb, t.t1, tb1, t1, tb3);
      InternsThenGrows(h, tb1, t.t2, tb2, t2, tb3);
      InternRowMeets(h, tb3, TripleRow(t1, t2, t3));
      GrowsTransitive(tb, tb3, InternRow(h, tb3, TripleRow(t1, t2, t3)).0);
    } else {
      InternAtomMeets(h, tb, t);
    }
  }

  /** Interning a stored term stores nothing and finds its handle. */
  lemma {:induction false} InternKnown(h: Hashes, tb: Table, t: Term, x: nat)
    requires Slotted(tb) && TermHandle(h, tb, t) == Some(x)
    ensures Intern(h, tb, t) == (tb, x)
    decreases t
  {
    hide Find;
    if t.Triple? {
      InternKnown(h, tb, t.t1, TermHandle(h, tb, t.t1).value);
      InternKnown(h, tb, t.t2, TermHandle(h, tb, t.t2).value);
      InternKnown(h, tb, t.t3, TermHandle(h, tb, t.t3).value);
    }
  }

  /** The store's table cells, updated in place. */
  class Interner {
    const hashes: Hashes
    var atoms: Index<Term>
    var triples: Index<TripleRow>

    constructor (hashes: Hashes, expectedAtoms: nat, expectedTriples: nat)
      ensures Valid() && Tables() == NewTable(expectedAtoms, expectedTriples) && this.hashes == hashes
    {
      this.hashes := hashes;
      atoms, triples := NewIndex(expectedAtoms), NewIndex(expectedTriples);
    }

    ghost predicate Valid()
      reads this
    {
      IndexedTable(hashes, Tables())
    }

    function Tables(): Table
      reads this
    {
      Table(atoms, triples)
    }

    /** Stores a term; the handle names it, and earlier handles keep their meaning. */
    method Store(t: Term) returns (x: nat)
      requires Valid()
      modifies this
      ensures Valid() && (Tables(), x) == Intern(hashes, old(Tables()), t)
      ensures Interns(hashes, old(Tables()), t, Tables(), x)
      decreases t
    {
      InternMeets(hashes, Tables(), t);
      hide IndexedTable, Interns, Find, Append;
      if t.Triple? {
        InternMeets(hashes, Tables(), t.t1);
        var t1 := Store(t.t1);
        var t2 := Store(t.t2);
        var t3 := Store(t.t3);
        var row := TripleRow(t1, t2, t3);
        match Find(hashes.row, triples, row)
        case Some(known) => x := TripleHandle(known);
        case None =>
          x := TripleHandle(|triples.rows|);
          triples := Append(hashes.row, triples, row);
      } else {
        match Find(hashes.term, atoms, t)
        case Some(known) => x := AtomHandle(known);
        case None =>
          x := AtomHandle(|atoms.rows|);
          atoms := Append(hashes.term, atoms, t);
      }
    }
  }
}
