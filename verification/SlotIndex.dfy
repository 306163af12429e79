/** An append-only list of distinct rows with a hash index: every slot lists the positions whose row
    hashes to it. A fork of a store shares the slot cells, so a slot may also list positions that
    mean something only to the other store. */
module SlotIndex {
  import opened Bytes

  const INITIAL_SLOTS := 64
  const SLOT_LOAD := 4

  datatype Index<R> = Index(rows: seq<R>, slots: seq<seq<nat>>)

  /** The slot count for an expected number of rows, doubling from `width`. */
  function WidthFor(expected: nat, width: nat): (w: nat)
    requires width > 0
    ensures w >= width && SLOT_LOAD * w >= expected
    decreases expected - SLOT_LOAD * width
  {
    if SLOT_LOAD * width >= expected then width else WidthFor(expected, 2 * width)
  }

  function FreshSlots(width: nat): (slots: seq<seq<nat>>)
    ensures |slots| == width && forall i :: 0 <= i < width ==> slots[i] == []
  {
    seq(width, i => [])
  }

  function NewIndex<R>(expected: nat): Index<R> {
    Index([], FreshSlots(WidthFor(expected, INITIAL_SLOTS)))
  }

  function SlotOf(hash: int, width: nat): (slot: nat)
    requires width > 0
    ensures slot < width
  {
    hash % width
  }

  function AddPosition(slots: seq<seq<nat>>, slot: nat, position: nat): seq<seq<nat>>
    requires slot < |slots|
  {
    slots[slot := slots[slot] + [position]]
  }

  /** Indexes every row afresh over `width` slots. */
  function BuildSlots<R>(hash: R -> int, rows: seq<R>, width: nat): (slots: seq<seq<nat>>)
    requires width > 0
    ensures |slots| == width
  {
    if rows == [] then FreshSlots(width) else
    var n := |rows| - 1;
    AddPosition(BuildSlots(hash, rows[..n], width), SlotOf(hash(rows[n]), width), n)
  }

  function FirstMatch<R(==)>(rows: seq<R>, positions: seq<nat>, value: R): (p: Option<nat>)
    ensures p.Some? ==> p.value < |rows| && rows[p.value] == value
    ensures p.None? ==> forall k :: k in positions && k < |rows| ==> rows[k] != value
  {
    if positions == [] then None else
    if positions[0] < |rows| && rows[positions[0]] == value then Some(positions[0]) else
    FirstMatch(rows, positions[1..], value)
  }

  /** Looks a row up through its slot. */
  function Find<R(==)>(hash: R -> int, index: Index<R>, value: R): Option<nat>
    requires |index.slots| > 0
  {
    FirstMatch(index.rows, index.slots[SlotOf(hash(value), |index.slots|)], value)
  }

  /** Adds a row, rehashing into twice the slots once the load is exceeded. */
  function Append<R>(hash: R -> int, index: Index<R>, value: R): (r: Index<R>)
    requires |index.slots| > 0
    ensures r.rows == index.rows + [value] && |r.slots| > 0
  {
    var rows, width := index.rows + [value], |index.slots|;
    if |rows| > SLOT_LOAD * width then Index(rows, BuildSlots(hash, rows, 2 * width))
    else Index(rows, AddPosition(index.slots, SlotOf(hash(value), width), |index.rows|))
  }

  /** Every row is listed in its own slot. */
  ghost predicate Covers<R>(hash: R -> int, index: Index<R>) {
    && |index.slots| > 0
    && forall i :: 0 <= i < |index.rows| ==> i in index.slots[SlotOf(hash(index.rows[i]), |index.slots|)]
  }

  ghost predicate Distinct<R>(rows: seq<R>) {
    forall i, j :: 0 <= i < j < |rows| ==> rows[i] != rows[j]
  }

  ghost predicate WellIndexed<R>(hash: R -> int, index: Index<R>) {
    Covers(hash, index) && Distinct(index.rows)
  }

  /** At most four rows for each slot there is. */
  predicate Loaded<R>(index: Index<R>) { |index.rows| <= 4 * |index.slots| }

  function Doubled(width: nat, k: nat): nat {
    if k == 0 then width else 2 * Doubled(width, k - 1)
  }

  lemma {:induction false} WidthIsLeast(expected: nat, width: nat) returns (k: nat)
    requires width > 0
    ensures WidthFor(expected, width) == Doubled(width, k)
    ensures k > 0 ==> 4 * Doubled(width, k - 1) < expected
    decreases expected - 4 * width
  {
    if 4 * width >= expected {
      k := 0;
    } else {
      var j := WidthIsLeast(expected, 2 * width);
      k := j + 1;
      DoubledTwice(width, j);
      if j > 0 {
        DoubledTwice(width, j - 1);
      }
    }
  }

  lemma {:induction false} DoubledTwice(width: nat, k: nat)
    ensures Doubled(2 * width, k) == Doubled(width, k + 1)
  {
    if k > 0 {
      DoubledTwice(width, k - 1);
    }
  }

  /** A new index has the fewest slots, doubling from 64, for the rows expected at four a slot. */
  lemma NewIsSized<R>(expected: nat) returns (k: nat)
    ensures |NewIndex<R>(expected).slots| == Doubled(64, k) && expected <= 4 * Doubled(64, k)
    ensures k > 0 ==> 4 * Doubled(64, k - 1) < expected
  {
    k := WidthIsLeast(expected, 64);
  }

  /** Adding a row keeps the load, doubling the slots exactly when it would be exceeded. */
  lemma AppendKeepsLoad<R>(hash: R -> int, index: Index<R>, value: R)
    requires |index.slots| > 0 && Loaded(index)
    ensures var r := Append(hash, index, value);
      Loaded(r) && |r.slots| == if |index.rows| == 4 * |index.slots| then 2 * |index.slots| else |index.slots|
  {
  }

  lemma NewIsIndexed<R>(hash: R -> int, expected: nat)
    ensures WellIndexed(hash, NewIndex<R>(expected))
  {
  }

  /** A lookup fails exactly when there is no such row, and what it finds is one. */
  lemma FindIsFound<R>(hash: R -> int, index: Index<R>, value: R)
    requires Covers(hash, index)
    ensures Find(hash, index, value).None? <==> value !in index.rows
    ensures forall p: nat :: Find(hash, index, value) == Some(p) ==> p < |index.rows| && index.rows[p] == value
  {
    var found := Find(hash, index, value);
    forall p: nat | p < |index.rows| && index.rows[p] == value ensures found.Some? {
      assert p in index.slots[SlotOf(hash(value), |index.slots|)];
    }
  }

  /** A lookup answers with the position of the row, and fails exactly when there is none: the slots
      decide nothing else, whatever the hash and whatever foreign positions they list. */
  lemma FindIsExact<R>(hash: R -> int, index: Index<R>, value: R)
    requires WellIndexed(hash, index)
    ensures Find(hash, index, value).None? <==> value !in index.rows
    ensures forall p: nat :: Find(hash, index, value) == Some(p) <==> p < |index.rows| && index.rows[p] == value
  {
    hide Find, Covers;
    FindIsFound(hash, index, value);
  }

  lemma {:induction false} BuiltCovers<R>(hash: R -> int, rows: seq<R>, width: nat)
    requires width > 0
    ensures Covers(hash, Index(rows, BuildSlots(hash, rows, width)))
  {
    if rows != [] {
      var n := |rows| - 1;
      BuiltCovers(hash, rows[..n], width);
      var before := BuildSlots(hash, rows[..n], width);
      forall i | 0 <= i < |rows| ensures i in BuildSlots(hash, rows, width)[SlotOf(hash(rows[i]), width)] {
        if i < n {
          assert rows[..n][i] == rows[i] && i in before[SlotOf(hash(rows[i]), width)];
        }
      }
    }
  }

  /** Positions another store lists in a shared cell take nothing away. */
  lemma ForeignPositionsAreHarmless<R>(hash: R -> int, index: Index<R>, slot: nat, position: nat, value: R)
    requires WellIndexed(hash, index) && slot < |index.slots|
    ensures var shared := index.(slots := AddPosition(index.slots, slot, position));
      WellIndexed(hash, shared) && Find(hash, shared, value) == Find(hash, index, value)
  {
    var shared := index.(slots := AddPosition(index.slots, slot, position));
    assert WellIndexed(hash, shared);
    FindIsExact(hash, index, value);
    FindIsExact(hash, shared, value);
  }

  lemma AppendKeepsCovers<R>(hash: R -> int, index: Index<R>, value: R)
    requires Covers(hash, index)
    ensures Covers(hash, Append(hash, index, value))
  {
    var rows, width := index.rows + [value], |index.slots|;
    if |rows| > SLOT_LOAD * width {
      BuiltCovers(hash, rows, 2 * width);
    }
  }

  lemma AppendKeepsIndexed<R>(hash: R -> int, index: Index<R>, value: R)
    requires WellIndexed(hash, index) && value !in index.rows
    ensures WellIndexed(hash, Append(hash, index, value))
  {
    hide Covers;
    AppendKeepsCovers(hash, index, value);
  }
}
