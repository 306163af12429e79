/** Transaction and occurrence coordinates, and the kernel predicates built on them. */
module Coordinates {
  import opened Bytes
  import opened Terms
  import opened Frames
  import opened TermStore

  const TX_SEQUENCE := Keyword(Ascii("kernel/tx-sequence"))
  const OP_ORDINAL := Keyword(Ascii("kernel/op-ordinal"))
  const RECORDED_AT := Keyword(Ascii("kernel/recorded-at"))
  const ASSERTED_BY := Keyword(Ascii("kernel/asserted-by"))
  const SOURCE_FRAME := Keyword(Ascii("kernel/source-frame"))
  const SUPERSEDES := Keyword(Ascii("kernel/supersedes"))
  const LEASE := Keyword(Ascii("kernel/lease"))
  const EXPIRES_AT := Keyword(Ascii("kernel/expires-at"))

  function TransactionCoordinate(space: Octets, sequence: int): Term {
    Triple(Text(space), TX_SEQUENCE, Int(sequence))
  }

  predicate IsTransactionCoordinate(t: Term) {
    && t.Triple? && t.t1.Text? && t.t1.text != []
    && t.t2 == TX_SEQUENCE && t.t3.Int? && t.t3.value >= 0
  }

  function OccurrenceCoordinate(transaction: Term, ordinal: nat): Term {
    Triple(transaction, OP_ORDINAL, Int(ordinal))
  }

  predicate IsOccurrenceCoordinate(t: Term) {
    t.Triple? && IsTransactionCoordinate(t.t1) && t.t2 == OP_ORDINAL && t.t3.Int? && t.t3.value >= 0
  }

  /** The coordinate of the operation recorded at a row. */
  function RowCoordinate(space: Octets, row: Row): Term {
    OccurrenceCoordinate(TransactionCoordinate(space, row.sequence), row.ordinal)
  }

  function CoordinateAt(s: Store, p: nat): Term
    requires p < |s.rows|
  {
    RowCoordinate(s.space, s.rows[p])
  }

  predicate Resolves(s: Store, coordinate: Term) {
    exists p :: 0 <= p < |s.rows| && CoordinateAt(s, p) == coordinate
  }

  // ----- live and effective occurrences -----

  predicate Ascending(xs: seq<nat>) {
    forall i, j :: 0 <= i < j < |xs| ==> xs[i] < xs[j]
  }

  predicate Within(s: Store, positions: seq<nat>) {
    forall i :: 0 <= i < |positions| ==> positions[i] < |s.rows|
  }

  /** The live positions below `n`, in coordinate order. */
  function LiveBelow(s: Store, n: nat): (live: seq<nat>)
    requires n <= |s.rows|
    ensures forall p: nat :: p in live <==> p < n && Live(s, p)
  {
    if n == 0 then [] else LiveBelow(s, n - 1) + (if Live(s, n - 1) then [n - 1] else [])
  }

  lemma {:induction false} LiveBelowAscends(s: Store, n: nat)
    requires n <= |s.rows|
    ensures Ascending(LiveBelow(s, n)) && Within(s, LiveBelow(s, n))
  {
    if n > 0 {
      LiveBelowAscends(s, n - 1);
      var before := LiveBelow(s, n - 1);
      forall i | 0 <= i < |before| ensures before[i] < n - 1 {
        assert before[i] in before;
      }
    }
  }

  function LivePositions(s: Store): (live: seq<nat>)
    ensures Ascending(live) && Within(s, live)
    ensures forall p: nat :: p in live <==> Live(s, p)
  {
    LiveBelowAscends(s, |s.rows|);
    LiveBelow(s, |s.rows|)
  }

  function Propositions(s: Store, positions: seq<nat>): (xs: seq<Term>)
    requires Within(s, positions)
    ensures |xs| == |positions|
    ensures forall i :: 0 <= i < |xs| ==> xs[i] == s.rows[positions[i]].proposition
  {
    seq(|positions|, i requires 0 <= i < |positions| => s.rows[positions[i]].proposition)
  }

  predicate IsSupersession(t: Term) {
    t.Triple? && IsOccurrenceCoordinate(t.t1) && t.t2 == SUPERSEDES && IsOccurrenceCoordinate(t.t3)
  }

  /** Row `q` is live and says `coordinate` was replaced. */
  predicate Suppressor(s: Store, q: nat, coordinate: Term) {
    q < |s.rows| && Live(s, q) && IsSupersession(s.rows[q].proposition) && s.rows[q].proposition.t3 == coordinate
  }

  predicate Suppressed(s: Store, coordinate: Term) {
    exists q :: 0 <= q < |s.rows| && Suppressor(s, q, coordinate)
  }

  predicate Effective(s: Store, p: nat) {
    Live(s, p) && !Suppressed(s, CoordinateAt(s, p))
  }

  function EffectiveAmong(s: Store, positions: seq<nat>): (r: seq<nat>)
    ensures forall p :: p in r <==> p in positions && Effective(s, p)
  {
    if positions == [] then [] else
    var n := |positions| - 1;
    EffectiveAmong(s, positions[..n]) + (if Effective(s, positions[n]) then [positions[n]] else [])
  }

  lemma {:induction false} EffectiveAmongAscends(s: Store, positions: seq<nat>)
    requires Ascending(positions) && Within(s, positions)
    ensures Ascending(EffectiveAmong(s, positions)) && Within(s, EffectiveAmong(s, positions))
  {
    if positions != [] {
      var n := |positions| - 1;
      EffectiveAmongAscends(s, positions[..n]);
      var before := EffectiveAmong(s, positions[..n]);
      forall i | 0 <= i < |before| ensures before[i] < positions[n] {
        assert before[i] in before;
      }
    }
  }

  /** The occurrences a reader sees, in coordinate order: live and not superseded. */
  function EffectivePositions(s: Store): (r: seq<nat>)
    ensures Ascending(r) && Within(s, r)
    ensures forall p: nat :: p in r <==> Effective(s, p)
  {
    EffectiveAmongAscends(s, LivePositions(s));
    EffectiveAmong(s, LivePositions(s))
  }
}
