/** The vector of rows the fast path serves: the answers in the order of their keys. */
module ServedOrder {
  import opened Bytes
  import opened Terms
  import opened Frames
  import opened TermStore
  import opened Interned
  import opened InternedLog
  import opened FastPath
  import opened RowOrder
  import Paging

  /** `rows` lists a set in whatever order the host's set gives it. */
  ghost predicate Enumerates(rows: seq<QueryRow>, s: set<QueryRow>) {
    Paging.Distinct(rows) && forall row :: row in rows <==> row in s
  }

  /** What any listing of the fast path's rows is served as: exactly the answers over the live triples, once
      each, in strictly ascending order of their keys, so a cursor finds each row where it is. */
  lemma ServedInKeyOrder(sp: Spelling, h: Hashes, log: Log, s: Store, arguments: seq<QueryTerm>, head: seq<QueryTerm>,
                         enumeration: seq<QueryRow>)
    requires sp.Valid() && Mirrors(h, log, s) && Consistent(s) && !log.actives.folding && |arguments| == 3
    requires Enumerates(enumeration, OneTripleRows(h, log, arguments, head))
    ensures var rows := SortByKey(sp, enumeration);
      && Ascending(sp, rows) && Paging.Locatable(rows, Paging.ByRow)
      && forall answer :: answer in rows <==> (exists p: nat :: Answers(s, p, arguments, head, answer))
  {
    hide SortByKey, Ascending, OneTripleRows, Mirrors, Consistent, AnswersFor;
    SortByKeySorts(sp, enumeration);
    var rows := SortByKey(sp, enumeration);
    AscendingIsDistinct(sp, rows);
    forall answer ensures answer in rows <==> (exists p: nat :: Answers(s, p, arguments, head, answer)) {
      assert answer in rows <==> answer in multiset(rows);
      assert answer in enumeration <==> answer in multiset(enumeration);
      FastPathKeepsMeaning(h, log, s, arguments, head, answer);
      if p: nat :| Live(s, p) && AnswersFor(arguments, head, s.rows[p].proposition, answer) {
        assert Answers(s, p, arguments, head, answer);
      }
    }
  }

  /** The assertion at `p` is live and answers the query with this row. */
  ghost predicate Answers(s: Store, p: nat, arguments: seq<QueryTerm>, head: seq<QueryTerm>, answer: QueryRow)
    requires |arguments| == 3
  {
    Live(s, p) && AnswersFor(arguments, head, s.rows[p].proposition, answer)
  }

  /** The same propositions are live in both stores. */
  ghost predicate SameLive(s: Store, t: Store) {
    forall x :: LiveTerm(s, x) <==> LiveTerm(t, x)
  }

  ghost predicate LiveTerm(s: Store, x: Term) {
    exists p: nat :: Live(s, p) && s.rows[p].proposition == x
  }

  lemma AnswersFollowLive(s: Store, t: Store, arguments: seq<QueryTerm>, head: seq<QueryTerm>, answer: QueryRow, p: nat)
    requires SameLive(s, t) && |arguments| == 3 && Answers(s, p, arguments, head, answer)
    ensures exists q: nat :: Answers(t, q, arguments, head, answer)
  {
    hide AnswersFor;
    assert LiveTerm(s, s.rows[p].proposition);
    var q: nat :| Live(t, q) && t.rows[q].proposition == s.rows[p].proposition;
    assert Answers(t, q, arguments, head, answer);
  }

  /** The rows served are a function of the live propositions alone: two stores with the same ones, however
      they came by them, whatever their hashes and however their sets are listed, serve the same vector. */
  lemma ServedFollowsLive(sp: Spelling, h: Hashes, log: Log, s: Store, g: Hashes, other: Log, t: Store,
                          arguments: seq<QueryTerm>, head: seq<QueryTerm>, first: seq<QueryRow>, second: seq<QueryRow>)
    requires sp.Valid() && |arguments| == 3 && SameLive(s, t)
    requires Mirrors(h, log, s) && Consistent(s) && !log.actives.folding
    requires Mirrors(g, other, t) && Consistent(t) && !other.actives.folding
    requires Enumerates(first, OneTripleRows(h, log, arguments, head))
    requires Enumerates(second, OneTripleRows(g, other, arguments, head))
    ensures SortByKey(sp, first) == SortByKey(sp, second)
  {
    hide SortByKey, Ascending, OneTripleRows, Mirrors, Consistent, Live, AnswersFor, SameLive, Answers, Paging.Locatable;
    ServedInKeyOrder(sp, h, log, s, arguments, head, first);
    ServedInKeyOrder(sp, g, other, t, arguments, head, second);
    var a, b := SortByKey(sp, first), SortByKey(sp, second);
    forall answer ensures answer in a <==> answer in b {
      if p: nat :| Answers(s, p, arguments, head, answer) {
        AnswersFollowLive(s, t, arguments, head, answer, p);
      }
      if q: nat :| Answers(t, q, arguments, head, answer) {
        SameLiveBack(s, t);
        AnswersFollowLive(t, s, arguments, head, answer, q);
      }
    }
    OneOrder(sp, a, b);
  }

  lemma SameLiveBack(s: Store, t: Store)
    requires SameLive(s, t)
    ensures SameLive(t, s)
  {
  }

  /** A history as the host has it in memory: its hashes, the slots its tables start with, and the frames. */
  datatype History = History(h: Hashes, atoms: nat, triples: nat, buckets: nat, space: Octets, frames: seq<Frame>)
  {
    predicate Replays() { ReplayAll(NewStore(space), frames).Ok? }

    function StoreOf(): Store requires Replays() { ReplayAll(NewStore(space), frames).value }

    function LogOf(): Log { ReplayLog(h, NewLog(atoms, triples, buckets), frames) }
  }

  lemma HistoryMirrors(x: History)
    requires x.Replays()
    ensures Mirrors(x.h, x.LogOf(), x.StoreOf()) && Consistent(x.StoreOf()) && !x.LogOf().actives.folding
  {
    hide Mirrors, ReplayAll, ReplayLog;
    NewMirrors(x.h, x.space, x.atoms, x.triples, x.buckets);
    ReplayMirrors(x.h, NewLog(x.atoms, x.triples, x.buckets), NewStore(x.space), x.frames);
    ReplayConsistent(NewStore(x.space), x.frames);
  }

  /** The rows found after a history. */
  ghost function RowsAfter(x: History, arguments: seq<QueryTerm>, head: seq<QueryTerm>): set<QueryRow>
    requires x.Replays() && |arguments| == 3
  {
    HistoryMirrors(x);
    OneTripleRows(x.h, x.LogOf(), arguments, head)
  }

  /** After any two histories that leave the same propositions live, the query is answered alike. */
  lemma HistoriesServeAlike(sp: Spelling, x: History, y: History, arguments: seq<QueryTerm>, head: seq<QueryTerm>,
                            first: seq<QueryRow>, second: seq<QueryRow>)
    requires sp.Valid() && |arguments| == 3 && x.Replays() && y.Replays() && SameLive(x.StoreOf(), y.StoreOf())
    requires Enumerates(first, RowsAfter(x, arguments, head)) && Enumerates(second, RowsAfter(y, arguments, head))
    ensures SortByKey(sp, first) == SortByKey(sp, second)
  {
    hide SortByKey, OneTripleRows, Mirrors, Consistent, SameLive, Enumerates, ReplayAll, ReplayLog;
    HistoryMirrors(x);
    HistoryMirrors(y);
    ServedFollowsLive(sp, x.h, x.LogOf(), x.StoreOf(), y.h, y.LogOf(), y.StoreOf(), arguments, head, first, second);
  }
}
