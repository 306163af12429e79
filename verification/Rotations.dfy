/** The covering index: six bucket maps over one list of live assertion occurrences. */
module Rotations {
  import opened Bytes
  import opened Terms
  import opened Frames
  import opened Requests

  type Buckets<K> = map<K, seq<Occurrence>>

  datatype Index = Index(
    events: seq<Occurrence>,
    members: set<Occurrence>,
    t1: Buckets<Term>, t2: Buckets<Term>, t3: Buckets<Term>,
    t12: Buckets<(Term, Term)>, t23: Buckets<(Term, Term)>, t13: Buckets<(Term, Term)>)

  const EMPTY := Index([], {}, map[], map[], map[], map[], map[], map[])

  /** What the index accepts: assertion occurrences, whose propositions are triples. */
  predicate IsAssertion(e: Occurrence) {
    e.action.Assert? && e.proposition.Triple?
  }

  function Slot1(e: Occurrence): Term { if e.proposition.Triple? then e.proposition.t1 else e.proposition }

  function Slot2(e: Occurrence): Term { if e.proposition.Triple? then e.proposition.t2 else e.proposition }

  function Slot3(e: Occurrence): Term { if e.proposition.Triple? then e.proposition.t3 else e.proposition }

  function Slot12(e: Occurrence): (Term, Term) { (Slot1(e), Slot2(e)) }

  function Slot23(e: Occurrence): (Term, Term) { (Slot2(e), Slot3(e)) }

  function Slot13(e: Occurrence): (Term, Term) { (Slot1(e), Slot3(e)) }

  function Get<K>(m: Buckets<K>, k: K): seq<Occurrence> {
    if k in m then m[k] else []
  }

  function BucketAdd<K>(m: Buckets<K>, k: K, e: Occurrence): Buckets<K> {
    m[k := Get(m, k) + [e]]
  }

  function Without(events: seq<Occurrence>, e: Occurrence): seq<Occurrence> {
    if events == [] then [] else
    var n := |events| - 1;
    Without(events[..n], e) + (if events[n] == e then [] else [events[n]])
  }

  function BucketDel<K>(m: Buckets<K>, k: K, e: Occurrence): Buckets<K> {
    var remaining := Without(Get(m, k), e);
    if remaining == [] then m - {k} else m[k := remaining]
  }

  /** Adds one occurrence; an exception leaves the index as it was. */
  function Add(x: Index, e: Occurrence): Index {
    if !IsAssertion(e) || e in x.members then x else
    Index(x.events + [e], x.members + {e},
      BucketAdd(x.t1, Slot1(e), e), BucketAdd(x.t2, Slot2(e), e), BucketAdd(x.t3, Slot3(e), e),
      BucketAdd(x.t12, Slot12(e), e), BucketAdd(x.t23, Slot23(e), e), BucketAdd(x.t13, Slot13(e), e))
  }

  function Del(x: Index, e: Occurrence): Index {
    if !IsAssertion(e) || e !in x.members then x else
    Index(Without(x.events, e), x.members - {e},
      BucketDel(x.t1, Slot1(e), e), BucketDel(x.t2, Slot2(e), e), BucketDel(x.t3, Slot3(e), e),
      BucketDel(x.t12, Slot12(e), e), BucketDel(x.t23, Slot23(e), e), BucketDel(x.t13, Slot13(e), e))
  }

  datatype Change = Added(e: Occurrence) | Deleted(e: Occurrence)

  function Apply(x: Index, changes: seq<Change>): Index
    decreases |changes|
  {
    if changes == [] then x else
    var before := Apply(x, changes[..|changes| - 1]);
    match changes[|changes| - 1]
    case Added(e) => Add(before, e)
    case Deleted(e) => Del(before, e)
  }

  datatype Pattern = Pattern(t1: Option<Term>, t2: Option<Term>, t3: Option<Term>)

  function Equal(events: seq<Occurrence>, x: Term): seq<Occurrence> {
    if events == [] then [] else
    var n := |events| - 1;
    Equal(events[..n], x) + (if events[n].proposition == x then [events[n]] else [])
  }

  /** Each bound subset of the slots has its own bucket; all three bound filters the whole list. */
  function Matching(x: Index, p: Pattern): seq<Occurrence> {
    if p.t1.Some? && p.t2.Some? && p.t3.Some? then Equal(x.events, Triple(p.t1.value, p.t2.value, p.t3.value)) else
    if p.t1.Some? && p.t2.Some? then Get(x.t12, (p.t1.value, p.t2.value)) else
    if p.t2.Some? && p.t3.Some? then Get(x.t23, (p.t2.value, p.t3.value)) else
    if p.t1.Some? && p.t3.Some? then Get(x.t13, (p.t1.value, p.t3.value)) else
    if p.t1.Some? then Get(x.t1, p.t1.value) else
    if p.t2.Some? then Get(x.t2, p.t2.value) else
    if p.t3.Some? then Get(x.t3, p.t3.value) else x.events
  }

  // ----- what the index means -----

  /** The list the index stands for: changes applied to a plain list of distinct occurrences. */
  function Listed(changes: seq<Change>): seq<Occurrence>
    decreases |changes|
  {
    if changes == [] then [] else
    var before := Listed(changes[..|changes| - 1]);
    match changes[|changes| - 1]
    case Added(e) => if IsAssertion(e) && e !in before then before + [e] else before
    case Deleted(e) => if IsAssertion(e) then Without(before, e) else before
  }

  predicate Fits(p: Pattern, e: Occurrence) {
    && (p.t1.Some? ==> p.t1.value == Slot1(e))
    && (p.t2.Some? ==> p.t2.value == Slot2(e))
    && (p.t3.Some? ==> p.t3.value == Slot3(e))
  }

  /** The occurrences a pattern fits, in order. */
  function Where(events: seq<Occurrence>, p: Pattern): seq<Occurrence> {
    if events == [] then [] else
    var n := |events| - 1;
    Where(events[..n], p) + (if Fits(p, events[n]) then [events[n]] else [])
  }

  function Keyed<K(==)>(events: seq<Occurrence>, key: Occurrence -> K, k: K): seq<Occurrence> {
    if events == [] then [] else
    var n := |events| - 1;
    Keyed(events[..n], key, k) + (if key(events[n]) == k then [events[n]] else [])
  }

  /** Every bucket holds exactly the events with its key, in order, and no bucket is empty. */
  ghost predicate Covers<K(!new)>(m: Buckets<K>, events: seq<Occurrence>, key: Occurrence -> K) {
    && (forall k :: Get(m, k) == Keyed(events, key, k))
    && (forall k :: k in m ==> m[k] != [])
  }

  ghost predicate Singles(x: Index) {
    Covers(x.t1, x.events, Slot1) && Covers(x.t2, x.events, Slot2) && Covers(x.t3, x.events, Slot3)
  }

  ghost predicate Pairs(x: Index) {
    Covers(x.t12, x.events, Slot12) && Covers(x.t23, x.events, Slot23) && Covers(x.t13, x.events, Slot13)
  }

  ghost predicate Members(x: Index) {
    && (forall e :: e in x.members <==> e in x.events)
    && (forall e :: e in x.events ==> IsAssertion(e))
  }

  ghost predicate Covering(x: Index) {
    Members(x) && Singles(x) && Pairs(x)
  }

  lemma AddCovers<K(!new)>(m: Buckets<K>, events: seq<Occurrence>, key: Occurrence -> K, e: Occurrence)
    requires Covers(m, events, key)
    ensures Covers(BucketAdd(m, key(e), e), events + [e], key)
  {
    var t := BucketAdd(m, key(e), e);
    assert (events + [e])[..|events|] == events;
    forall k ensures Get(t, k) == Keyed(events + [e], key, k) {
      assert Get(m, k) == Keyed(events, key, k);
    }
  }

  lemma {:induction false} WithoutKeyed<K>(events: seq<Occurrence>, key: Occurrence -> K, k: K, e: Occurrence)
    ensures Keyed(Without(events, e), key, k) == Without(Keyed(events, key, k), e)
    decreases |events|
  {
    if events != [] {
      var n := |events| - 1;
      WithoutKeyed(events[..n], key, k, e);
      var before, last := Without(events[..n], e), events[n];
      if last != e {
        assert (before + [last])[..|before|] == before;
      }
      var kept := Keyed(events[..n], key, k);
      if key(last) == k {
        assert (kept + [last])[..|kept|] == kept;
      } else {
        assert kept + [] == kept;
      }
      assert before + [] == before;
    }
  }

  lemma {:induction false} WithoutAbsent(events: seq<Occurrence>, e: Occurrence)
    requires e !in events
    ensures Without(events, e) == events
  {
    if events != [] {
      WithoutAbsent(events[..|events| - 1], e);
    }
  }

  lemma {:induction false} KeyedHasKey<K>(events: seq<Occurrence>, key: Occurrence -> K, k: K, e: Occurrence)
    ensures e in Keyed(events, key, k) ==> key(e) == k && e in events
  {
    if events != [] {
      KeyedHasKey(events[..|events| - 1], key, k, e);
    }
  }

  lemma DelCovers<K(!new)>(m: Buckets<K>, events: seq<Occurrence>, key: Occurrence -> K, e: Occurrence)
    requires Covers(m, events, key)
    ensures Covers(BucketDel(m, key(e), e), Without(events, e), key)
  {
    var t := BucketDel(m, key(e), e);
    forall k ensures Get(t, k) == Keyed(Without(events, e), key, k) {
      assert Get(m, k) == Keyed(events, key, k);
      WithoutKeyed(events, key, k, e);
      KeyedHasKey(events, key, k, e);
      if k != key(e) {
        WithoutAbsent(Keyed(events, key, k), e);
      }
    }
  }

  lemma {:induction false} WithoutMembers(events: seq<Occurrence>, e: Occurrence, x: Occurrence)
    ensures x in Without(events, e) <==> x in events && x != e
  {
    if events != [] {
      WithoutMembers(events[..|events| - 1], e, x);
      assert events == events[..|events| - 1] + [events[|events| - 1]];
    }
  }

  lemma AddKeepsCovering(x: Index, e: Occurrence)
    requires Covering(x)
    ensures Covering(Add(x, e))
  {
    if IsAssertion(e) && e !in x.members {
      AddKeepsSingles(x, e);
      AddKeepsPairs(x, e);
      AddKeepsMembers(x, e);
      hide Singles, Pairs, Members;
    }
  }

  lemma AddKeepsMembers(x: Index, e: Occurrence)
    requires Members(x) && IsAssertion(e) && e !in x.members
    ensures Members(Add(x, e))
  {
    hide BucketAdd;
    var events := x.events + [e];
    forall y ensures y in events <==> y in x.events || y == e {}
  }

  lemma AddKeepsSingles(x: Index, e: Occurrence)
    requires Singles(x) && IsAssertion(e) && e !in x.members
    ensures Singles(Add(x, e))
  {
    hide Covers, BucketAdd;
    AddCovers(x.t1, x.events, Slot1, e);
    AddCovers(x.t2, x.events, Slot2, e);
    AddCovers(x.t3, x.events, Slot3, e);
  }

  lemma AddKeepsPairs(x: Index, e: Occurrence)
    requires Pairs(x) && IsAssertion(e) && e !in x.members
    ensures Pairs(Add(x, e))
  {
    hide Covers, BucketAdd;
    AddCovers(x.t12, x.events, Slot12, e);
    AddCovers(x.t23, x.events, Slot23, e);
    AddCovers(x.t13, x.events, Slot13, e);
  }

  lemma DelKeepsCovering(x: Index, e: Occurrence)
    requires Covering(x)
    ensures Covering(Del(x, e))
  {
    if IsAssertion(e) && e in x.members {
      DelKeepsSingles(x, e);
      DelKeepsPairs(x, e);
      DelKeepsMembers(x, e);
      hide Singles, Pairs, Members;
    }
  }

  lemma DelKeepsMembers(x: Index, e: Occurrence)
    requires Members(x) && IsAssertion(e) && e in x.members
    ensures Members(Del(x, e))
  {
    hide Without, BucketDel;
    forall y ensures y in Without(x.events, e) <==> y in x.events && y != e {
      WithoutMembers(x.events, e, y);
    }
  }

  lemma DelKeepsSingles(x: Index, e: Occurrence)
    requires Singles(x) && IsAssertion(e) && e in x.members
    ensures Singles(Del(x, e))
  {
    hide Covers, Without, BucketDel;
    DelCovers(x.t1, x.events, Slot1, e);
    DelCovers(x.t2, x.events, Slot2, e);
    DelCovers(x.t3, x.events, Slot3, e);
  }

  lemma DelKeepsPairs(x: Index, e: Occurrence)
    requires Pairs(x) && IsAssertion(e) && e in x.members
    ensures Pairs(Del(x, e))
  {
    hide Covers, Without, BucketDel;
    DelCovers(x.t12, x.events, Slot12, e);
    DelCovers(x.t23, x.events, Slot23, e);
    DelCovers(x.t13, x.events, Slot13, e);
  }

  lemma {:induction false} EqualIsWhere(events: seq<Occurrence>, p: Pattern)
    requires p.t1.Some? && p.t2.Some? && p.t3.Some? && forall e :: e in events ==> IsAssertion(e)
    ensures Equal(events, Triple(p.t1.value, p.t2.value, p.t3.value)) == Where(events, p)
  {
    if events != [] {
      EqualIsWhere(events[..|events| - 1], p);
      assert IsAssertion(events[|events| - 1]);
    }
  }

  lemma {:induction false} KeyedIsWhere<K>(events: seq<Occurrence>, key: Occurrence -> K, k: K, p: Pattern)
    requires forall e :: key(e) == k <==> Fits(p, e)
    ensures Keyed(events, key, k) == Where(events, p)
  {
    if events != [] {
      KeyedIsWhere(events[..|events| - 1], key, k, p);
    }
  }

  lemma {:induction false} AllAreWhere(events: seq<Occurrence>)
    ensures Where(events, Pattern(None, None, None)) == events
  {
    if events != [] {
      AllAreWhere(events[..|events| - 1]);
    }
  }

  /** The bucket chosen for any of the eight shapes of pattern is exactly the filter of the whole list. */
  lemma MatchingIsWhere(x: Index, p: Pattern)
    requires Covering(x)
    ensures Matching(x, p) == Where(x.events, p)
  {
    if p.t1.Some? && p.t2.Some? && p.t3.Some? {
      EqualIsWhere(x.events, p);
    } else if p.t1.Some? && p.t2.Some? {
      KeyedIsWhere(x.events, Slot12, (p.t1.value, p.t2.value), p);
    } else if p.t2.Some? && p.t3.Some? {
      KeyedIsWhere(x.events, Slot23, (p.t2.value, p.t3.value), p);
    } else if p.t1.Some? && p.t3.Some? {
      KeyedIsWhere(x.events, Slot13, (p.t1.value, p.t3.value), p);
    } else if p.t1.Some? {
      KeyedIsWhere(x.events, Slot1, p.t1.value, p);
    } else if p.t2.Some? {
      KeyedIsWhere(x.events, Slot2, p.t2.value, p);
    } else if p.t3.Some? {
      KeyedIsWhere(x.events, Slot3, p.t3.value, p);
    } else {
      AllAreWhere(x.events);
    }
  }

  lemma {:induction false} IndexFollowsList(changes: seq<Change>)
    ensures Covering(Apply(EMPTY, changes)) && Apply(EMPTY, changes).events == Listed(changes)
    decreases |changes|
  {
    if changes != [] {
      var n := |changes| - 1;
      IndexFollowsList(changes[..n]);
      var before := Apply(EMPTY, changes[..n]);
      match changes[n]
      case Added(e) => AddKeepsCovering(before, e);
      case Deleted(e) =>
        DelKeepsCovering(before, e);
        if e !in before.events {
          WithoutAbsent(before.events, e);
        }
    }
  }

  /** After any additions and deletions, every pattern gives exactly the listed occurrences it fits, in order. */
  lemma IndexRefinesFilter(changes: seq<Change>, p: Pattern)
    ensures Matching(Apply(EMPTY, changes), p) == Where(Listed(changes), p)
  {
    hide Covering, Matching;
    IndexFollowsList(changes);
    MatchingIsWhere(Apply(EMPTY, changes), p);
  }
}
