/** Exactly what a landing build evicts: the oldest of a full snapshot, the oldest snapshots, and then as few of
    the oldest entries as bring the weight within its limit. */
module CacheEviction {
  import opened Bytes
  import opened ResultCache

  // ----- recency -----

  /** `ys` is `xs` with `x` taken to its end. */
  ghost predicate MovedLast<T>(xs: seq<T>, x: T, ys: seq<T>) {
    || (x !in xs && ys == xs + [x])
    || (exists i :: 0 <= i < |xs| && xs[i] == x && ys == xs[..i] + xs[i + 1..] + [x])
  }

  lemma {:induction false} WithoutNone<T>(xs: seq<T>, gone: set<T>)
    requires forall x :: x in xs ==> x !in gone
    ensures Without(xs, gone) == xs
  {
    if xs != [] {
      WithoutNone(xs[1..], gone);
    }
  }

  lemma {:induction false} WithoutAt<T>(xs: seq<T>, i: nat)
    requires Distinct(xs) && i < |xs|
    ensures Without(xs, {xs[i]}) == xs[..i] + xs[i + 1..]
  {
    if i == 0 {
      WithoutNone(xs[1..], {xs[0]});
    } else {
      WithoutAt(xs[1..], i - 1);
      assert xs[1..][..i - 1] == xs[1..i] && xs[1..][i..] == xs[i + 1..];
      assert xs[..i] == [xs[0]] + xs[1..i];
    }
  }

  lemma TouchedIsLast<T>(xs: seq<T>, x: T)
    requires Distinct(xs)
    ensures MovedLast(xs, x, Without(xs, {x}) + [x])
  {
    if x in xs {
      var i :| 0 <= i < |xs| && xs[i] == x;
      WithoutAt(xs, i);
    } else {
      WithoutNone(xs, {x});
    }
  }

  /** A hit makes its key, and its snapshot, the most recently used, and moves nothing else. */
  lemma TouchIsRecent<R>(c: Cache<R>, k: Key)
    requires Listed(c)
    ensures var t := Touch(c, k);
      && MovedLast(c.lru, k, t.lru) && MovedLast(c.versionLru, k.snapshot, t.versionLru)
      && t == c.(lru := t.lru, versionLru := t.versionLru)
  {
    TouchedIsLast(c.lru, k);
    TouchedIsLast(c.versionLru, k.snapshot);
  }

  // ----- dropping from a list -----

  lemma {:induction false} WithoutTwice<T>(xs: seq<T>, a: set<T>, b: set<T>)
    ensures Without(Without(xs, a), b) == Without(xs, a + b)
  {
    if xs != [] {
      WithoutTwice(xs[1..], a, b);
      var rest := Without(xs[1..], a);
      assert ([xs[0]] + rest)[1..] == rest && [] + rest == rest;
    }
  }

  lemma {:induction false} OfSnapshotSplit(a: seq<Key>, b: seq<Key>, s: Snapshot)
    ensures OfSnapshot(a + b, s) == OfSnapshot(a, s) + OfSnapshot(b, s)
  {
    if a == [] {
      assert a + b == b;
    } else {
      OfSnapshotSplit(a[1..], b, s);
      assert (a + b)[1..] == a[1..] + b;
      var first := if a[0].snapshot == s then [a[0]] else [];
      assert first + (OfSnapshot(a[1..], s) + OfSnapshot(b, s)) == (first + OfSnapshot(a[1..], s)) + OfSnapshot(b, s);
    }
  }

  /** Where a key stands among those of its snapshot: as many come after it there as in the whole list. */
  lemma PlaceInSnapshot(order: seq<Key>, i: nat)
    requires i < |order|
    ensures var keys, later := OfSnapshot(order, order[i].snapshot), OfSnapshot(order[i + 1..], order[i].snapshot);
      |later| < |keys| && keys[|keys| - 1 - |later|] == order[i]
  {
    var s := order[i].snapshot;
    assert order == order[..i] + ([order[i]] + order[i + 1..]);
    OfSnapshotSplit(order[..i], [order[i]] + order[i + 1..], s);
    OfSnapshotSplit([order[i]], order[i + 1..], s);
    assert [order[i]][1..] == [];
  }

  // ----- one snapshot -----

  /** At least eight keys of its snapshot were used after it. */
  predicate Crowded(order: seq<Key>, i: nat)
    requires i < |order|
  {
    |OfSnapshot(order[i + 1..], order[i].snapshot)| >= 8
  }

  lemma TrimmedIffCrowded(order: seq<Key>, i: nat)
    requires i < |order| && Distinct(order)
    ensures var keys := OfSnapshot(order, order[i].snapshot);
      order[i] in Elements(keys[..Excess(|keys|, PER_SNAPSHOT)]) <==> Crowded(order, i)
  {
    var s := order[i].snapshot;
    var keys, later := OfSnapshot(order, s), OfSnapshot(order[i + 1..], s);
    PlaceInSnapshot(order, i);
    OfSnapshotMembers(order, s);
    var n, p := Excess(|keys|, PER_SNAPSHOT), |keys| - 1 - |later|;
    hide OfSnapshot;
    if p < n {
      assert keys[..n][p] == order[i];
    }
    if order[i] in keys[..n] {
      var q :| 0 <= q < n && keys[..n][q] == order[i];
      assert q == p;
    }
  }

  // ----- the oldest snapshots -----

  /** The snapshot is one of the four most recently used. */
  ghost predicate Recent(versions: seq<Snapshot>, s: Snapshot) {
    exists j :: 0 <= j < |versions| && versions[j] == s && |versions| - j <= 4
  }

  lemma OldIffTrimmed(versions: seq<Snapshot>, s: Snapshot)
    requires Distinct(versions) && s in versions
    ensures s in versions[..Excess(|versions|, SNAPSHOTS)] <==> !Recent(versions, s)
  {
    var n := Excess(|versions|, SNAPSHOTS);
    var j :| 0 <= j < |versions| && versions[j] == s;
    assert j < n ==> versions[..n][j] == s;
    assert j >= n ==> versions[j] == s && |versions| - j <= 4;
  }

  // ----- the two together -----

  /** What the count limits drop from a list of keys in the order of their last use. */
  ghost predicate Dropped(order: seq<Key>, versions: seq<Snapshot>, i: nat)
    requires i < |order|
  {
    Crowded(order, i) || !Recent(versions, order[i].snapshot)
  }

  /** `kept` is the rest, in order. */
  ghost predicate Keeps(order: seq<Key>, versions: seq<Snapshot>, kept: seq<Key>) {
    exists gone: set<Key> :: kept == Without(order, gone)
      && forall i: nat :: i < |order| ==> (order[i] in gone <==> Dropped(order, versions, i))
  }

  lemma TrimSnapshotLru<R>(c: Cache<R>, s: Snapshot)
    ensures var keys := OfSnapshot(c.lru, s);
      TrimSnapshot(c, s).lru == Without(c.lru, Elements(keys[..Excess(|keys|, PER_SNAPSHOT)]))
    ensures TrimSnapshot(c, s).versionLru == Within(c.versionLru, SnapshotsOf(TrimSnapshot(c, s).entries.Keys))
  {
    hide OfSnapshot, Without, Within, Weight;
  }

  /** Trimming one snapshot loses no snapshot. */
  lemma TrimSnapshotKeepsVersions<R>(c: Cache<R>, s: Snapshot)
    requires Listed(c)
    ensures TrimSnapshot(c, s).versionLru == c.versionLru
  {
    hide Within, Without, Distinct, Weight, OfSnapshot;
    var t := TrimSnapshot(c, s);
    TrimSnapshotLru(c, s);
    forall v | v in c.versionLru ensures v in SnapshotsOf(t.entries.Keys) {
      assert Holds(c.entries.Keys, v);
      StillHolds(c, s, v);
      SnapshotsHold(t.entries.Keys, v);
    }
    WithinAll(c.versionLru, SnapshotsOf(t.entries.Keys));
  }

  lemma {:induction false} WithinAll<T>(xs: seq<T>, kept: set<T>)
    requires forall x :: x in xs ==> x in kept
    ensures Within(xs, kept) == xs
  {
    if xs != [] {
      WithinAll(xs[1..], kept);
    }
  }

  lemma StillHolds<R>(c: Cache<R>, s: Snapshot, v: Snapshot)
    requires Listed(c) && Holds(c.entries.Keys, v)
    ensures Holds(TrimSnapshot(c, s).entries.Keys, v)
  {
    var keys, t := OfSnapshot(c.lru, s), TrimSnapshot(c, s);
    var n := Excess(|keys|, PER_SNAPSHOT);
    OfSnapshotMembers(c.lru, s);
    hide OfSnapshot, Within, Without, Weight;
    if v != s {
      var k :| k in c.entries.Keys && k.snapshot == v;
      assert forall x :: x in keys[..n] ==> x in keys;
      assert k !in Elements(keys[..n]);
      assert k in t.entries.Keys;
    } else {
      var x :| x in c.entries.Keys && x.snapshot == v;
      assert x in keys;
      var k := keys[|keys| - 1];
      assert k in keys && k !in keys[..n];
      assert k in t.entries.Keys && k.snapshot == v;
    }
  }

  /** After both count limits the list holds exactly what they do not drop. */
  lemma CountsKeep<R>(c: Cache<R>, s: Snapshot)
    requires AlmostBounded(c, s) && Listed(c)
    ensures Keeps(c.lru, c.versionLru, TrimVersions(TrimSnapshot(c, s)).lru)
  {
    hide OfSnapshot, Without, Within, Weight, Holds, Crowded, Recent, RemoveEntries, TrimSnapshot;
    var order, versions, one := c.lru, c.versionLru, TrimSnapshot(c, s);
    var keys := OfSnapshot(order, s);
    var first := Elements(keys[..Excess(|keys|, PER_SNAPSHOT)]);
    TrimSnapshotLru(c, s);
    TrimSnapshotKeepsVersions(c, s);
    var old_ := versions[..Excess(|versions|, SNAPSHOTS)];
    var second := set k | k in one.lru && k.snapshot in old_;
    RemovedLru(one, second);
    WithoutTwice(order, first, second);
    WithoutMembers(order, first);
    forall i: nat | i < |order| ensures order[i] in first + second <==> Dropped(order, versions, i) {
      DroppedIff(c, s, i, first, second, old_);
    }
  }

  lemma RemovedLru<R>(c: Cache<R>, gone: set<Key>)
    ensures RemoveEntries(c, gone).lru == Without(c.lru, gone)
  {
    hide Without, Within, Weight;
  }

  lemma DroppedIff<R>(c: Cache<R>, s: Snapshot, i: nat, first: set<Key>, second: set<Key>, old_: seq<Snapshot>)
    requires AlmostBounded(c, s) && Listed(c) && i < |c.lru|
    requires var keys := OfSnapshot(c.lru, s); first == Elements(keys[..Excess(|keys|, PER_SNAPSHOT)])
    requires old_ == c.versionLru[..Excess(|c.versionLru|, SNAPSHOTS)]
    requires forall k :: k in second <==> k in c.lru && k !in first && k.snapshot in old_
    ensures c.lru[i] in first + second <==> Dropped(c.lru, c.versionLru, i)
  {
    var k := c.lru[i];
    assert k in c.lru && k in c.entries.Keys;
    assert Holds(c.entries.Keys, k.snapshot);
    OldIffTrimmed(c.versionLru, k.snapshot);
    FirstIffCrowded(c, s, i);
  }

  lemma FirstIffCrowded<R>(c: Cache<R>, s: Snapshot, i: nat)
    requires AlmostBounded(c, s) && Listed(c) && i < |c.lru|
    ensures var keys := OfSnapshot(c.lru, s);
      c.lru[i] in Elements(keys[..Excess(|keys|, PER_SNAPSHOT)]) <==> Crowded(c.lru, i)
  {
    var keys, k := OfSnapshot(c.lru, s), c.lru[i];
    if k.snapshot == s {
      TrimmedIffCrowded(c.lru, i);
    } else {
      OfSnapshotMembers(c.lru, s);
      PlaceInSnapshot(c.lru, i);
      assert |OfSnapshot(c.lru, k.snapshot)| <= PER_SNAPSHOT;
      hide OfSnapshot;
      assert forall x :: x in keys[..Excess(|keys|, PER_SNAPSHOT)] ==> x in keys;
    }
  }

  // ----- the weight -----

  /** The byte count with only `keys` left. */
  function Total<R>(c: Cache<R>, keys: seq<Key>): int { Drift(c) + Weight(c.entries, keys) }

  /** Dropping the oldest `m` is enough, and dropping fewer is not. */
  ghost predicate Fewest<R>(c: Cache<R>, keys: seq<Key>, m: nat) {
    && m <= |keys| && (m == |keys| || Total(c, keys[m..]) <= 67_108_864)
    && forall j: nat :: j < m ==> Total(c, keys[j..]) > 67_108_864
  }

  lemma {:induction false} BytesDropFewest<R>(c: Cache<R>) returns (m: nat)
    requires Listed(c)
    ensures Fewest(c, c.lru, m) && TrimBytes(c).lru == c.lru[m..]
    decreases |c.lru|
  {
    if c.bytes <= BYTE_LIMIT || c.lru == [] {
      m := 0;
      assert c.lru[0..] == c.lru;
    } else {
      var next := RemoveEntries(c, {c.lru[0]});
      RemoveKeepsListed(c, {c.lru[0]});
      OldestGone(c);
      var n := BytesDropFewest(next);
      m := n + 1;
      assert next.lru[n..] == c.lru[m..];
      OneMoreDropped(c, next, n);
    }
  }

  lemma OldestGone<R>(c: Cache<R>)
    requires Listed(c) && c.lru != []
    ensures RemoveEntries(c, {c.lru[0]}).lru == c.lru[1..]
    ensures RemoveEntries(c, {c.lru[0]}).entries == c.entries - {c.lru[0]}
  {
    WithoutAt(c.lru, 0);
    assert c.lru[..0] + c.lru[1..] == c.lru[1..];
  }

  lemma OneMoreDropped<R>(c: Cache<R>, next: Cache<R>, n: nat)
    requires Listed(c) && c.lru != [] && next.lru == c.lru[1..] && next.entries == c.entries - {c.lru[0]}
    requires Drift(next) == Drift(c) && Fewest(next, next.lru, n) && c.bytes > BYTE_LIMIT
    ensures Fewest(c, c.lru, n + 1)
  {
    hide Drift, Weight, Listed;
    forall j: nat | 1 <= j <= |c.lru| ensures Total(c, c.lru[j..]) == Total(next, next.lru[j - 1..]) {
      SameTotal(c, next, j);
    }
    WholeTotal(c);
    forall j: nat | j < n + 1 ensures Total(c, c.lru[j..]) > BYTE_LIMIT {
      if j == 0 {
        assert c.lru[0..] == c.lru;
      }
    }
  }

  lemma WholeTotal<R>(c: Cache<R>)
    ensures Total(c, c.lru) == c.bytes
  {
  }

  lemma SameTotal<R>(c: Cache<R>, next: Cache<R>, j: nat)
    requires Listed(c) && c.lru != [] && next.lru == c.lru[1..] && next.entries == c.entries - {c.lru[0]}
    requires Drift(next) == Drift(c) && 1 <= j <= |c.lru|
    ensures Total(c, c.lru[j..]) == Total(next, next.lru[j - 1..])
  {
    assert next.lru[j - 1..] == c.lru[j..];
    forall k | k in c.lru[j..] ensures k != c.lru[0] {
      var i :| j <= i < |c.lru| && c.lru[i] == k;
    }
    WeightDepends(c.entries, next.entries, c.lru[j..]);
  }

  // ----- landing -----

  /** What is left of `order` once the counts and then the weight have been brought within their limits. */
  ghost predicate Left<R>(c: Cache<R>, order: seq<Key>, versions: seq<Snapshot>, left: seq<Key>) {
    exists kept, m: nat :: Keeps(order, versions, kept) && Fewest(c, kept, m) && left == kept[m..]
  }

  lemma SameFewest<R>(c: Cache<R>, u: Cache<R>, keys: seq<Key>, m: nat)
    requires Fewest(u, keys, m) && Drift(u) == Drift(c)
    requires forall k :: k in keys ==> (k in u.entries <==> k in c.entries) && (k in u.entries ==> u.entries[k] == c.entries[k])
    ensures Fewest(c, keys, m)
  {
    forall j: nat | j <= |keys| ensures Total(c, keys[j..]) == Total(u, keys[j..]) {
      WeightDepends(c.entries, u.entries, keys[j..]);
    }
  }

  lemma EnforcedExactly<R>(c: Cache<R>, s: Snapshot)
    requires AlmostBounded(c, s)
    ensures Left(c, c.lru, c.versionLru, EnforceBounds(c, s).lru)
    ensures Trimmed(c, EnforceBounds(c, s))
  {
    hide OfSnapshot, Without, Within, Weight, Holds, RemoveEntries, Drift, Distinct, Keeps, Fewest;
    EnforceBoundsBounds(c, s);
    CountsKeep(c, s);
    var one := TrimSnapshot(c, s);
    var keys := OfSnapshot(c.lru, s);
    RemoveTrims(c, Elements(keys[..Excess(|keys|, PER_SNAPSHOT)]));
    var gone := one.versionLru[..Excess(|one.versionLru|, SNAPSHOTS)];
    var two := TrimVersions(one);
    RemoveTrims(one, set k | k in one.lru && k.snapshot in gone);
    var m := BytesDropFewest(two);
    SameFewest(c, two, two.lru, m);
  }

  lemma LastOfSnapshots(versions: seq<Snapshot>, s: Snapshot, more: seq<Snapshot>)
    requires MovedLast(versions, s, more)
    ensures Recent(more, s)
  {
    assert more[|more| - 1] == s;
  }

  lemma {:induction false} WithoutLast<T>(xs: seq<T>, x: T, gone: set<T>)
    requires x !in gone
    ensures Without(xs + [x], gone) == Without(xs, gone) + [x]
  {
    if xs == [] {
      assert xs + [x] == [x] && [x][1..] == [];
    } else {
      assert (xs + [x])[1..] == xs[1..] + [x];
      WithoutLast(xs[1..], x, gone);
    }
  }

  /** The key used last is never dropped for a count: it is the last one kept. */
  lemma LastIsKept(before: seq<Key>, k: Key, order: seq<Key>, was: seq<Snapshot>, versions: seq<Snapshot>, kept: seq<Key>)
    requires MovedLast(before, k, order) && MovedLast(was, k.snapshot, versions) && Keeps(order, versions, kept)
    ensures kept != [] && kept[|kept| - 1] == k
  {
    hide Without;
    var n := |order| - 1;
    assert order[n] == k;
    LastOfSnapshots(was, k.snapshot, versions);
    assert order[n + 1..] == [];
    var gone: set<Key> :| kept == Without(order, gone)
      && forall i: nat :: i < |order| ==> (order[i] in gone <==> Dropped(order, versions, i));
    assert !Dropped(order, versions, n);
    assert order == order[..n] + [k];
    WithoutLast(order[..n], k, gone);
  }

  /** A build that lands on its own generation is made the most recently used. The cache then keeps exactly the keys
      whose snapshot is one of the four used last and that are among the eight of their snapshot used last, less the
      fewest of the oldest that bring the weight within its limit. Nothing else of it changes. */
  lemma LandsExactly<R>(c: Cache<R>, k: Key, rows: R, bytes: nat) returns (order: seq<Key>, versions: seq<Snapshot>)
    requires Listed(c) && Bounded(c) && k.snapshot.generation == c.generation
    ensures MovedLast(c.lru, k, order) && MovedLast(c.versionLru, k.snapshot, versions)
    ensures var e, landed := Entry(rows, bytes), c.(inFlight := c.inFlight - {k});
      var t := CompleteFlight(c, k, rows, bytes);
      && Left(Placed(landed, k, e), order, versions, t.lru)
      && (forall x :: x in t.entries <==> x in t.lru)
      && (forall x :: x in t.entries ==> if x == k then t.entries[x] == e else x in c.entries && t.entries[x] == c.entries[x])
      && t.generation == c.generation && t.inFlight == c.inFlight - {k}
  {
    hide *;
    var landed := c.(inFlight := c.inFlight - {k});
    LandedKeeps(c, landed);
    var e := Entry(rows, bytes);
    var p := Placed(landed, k, e);
    CompletesByRetaining(c, k, rows, bytes);
    RetainIsBoundedPlace(landed, k, e);
    PlacedIsAlmostBounded(landed, k, e);
    PlacedLists(landed, k, e);
    order, versions := p.lru, p.versionLru;
    EnforcedExactly(p, k.snapshot);
    TrimmedOnlyAdds(landed, k, e, Retain(landed, k, rows, bytes));
    RetainKeeps(landed, k, rows, bytes);
    ListedKeys(Retain(landed, k, rows, bytes));
    OnlyAddsMeans(landed, Retain(landed, k, rows, bytes), k, e);
  }

  lemma LandedKeeps<R>(c: Cache<R>, t: Cache<R>)
    requires t == c.(inFlight := t.inFlight)
    ensures Listed(c) ==> Listed(t)
    ensures Bounded(c) ==> Bounded(t)
  {
    LandingKeepsLists(c, t);
  }

  lemma CompletesByRetaining<R>(c: Cache<R>, k: Key, rows: R, bytes: nat)
    requires k.snapshot.generation == c.generation
    ensures CompleteFlight(c, k, rows, bytes) == Retain(c.(inFlight := c.inFlight - {k}), k, rows, bytes)
  {
    hide Retain;
  }

  lemma PlacedLists<R>(c: Cache<R>, k: Key, e: Entry<R>)
    requires Listed(c)
    ensures MovedLast(c.lru, k, Placed(c, k, e).lru) && MovedLast(c.versionLru, k.snapshot, Placed(c, k, e).versionLru)
  {
    TouchedIsLast(c.lru, k);
    TouchedIsLast(c.versionLru, k.snapshot);
  }

  lemma ListedKeys<R>(c: Cache<R>)
    requires Listed(c)
    ensures forall k :: k in c.entries <==> k in c.lru
  {
  }

  lemma OnlyAddsMeans<R>(c: Cache<R>, t: Cache<R>, k: Key, e: Entry<R>)
    requires OnlyAdds(c, t, k, e)
    ensures forall x :: x in t.entries ==> if x == k then t.entries[x] == e else x in c.entries && t.entries[x] == c.entries[x]
    ensures t.generation == c.generation && t.inFlight == c.inFlight
  {
  }

  /** In particular the build itself is retained, and a reader hits it, whenever its own weight fits beside what the
      byte count is ahead by. */
  lemma JustBuiltIsHit<R>(c: Cache<R>, k: Key, rows: R, bytes: nat, flight: nat)
    requires Listed(c) && Bounded(c) && k.snapshot.generation == c.generation
    requires Drift(c) + (if k in c.entries then c.entries[k].bytes else 0) + bytes <= 67_108_864
    ensures BeginAccess(CompleteFlight(c, k, rows, bytes), k, flight).1 == Hit(rows)
  {
    hide *;
    var order, versions := LandsExactly(c, k, rows, bytes);
    var e, landed := Entry(rows, bytes), c.(inFlight := c.inFlight - {k});
    LandedKeeps(c, landed);
    SameDrift(c, landed);
    PlacedIsListed(landed, k, e);
    var p, t := Placed(landed, k, e), CompleteFlight(c, k, rows, bytes);
    var kept, m := LeftMeans(p, order, versions, t.lru);
    LastIsKept(c.lru, k, order, c.versionLru, versions, kept);
    LastFits(p, kept, m, k, e) by { PlacedHolds(landed, k, e); }
    assert t.lru[|t.lru| - 1] == k;
    HitsRetained(t, k, flight);
  }

  lemma SameDrift<R>(c: Cache<R>, t: Cache<R>)
    requires t == c.(inFlight := t.inFlight)
    ensures Drift(t) == Drift(c)
  {
  }

  lemma LeftMeans<R>(c: Cache<R>, order: seq<Key>, versions: seq<Snapshot>, left: seq<Key>) returns (kept: seq<Key>, m: nat)
    requires Left(c, order, versions, left)
    ensures Keeps(order, versions, kept) && Fewest(c, kept, m) && m <= |kept| && left == kept[m..]
  {
    hide Keeps;
    kept, m :| Keeps(order, versions, kept) && Fewest(c, kept, m) && left == kept[m..];
  }

  lemma PlacedHolds<R>(c: Cache<R>, k: Key, e: Entry<R>)
    ensures k in Placed(c, k, e).entries && Placed(c, k, e).entries[k] == e
  {
  }

  lemma LastFits<R>(c: Cache<R>, kept: seq<Key>, m: nat, k: Key, e: Entry<R>)
    requires Fewest(c, kept, m) && kept != [] && kept[|kept| - 1] == k
    requires k in c.entries && c.entries[k] == e && Drift(c) + e.bytes <= 67_108_864
    ensures m < |kept|
  {
    hide Drift;
    var n := |kept| - 1;
    assert kept[n..] == [k] && [k][1..] == [];
    assert Weight(c.entries, [k]) == e.bytes by { assert Weight(c.entries, [k][1..]) == 0; }
  }

  lemma HitsRetained<R>(c: Cache<R>, k: Key, flight: nat)
    requires k in c.entries
    ensures BeginAccess(c, k, flight).1 == Hit(c.entries[k].rows)
  {
    hide Touch;
  }

  // ----- the counters -----

  /** Entries there are and entries that were evicted. */
  function Accounted<R>(c: Cache<R>): int { |c.entries| + c.evictions }

  ghost predicate Counts<R>(c: Cache<R>, t: Cache<R>) {
    Accounted(t) == Accounted(c) && t.hits == c.hits && t.misses == c.misses
  }

  lemma RemoveCounts<R>(c: Cache<R>, gone: set<Key>)
    ensures Counts(c, RemoveEntries(c, gone))
  {
    KeysLeft(c.entries, gone);
    hide Without, Within, Weight;
  }

  lemma KeysLeft<R>(entries: map<Key, Entry<R>>, gone: set<Key>)
    ensures |entries - gone| + |gone * entries.Keys| == |entries|
  {
    var left := entries - gone;
    assert left.Keys == entries.Keys - gone;
    SizesAdd(entries.Keys - gone, gone * entries.Keys, entries.Keys);
    assert |entries| == |entries.Keys| && |left| == |left.Keys|;
  }

  lemma SizesAdd(a: set<Key>, b: set<Key>, all: set<Key>)
    requires a !! b && all == a + b
    ensures |a| + |b| == |all|
  {
  }

  lemma {:induction false} BytesCount<R>(c: Cache<R>)
    ensures Counts(c, TrimBytes(c))
    decreases |c.lru|
  {
    hide RemoveEntries;
    if c.bytes > BYTE_LIMIT && c.lru != [] {
      var next := RemoveEntries(c, {c.lru[0]});
      RemoveCounts(c, {c.lru[0]});
      if |next.lru| < |c.lru| {
        BytesCount(next);
      }
    }
  }

  lemma EnforceCounts<R>(c: Cache<R>, s: Snapshot)
    ensures Counts(c, EnforceBounds(c, s))
  {
    hide RemoveEntries, TrimBytes;
    var one := TrimSnapshot(c, s);
    var keys := OfSnapshot(c.lru, s);
    RemoveCounts(c, Elements(keys[..Excess(|keys|, PER_SNAPSHOT)]));
    var gone := one.versionLru[..Excess(|one.versionLru|, SNAPSHOTS)];
    RemoveCounts(one, set k | k in one.lru && k.snapshot in gone);
    BytesCount(TrimVersions(one));
  }

  /** A build that lands adds one entry if its key had none, counts every entry dropped as an eviction, and is neither a
      hit nor a miss. */
  lemma EvictionsAreCounted<R>(c: Cache<R>, k: Key, rows: R, bytes: nat)
    requires k.snapshot.generation == c.generation
    ensures var t := CompleteFlight(c, k, rows, bytes);
      && t.evictions == c.evictions + |c.entries.Keys + {k}| - |t.entries|
      && t.hits == c.hits && t.misses == c.misses
  {
    hide *;
    var landed := c.(inFlight := c.inFlight - {k});
    CompletesByRetaining(c, k, rows, bytes);
    RetainIsBoundedPlace(landed, k, Entry(rows, bytes));
    EnforceCounts(Placed(landed, k, Entry(rows, bytes)), k.snapshot);
    CountsMean(Placed(landed, k, Entry(rows, bytes)), CompleteFlight(c, k, rows, bytes));
    PlacedCounts(landed, k, Entry(rows, bytes));
  }

  lemma CountsMean<R>(c: Cache<R>, t: Cache<R>)
    requires Counts(c, t)
    ensures t.evictions == c.evictions + |c.entries| - |t.entries| && t.hits == c.hits && t.misses == c.misses
  {
  }

  lemma PlacedCounts<R>(c: Cache<R>, k: Key, e: Entry<R>)
    ensures var p := Placed(c, k, e);
      && |p.entries| == |c.entries.Keys + {k}| && p.evictions == c.evictions && p.hits == c.hits && p.misses == c.misses
  {
    hide Without;
    assert Placed(c, k, e).entries == c.entries[k := e];
    assert c.entries[k := e].Keys == c.entries.Keys + {k};
    assert |c.entries[k := e]| == |c.entries[k := e].Keys|;
  }
}
