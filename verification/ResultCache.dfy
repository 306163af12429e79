/** The query result cache: entries in least-recently-used order, bounded by snapshot, by version and by
    weight, with one build in flight for a key. */
module ResultCache {
  import opened Bytes

  const PER_SNAPSHOT := 8
  const SNAPSHOTS := 4
  const BYTE_LIMIT := 64 * 1024 * 1024

  datatype Snapshot = Snapshot(generation: nat, space: Octets, version: int, lower: int)

  datatype Key = Key(snapshot: Snapshot, operation: Octets, digest: Octets)

  datatype Entry<+R> = Entry(rows: R, bytes: nat)

  datatype Cache<+R> = Cache(
    generation: nat,
    entries: map<Key, Entry<R>>,
    lru: seq<Key>,
    versionLru: seq<Snapshot>,
    inFlight: map<Key, nat>,
    bytes: int,
    hits: nat,
    misses: nat,
    evictions: nat)

  function Empty<R>(generation: nat): Cache<R> {
    Cache(generation, map[], [], [], map[], 0, 0, 0, 0)
  }

  // ----- sequences without repetition -----

  function Without<T(==)>(xs: seq<T>, gone: set<T>): seq<T> {
    if xs == [] then [] else
    (if xs[0] in gone then [] else [xs[0]]) + Without(xs[1..], gone)
  }

  function Within<T(==)>(xs: seq<T>, kept: set<T>): seq<T> {
    if xs == [] then [] else
    (if xs[0] in kept then [xs[0]] else []) + Within(xs[1..], kept)
  }

  /** The keys of one snapshot, in order. */
  function OfSnapshot(keys: seq<Key>, s: Snapshot): seq<Key> {
    if keys == [] then [] else
    (if keys[0].snapshot == s then [keys[0]] else []) + OfSnapshot(keys[1..], s)
  }

  predicate Distinct<T(==)>(xs: seq<T>) {
    forall i, j :: 0 <= i < j < |xs| ==> xs[i] != xs[j]
  }

  function Elements<T(==)>(xs: seq<T>): set<T> {
    set x | x in xs
  }

  function SnapshotsOf(keys: set<Key>): set<Snapshot> {
    set k | k in keys :: k.snapshot
  }

  /** The weight of the entries of `keys`. */
  function Weight<R>(entries: map<Key, Entry<R>>, keys: seq<Key>): nat {
    if keys == [] then 0 else
    (if keys[0] in entries then entries[keys[0]].bytes else 0) + Weight(entries, keys[1..])
  }

  // ----- the operations on the locked state -----

  function Touch<R>(c: Cache<R>, k: Key): Cache<R> {
    c.(lru := Without(c.lru, {k}) + [k], versionLru := Without(c.versionLru, {k.snapshot}) + [k.snapshot])
  }

  /** Drops entries, forgetting the snapshots that have none left. */
  function RemoveEntries<R>(c: Cache<R>, gone: set<Key>): Cache<R> {
    var entries := c.entries - gone;
    c.(entries := entries,
       lru := Without(c.lru, gone),
       versionLru := Within(c.versionLru, SnapshotsOf(entries.Keys)),
       bytes := c.bytes - Weight(c.entries, Within(c.lru, gone)),
       evictions := c.evictions + |gone * c.entries.Keys|)
  }

  function Excess(n: nat, limit: nat): nat {
    if n > limit then n - limit else 0
  }

  function TrimSnapshot<R>(c: Cache<R>, s: Snapshot): Cache<R> {
    var keys := OfSnapshot(c.lru, s);
    RemoveEntries(c, Elements(keys[..Excess(|keys|, PER_SNAPSHOT)]))
  }

  function TrimVersions<R>(c: Cache<R>): Cache<R> {
    var gone := c.versionLru[..Excess(|c.versionLru|, SNAPSHOTS)];
    RemoveEntries(c, set k | k in c.lru && k.snapshot in gone)
  }

  function TrimBytes<R>(c: Cache<R>): Cache<R>
    decreases |c.lru|
  {
    if c.bytes <= BYTE_LIMIT || c.lru == [] then c else
    var next := RemoveEntries(c, {c.lru[0]});
    if |next.lru| < |c.lru| then TrimBytes(next) else next
  }

  function EnforceBounds<R>(c: Cache<R>, s: Snapshot): Cache<R> {
    TrimBytes(TrimVersions(TrimSnapshot(c, s)))
  }

  function Retain<R>(c: Cache<R>, k: Key, rows: R, bytes: nat): Cache<R> {
    EnforceBounds(Touch(c.(entries := c.entries[k := Entry(rows, bytes)], bytes := c.bytes + bytes), k), k.snapshot)
  }

  datatype Access<+R> = Hit(rows: R) | Wait(flight: nat) | Build(flight: nat)

  /** Looks a key up: its rows, the build to wait for, or a new build under number `flight`. */
  function BeginAccess<R>(c: Cache<R>, k: Key, flight: nat): (Cache<R>, Access<R>) {
    if k in c.entries then (Touch(c.(hits := c.hits + 1), k), Hit(c.entries[k].rows)) else
    if k in c.inFlight then (c.(hits := c.hits + 1), Wait(c.inFlight[k])) else
    (c.(inFlight := c.inFlight[k := flight], misses := c.misses + 1), Build(flight))
  }

  function CompleteFlight<R>(c: Cache<R>, k: Key, rows: R, bytes: nat): Cache<R> {
    var landed := c.(inFlight := c.inFlight - {k});
    if k.snapshot.generation == c.generation then Retain(landed, k, rows, bytes) else landed
  }

  function FailFlight<R>(c: Cache<R>, k: Key): Cache<R> {
    c.(inFlight := c.inFlight - {k})
  }

  // ----- what the cache always is -----

  ghost predicate Holds(keys: set<Key>, s: Snapshot) {
    exists k :: k in keys && k.snapshot == s
  }

  /** `lru` lists the entries once each, `versionLru` their snapshots once each. */
  ghost predicate Listed<R>(c: Cache<R>) {
    && Distinct(c.lru) && (forall k :: k in c.lru <==> k in c.entries.Keys)
    && Distinct(c.versionLru) && (forall s :: s in c.versionLru <==> Holds(c.entries.Keys, s))
  }

  /** How far the byte count runs ahead of the entries. */
  function Drift<R>(c: Cache<R>): int { c.bytes - Weight(c.entries, c.lru) }

  ghost predicate Bounded<R>(c: Cache<R>) {
    && (forall s :: |OfSnapshot(c.lru, s)| <= PER_SNAPSHOT) && |c.versionLru| <= SNAPSHOTS
    && (c.lru == [] || c.bytes <= BYTE_LIMIT)
  }

  lemma {:induction false} WithoutMembers<T>(xs: seq<T>, gone: set<T>)
    ensures forall x :: x in Without(xs, gone) <==> x in xs && x !in gone
  {
    if xs != [] {
      WithoutMembers(xs[1..], gone);
      assert forall x :: x in xs <==> x == xs[0] || x in xs[1..];
    }
  }

  lemma {:induction false} WithoutDistinct<T>(xs: seq<T>, gone: set<T>)
    requires Distinct(xs)
    ensures Distinct(Without(xs, gone))
  {
    if xs != [] {
      WithoutDistinct(xs[1..], gone);
      WithoutMembers(xs[1..], gone);
      assert xs[0] !in xs[1..];
    }
  }

  lemma {:induction false} WithinMembers<T>(xs: seq<T>, kept: set<T>)
    ensures forall x :: x in Within(xs, kept) <==> x in xs && x in kept
  {
    if xs != [] {
      WithinMembers(xs[1..], kept);
      assert forall x :: x in xs <==> x == xs[0] || x in xs[1..];
    }
  }

  lemma {:induction false} WithinDistinct<T>(xs: seq<T>, kept: set<T>)
    requires Distinct(xs)
    ensures Distinct(Within(xs, kept)) && |Within(xs, kept)| <= |xs|
  {
    if xs != [] {
      WithinDistinct(xs[1..], kept);
      WithinMembers(xs[1..], kept);
      assert xs[0] !in xs[1..];
    }
  }

  lemma {:induction false} WeightSplits<R>(entries: map<Key, Entry<R>>, keys: seq<Key>, gone: set<Key>)
    ensures Weight(entries, keys) == Weight(entries, Within(keys, gone)) + Weight(entries - gone, Without(keys, gone))
  {
    if keys != [] {
      WeightSplits(entries, keys[1..], gone);
      var within, without := Within(keys[1..], gone), Without(keys[1..], gone);
      assert ([keys[0]] + within)[1..] == within && ([keys[0]] + without)[1..] == without;
      assert [] + within == within && [] + without == without;
    }
  }

  lemma SnapshotsHold(keys: set<Key>, s: Snapshot)
    ensures s in SnapshotsOf(keys) <==> Holds(keys, s)
  {
  }

  lemma RemoveKeepsListed<R>(c: Cache<R>, gone: set<Key>)
    requires Listed(c)
    ensures Listed(RemoveEntries(c, gone)) && Drift(RemoveEntries(c, gone)) == Drift(c)
  {
    hide *;
    RemoveKeepsLists(c, gone);
    RemoveKeepsDrift(c, gone);
  }

  lemma RemoveKeepsDrift<R>(c: Cache<R>, gone: set<Key>)
    requires Listed(c)
    ensures Drift(RemoveEntries(c, gone)) == Drift(c)
  {
    WeightSplits(c.entries, c.lru, gone);
    hide Within, Without, Distinct, Holds;
  }

  lemma RemoveKeepsLists<R>(c: Cache<R>, gone: set<Key>)
    requires Listed(c)
    ensures Listed(RemoveEntries(c, gone))
  {
    var t := RemoveEntries(c, gone);
    assert t.entries.Keys == c.entries.Keys - gone;
    hide Within, Without, Distinct, Holds, Weight;
    WithoutMembers(c.lru, gone);
    WithoutDistinct(c.lru, gone);
    VersionsListed(c.entries.Keys, t.entries.Keys, c.versionLru);
    hide *;
    AreListed(t);
  }

  lemma AreListed<R>(c: Cache<R>)
    requires Distinct(c.lru) && (forall k :: k in c.lru <==> k in c.entries.Keys)
    requires Distinct(c.versionLru) && (forall s :: s in c.versionLru <==> Holds(c.entries.Keys, s))
    ensures Listed(c)
  {
  }

  lemma VersionsListed(before: set<Key>, after: set<Key>, versions: seq<Snapshot>)
    requires after <= before && Distinct(versions) && forall s :: s in versions <==> Holds(before, s)
    ensures var kept := Within(versions, SnapshotsOf(after)); Distinct(kept) && forall s :: s in kept <==> Holds(after, s)
  {
    var kept := Within(versions, SnapshotsOf(after));
    WithinMembers(versions, SnapshotsOf(after));
    WithinDistinct(versions, SnapshotsOf(after));
    hide Within, Distinct, SnapshotsOf, Holds;
    forall s ensures s in kept <==> Holds(after, s) {
      SnapshotsHold(after, s);
      FewerHold(after, before, s);
    }
  }

  lemma FewerHold(few: set<Key>, more: set<Key>, s: Snapshot)
    requires few <= more
    ensures Holds(few, s) ==> Holds(more, s)
  {
    if Holds(few, s) {
      var k :| k in few && k.snapshot == s;
      assert k in more;
    }
  }

  // ----- the bounds -----

  lemma {:induction false} OfSnapshotWithout(keys: seq<Key>, gone: set<Key>, s: Snapshot)
    ensures OfSnapshot(Without(keys, gone), s) == Without(OfSnapshot(keys, s), gone)
  {
    if keys != [] {
      OfSnapshotWithout(keys[1..], gone, s);
      var without, of := Without(keys[1..], gone), OfSnapshot(keys[1..], s);
      assert ([keys[0]] + without)[1..] == without && [] + without == without;
      assert ([keys[0]] + of)[1..] == of && [] + of == of;
    }
  }

  lemma {:induction false} WithoutShorter<T>(xs: seq<T>, gone: set<T>)
    ensures |Without(xs, gone)| <= |xs|
  {
    if xs != [] {
      WithoutShorter(xs[1..], gone);
    }
  }

  lemma {:induction false} WithoutPrefix<T>(xs: seq<T>, n: nat, gone: set<T>)
    requires n <= |xs| && forall i :: 0 <= i < n ==> xs[i] in gone
    ensures |Without(xs, gone)| <= |xs| - n
  {
    if n > 0 {
      WithoutPrefix(xs[1..], n - 1, gone);
    } else {
      WithoutShorter(xs, gone);
    }
  }

  lemma {:induction false} WithinPrefix<T>(xs: seq<T>, n: nat, kept: set<T>)
    requires n <= |xs| && forall i :: 0 <= i < n ==> xs[i] !in kept
    ensures |Within(xs, kept)| <= |xs| - n
  {
    if n > 0 {
      WithinPrefix(xs[1..], n - 1, kept);
    } else {
      WithinShorter(xs, kept);
    }
  }

  lemma {:induction false} WithinShorter<T>(xs: seq<T>, kept: set<T>)
    ensures |Within(xs, kept)| <= |xs|
  {
    if xs != [] {
      WithinShorter(xs[1..], kept);
    }
  }

  /** Dropping entries shortens every list. */
  lemma RemoveShortens<R>(c: Cache<R>, gone: set<Key>, s: Snapshot)
    ensures var t := RemoveEntries(c, gone);
      |OfSnapshot(t.lru, s)| <= |OfSnapshot(c.lru, s)| && |t.versionLru| <= |c.versionLru| && |t.lru| <= |c.lru|
  {
    OfSnapshotWithout(c.lru, gone, s);
    WithoutShorter(OfSnapshot(c.lru, s), gone);
    WithoutShorter(c.lru, gone);
    WithinShorter(c.versionLru, SnapshotsOf((c.entries - gone).Keys));
  }

  lemma TrimSnapshotBounds<R>(c: Cache<R>, s: Snapshot)
    ensures |OfSnapshot(TrimSnapshot(c, s).lru, s)| <= PER_SNAPSHOT
  {
    var keys := OfSnapshot(c.lru, s);
    var n := Excess(|keys|, PER_SNAPSHOT);
    var gone := Elements(keys[..n]);
    OfSnapshotWithout(c.lru, gone, s);
    forall i | 0 <= i < n ensures keys[i] in gone {
      assert keys[..n][i] == keys[i];
    }
    WithoutPrefix(keys, n, gone);
  }

  lemma TrimVersionsBounds<R>(c: Cache<R>)
    requires Listed(c)
    ensures |TrimVersions(c).versionLru| <= SNAPSHOTS
  {
    var n := Excess(|c.versionLru|, SNAPSHOTS);
    var gone := c.versionLru[..n];
    var keys := set k | k in c.lru && k.snapshot in gone;
    var left := (c.entries - keys).Keys;
    forall i | 0 <= i < n ensures c.versionLru[i] !in SnapshotsOf(left) {
      var s := c.versionLru[i];
      assert gone[i] == s;
      SnapshotsHold(left, s);
      forall k | k in left ensures k.snapshot != s {
        assert k in c.lru && (k.snapshot in gone ==> k in keys);
      }
    }
    WithinPrefix(c.versionLru, n, SnapshotsOf(left));
  }

  /** Everything a sequence of removals keeps. */
  ghost predicate Trimmed<R>(c: Cache<R>, t: Cache<R>) {
    && (Listed(c) ==> Listed(t) && Drift(t) == Drift(c))
    && |t.versionLru| <= |c.versionLru| && |t.lru| <= |c.lru|
    && (forall s :: |OfSnapshot(t.lru, s)| <= |OfSnapshot(c.lru, s)|)
    && t.generation == c.generation && t.inFlight == c.inFlight
    && (forall k :: k in t.entries ==> k in c.entries && t.entries[k] == c.entries[k])
  }

  lemma RemoveTrims<R>(c: Cache<R>, gone: set<Key>)
    ensures Trimmed(c, RemoveEntries(c, gone))
  {
    hide Drift, Listed, OfSnapshot;
    if Listed(c) {
      RemoveKeepsListed(c, gone);
    }
    forall s ensures |OfSnapshot(RemoveEntries(c, gone).lru, s)| <= |OfSnapshot(c.lru, s)| {
      RemoveShortens(c, gone, s);
    }
    RemoveShortens(c, gone, Snapshot(0, [], 0, 0));
  }

  lemma TrimmedTwice<R>(c: Cache<R>, m: Cache<R>, t: Cache<R>)
    requires Trimmed(c, m) && Trimmed(m, t)
    ensures Trimmed(c, t)
  {
    hide Drift, Listed, OfSnapshot;
    forall s ensures |OfSnapshot(t.lru, s)| <= |OfSnapshot(c.lru, s)| {
      assert |OfSnapshot(m.lru, s)| <= |OfSnapshot(c.lru, s)|;
    }
  }

  lemma {:induction false} TrimBytesBounds<R>(c: Cache<R>)
    requires Listed(c)
    ensures Trimmed(c, TrimBytes(c)) && (TrimBytes(c).lru == [] || TrimBytes(c).bytes <= BYTE_LIMIT)
    decreases |c.lru|
  {
    if c.bytes > BYTE_LIMIT && c.lru != [] {
      var next := RemoveEntries(c, {c.lru[0]});
      RemoveTrims(c, {c.lru[0]});
      WithoutPrefix(c.lru, 1, {c.lru[0]});
      TrimBytesBounds(next);
      hide Trimmed;
      TrimmedTwice(c, next, TrimBytes(next));
    } else {
      TrimmedItself(c);
    }
  }

  lemma TrimmedItself<R>(c: Cache<R>)
    ensures Trimmed(c, c)
  {
  }

  /** Before a retained entry's bounds are enforced: only its own snapshot can be over. */
  ghost predicate AlmostBounded<R>(c: Cache<R>, s: Snapshot) {
    Listed(c) && forall other :: other != s ==> |OfSnapshot(c.lru, other)| <= PER_SNAPSHOT
  }

  lemma EnforceBoundsBounds<R>(c: Cache<R>, s: Snapshot)
    requires AlmostBounded(c, s)
    ensures Bounded(EnforceBounds(c, s)) && Trimmed(c, EnforceBounds(c, s))
  {
    hide Listed, OfSnapshot, Drift, RemoveEntries;
    var one := TrimSnapshot(c, s);
    var keys := OfSnapshot(c.lru, s);
    RemoveTrims(c, Elements(keys[..Excess(|keys|, PER_SNAPSHOT)]));
    TrimSnapshotBounds(c, s);
    var two := TrimVersions(one);
    var gone := one.versionLru[..Excess(|one.versionLru|, SNAPSHOTS)];
    RemoveTrims(one, set k | k in one.lru && k.snapshot in gone);
    TrimVersionsBounds(one);
    TrimBytesBounds(two);
    TrimmedTwice(c, one, two);
    TrimmedTwice(c, two, TrimBytes(two));
    TrimmedTwice(one, two, TrimBytes(two));
    forall other ensures |OfSnapshot(TrimBytes(two).lru, other)| <= PER_SNAPSHOT {
      assert |OfSnapshot(TrimBytes(two).lru, other)| <= |OfSnapshot(one.lru, other)| <= |OfSnapshot(c.lru, other)|;
    }
  }

  // ----- touching and retaining -----

  lemma {:induction false} OfSnapshotAppend(keys: seq<Key>, k: Key, s: Snapshot)
    ensures OfSnapshot(keys + [k], s) == OfSnapshot(keys, s) + (if k.snapshot == s then [k] else [])
  {
    if keys == [] {
      assert keys + [k] == [k] && [k][1..] == [];
    } else {
      assert (keys + [k])[1..] == keys[1..] + [k];
      OfSnapshotAppend(keys[1..], k, s);
    }
  }

  lemma {:induction false} WeightAppend<R>(entries: map<Key, Entry<R>>, keys: seq<Key>, k: Key)
    requires k in entries
    ensures Weight(entries, keys + [k]) == Weight(entries, keys) + entries[k].bytes
  {
    if keys == [] {
      assert keys + [k] == [k] && [k][1..] == [];
    } else {
      assert (keys + [k])[1..] == keys[1..] + [k];
      WeightAppend(entries, keys[1..], k);
    }
  }

  lemma {:induction false} WeightDepends<R>(a: map<Key, Entry<R>>, b: map<Key, Entry<R>>, keys: seq<Key>)
    requires forall k :: k in keys ==> (k in a <==> k in b) && (k in a ==> a[k] == b[k])
    ensures Weight(a, keys) == Weight(b, keys)
  {
    if keys != [] {
      WeightDepends(a, b, keys[1..]);
    }
  }

  lemma {:induction false} WithinOne(keys: seq<Key>, k: Key)
    requires Distinct(keys)
    ensures Within(keys, {k}) == if k in keys then [k] else []
  {
    if keys != [] {
      WithinOne(keys[1..], k);
      assert k in keys <==> k == keys[0] || k in keys[1..];
    }
  }

  /** The weight once `k` has moved to the end with `bytes`. */
  lemma WeightMoved<R>(entries: map<Key, Entry<R>>, keys: seq<Key>, k: Key, e: Entry<R>)
    requires Distinct(keys) && (k in keys <==> k in entries)
    ensures Weight(entries[k := e], Without(keys, {k}) + [k])
      == Weight(entries, keys) - (if k in entries then entries[k].bytes else 0) + e.bytes
  {
    var rest := Without(keys, {k});
    WithoutMembers(keys, {k});
    WithinOne(keys, k);
    WeightSplits(entries, keys, {k});
    WeightAppend(entries[k := e], rest, k);
    WeightDepends(entries[k := e], entries - {k}, rest);
    assert [k][1..] == [];
  }

  lemma {:induction false} WithoutOne<T>(xs: seq<T>, x: T)
    requires Distinct(xs)
    ensures |Without(xs, {x})| == |xs| - if x in xs then 1 else 0
  {
    if xs != [] {
      WithoutOne(xs[1..], x);
      assert x in xs <==> x == xs[0] || x in xs[1..];
    }
  }

  /** Moving one element to the end. */
  lemma MovedToEnd<T>(xs: seq<T>, x: T)
    requires Distinct(xs)
    ensures var t := Without(xs, {x}) + [x];
      Distinct(t) && (forall y :: y in t <==> y in xs || y == x) && |t| == |xs| + (if x in xs then 0 else 1)
  {
    WithoutMembers(xs, {x});
    WithoutDistinct(xs, {x});
    WithoutOne(xs, x);
  }

  /** An entry put in place and touched, before the bounds are enforced. */
  function Placed<R>(c: Cache<R>, k: Key, e: Entry<R>): Cache<R> {
    Touch(c.(entries := c.entries[k := e], bytes := c.bytes + e.bytes), k)
  }

  lemma PlacedIsListed<R>(c: Cache<R>, k: Key, e: Entry<R>)
    requires Listed(c)
    ensures var t := Placed(c, k, e);
      Listed(t) && Drift(t) == Drift(c) + if k in c.entries then c.entries[k].bytes else 0
  {
    var t := Placed(c, k, e);
    MovedToEnd(c.lru, k);
    MovedToEnd(c.versionLru, k.snapshot);
    WeightMoved(c.entries, c.lru, k, e);
    assert t.entries.Keys == c.entries.Keys + {k};
    forall s ensures Holds(t.entries.Keys, s) <==> Holds(c.entries.Keys, s) || s == k.snapshot {
      HoldsOneMore(c.entries.Keys, k, s);
    }
    hide *;
    AreListed(t);
  }

  lemma HoldsOneMore(keys: set<Key>, k: Key, s: Snapshot)
    ensures Holds(keys + {k}, s) <==> Holds(keys, s) || s == k.snapshot
  {
    FewerHold(keys, keys + {k}, s);
    if s == k.snapshot {
      assert k in keys + {k};
    }
    if Holds(keys + {k}, s) {
      var x :| x in keys + {k} && x.snapshot == s;
      assert x in keys || x == k;
    }
  }

  lemma PlacedOfSnapshot<R>(c: Cache<R>, k: Key, e: Entry<R>, s: Snapshot)
    ensures |OfSnapshot(Placed(c, k, e).lru, s)| <= |OfSnapshot(c.lru, s)| + if s == k.snapshot then 1 else 0
  {
    OfSnapshotAppend(Without(c.lru, {k}), k, s);
    OfSnapshotWithout(c.lru, {k}, s);
    WithoutShorter(OfSnapshot(c.lru, s), {k});
  }

  lemma PlacedIsAlmostBounded<R>(c: Cache<R>, k: Key, e: Entry<R>)
    requires Listed(c) && Bounded(c)
    ensures AlmostBounded(Placed(c, k, e), k.snapshot)
  {
    PlacedIsListed(c, k, e);
    hide Listed, OfSnapshot, Placed;
    forall s | s != k.snapshot ensures |OfSnapshot(Placed(c, k, e).lru, s)| <= PER_SNAPSHOT {
      PlacedOfSnapshot(c, k, e, s);
      assert |OfSnapshot(c.lru, s)| <= PER_SNAPSHOT;
    }
  }

  /** Every entry of `t` is the new one for `k`, or one `c` had. */
  ghost predicate OnlyAdds<R>(c: Cache<R>, t: Cache<R>, k: Key, e: Entry<R>) {
    && t.generation == c.generation && t.inFlight == c.inFlight
    && forall x :: x in t.entries ==> if x == k then t.entries[x] == e else x in c.entries && t.entries[x] == c.entries[x]
  }

  lemma TrimmedOnlyAdds<R>(c: Cache<R>, k: Key, e: Entry<R>, t: Cache<R>)
    requires Trimmed(Placed(c, k, e), t)
    ensures OnlyAdds(c, t, k, e)
  {
    hide Listed, OfSnapshot, Drift, Without;
  }

  lemma TrimmedListed<R>(m: Cache<R>, t: Cache<R>)
    requires Trimmed(m, t) && Listed(m)
    ensures Listed(t) && Drift(t) == Drift(m)
  {
    hide Listed, OfSnapshot, Drift;
  }

  lemma RetainIsBoundedPlace<R>(c: Cache<R>, k: Key, e: Entry<R>)
    ensures Retain(c, k, e.rows, e.bytes) == EnforceBounds(Placed(c, k, e), k.snapshot)
  {
    hide EnforceBounds, Without;
  }

  /** Retaining keeps the lists and the bounds, and counts a key's weight twice exactly when the key was
      already retained. */
  lemma RetainKeeps<R>(c: Cache<R>, k: Key, rows: R, bytes: nat)
    requires Listed(c) && Bounded(c)
    ensures var t := Retain(c, k, rows, bytes);
      && Listed(t) && Bounded(t) && OnlyAdds(c, t, k, Entry(rows, bytes))
      && Drift(t) == Drift(c) + if k in c.entries then c.entries[k].bytes else 0
  {
    hide *;
    var e := Entry(rows, bytes);
    RetainIsBoundedPlace(c, k, e);
    PlacedIsListed(c, k, e);
    PlacedIsAlmostBounded(c, k, e);
    EnforceBoundsBounds(Placed(c, k, e), k.snapshot);
    TrimmedOnlyAdds(c, k, e, Retain(c, k, rows, bytes));
    TrimmedListed(Placed(c, k, e), Retain(c, k, rows, bytes));
  }

  lemma {:induction false} OfSnapshotMembers(keys: seq<Key>, s: Snapshot)
    requires Distinct(keys)
    ensures Distinct(OfSnapshot(keys, s)) && forall k :: k in OfSnapshot(keys, s) <==> k in keys && k.snapshot == s
  {
    if keys != [] {
      OfSnapshotMembers(keys[1..], s);
      assert forall k :: k in keys <==> k == keys[0] || k in keys[1..];
      assert keys[0] !in keys[1..];
    }
  }

  lemma TouchKeepsCounts<R>(c: Cache<R>, k: Key, s: Snapshot)
    requires Listed(c) && k in c.entries
    ensures |OfSnapshot(Touch(c, k).lru, s)| == |OfSnapshot(c.lru, s)|
  {
    OfSnapshotAppend(Without(c.lru, {k}), k, s);
    OfSnapshotWithout(c.lru, {k}, s);
    OfSnapshotMembers(c.lru, s);
    WithoutOne(OfSnapshot(c.lru, s), k);
  }

  lemma TouchKeepsListed<R>(c: Cache<R>, k: Key)
    requires Listed(c) && k in c.entries
    ensures Listed(Touch(c, k)) && Drift(Touch(c, k)) == Drift(c) && |Touch(c, k).versionLru| == |c.versionLru|
  {
    MovedToEnd(c.lru, k);
    MovedToEnd(c.versionLru, k.snapshot);
    WeightMoved(c.entries, c.lru, k, c.entries[k]);
    assert c.entries[k := c.entries[k]] == c.entries;
    assert Holds(c.entries.Keys, k.snapshot) by { assert k in c.entries.Keys; }
    hide OfSnapshot, Without, Weight, Distinct, Holds;
  }

  /** A hit reorders the lists and nothing else. */
  lemma TouchKeeps<R>(c: Cache<R>, k: Key)
    requires Listed(c) && Bounded(c) && k in c.entries
    ensures Listed(Touch(c, k)) && Bounded(Touch(c, k)) && Drift(Touch(c, k)) == Drift(c)
  {
    var t := Touch(c, k);
    TouchKeepsListed(c, k);
    hide Listed, OfSnapshot, Drift, Without;
    assert k in c.lru by { KeyIsListed(c, k); }
    forall s ensures |OfSnapshot(t.lru, s)| <= PER_SNAPSHOT {
      TouchKeepsCounts(c, k, s);
      assert |OfSnapshot(c.lru, s)| <= PER_SNAPSHOT;
    }
  }

  lemma KeyIsListed<R>(c: Cache<R>, k: Key)
    requires Listed(c) && k in c.entries
    ensures k in c.lru
  {
  }

  // ----- the shared cache as it runs -----

  /** Evicts the oldest entries until the weight fits. */
  method TrimToBytes<R>(c: Cache<R>) returns (t: Cache<R>)
    ensures t == TrimBytes(c)
  {
    t := c;
    while t.bytes > BYTE_LIMIT && t.lru != []
      invariant TrimBytes(t) == TrimBytes(c)
      decreases |t.lru|
    {
      WithoutPrefix(t.lru, 1, {t.lru[0]});
      t := RemoveEntries(t, {t.lru[0]});
    }
  }

  /** The cell every reader and builder updates under its lock. */
  class Cell<R> {
    var state: Cache<R>
    var flights: nat

    constructor (generation: nat)
      ensures state == Empty(generation) && flights == 0
    {
      state, flights := Empty(generation), 0;
    }

    method Begin(k: Key) returns (access: Access<R>)
      modifies this
      ensures (state, access) == BeginAccess(old(state), k, old(flights))
      ensures flights == old(flights) + if access.Build? then 1 else 0
    {
      if k in state.entries {
        access := Hit(state.entries[k].rows);
        state := Touch(state.(hits := state.hits + 1), k);
      } else if k in state.inFlight {
        access := Wait(state.inFlight[k]);
        state := state.(hits := state.hits + 1);
      } else {
        access := Build(flights);
        state := state.(inFlight := state.inFlight[k := flights], misses := state.misses + 1);
        flights := flights + 1;
      }
    }

    /** A finished build: retained, within bounds, if its generation is still the current one. */
    method Complete(k: Key, rows: R, bytes: nat)
      requires Listed(state) && Bounded(state)
      modifies this`state
      ensures state == CompleteFlight(old(state), k, rows, bytes)
      ensures Listed(state) && Bounded(state)
    {
      hide Listed, Bounded, OfSnapshot, Without, RemoveEntries, TrimBytes, Drift;
      var landed := state.(inFlight := state.inFlight - {k});
      LandingKeepsLists(state, landed);
      if k.snapshot.generation == state.generation {
        RetainKeeps(landed, k, rows, bytes);
        var placed := Touch(landed.(entries := landed.entries[k := Entry(rows, bytes)], bytes := landed.bytes + bytes), k);
        var trimmed := TrimToBytes(TrimVersions(TrimSnapshot(placed, k.snapshot)));
        state := trimmed;
      } else {
        state := landed;
      }
    }

    method Fail(k: Key)
      modifies this`state
      ensures state == FailFlight(old(state), k)
    {
      state := state.(inFlight := state.inFlight - {k});
    }
  }

  lemma LandingKeepsLists<R>(c: Cache<R>, t: Cache<R>)
    requires t == c.(inFlight := t.inFlight)
    ensures (Listed(c) ==> Listed(t)) && (Bounded(c) ==> Bounded(t))
  {
  }
}
