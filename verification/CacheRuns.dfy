/** The result cache under every interleaving of readers, builders, failures and resets. */
module CacheRuns {
  import opened Bytes
  import opened ResultCache
  import CacheEviction

  /** What a build computes for a key, and what its rows weigh. */
  datatype Source<!R> = Source(rows: Key -> R, weight: R -> nat)

  datatype Delivered<+R> = Rows(rows: R) | Error

  /** The cache, the builds in progress, the key every flight was opened for, and what was delivered. */
  datatype World<+R> = World(
    cache: Cache<R>,
    building: map<nat, Key>,
    keys: map<nat, Key>,
    delivered: map<nat, Delivered<R>>,
    next: nat)

  /** A reader begins; a builder completes or fails; the caches are dropped for a generation. */
  datatype Event = Begin(k: Key) | Complete(flight: nat) | Fail(flight: nat) | Reset(generation: nat)

  function Step<R>(source: Source<R>, w: World<R>, e: Event): World<R> {
    match e
    case Begin(k) =>
      var (cache, access) := BeginAccess(w.cache, k, w.next);
      if access.Build?
      then w.(cache := cache, building := w.building[w.next := k], keys := w.keys[w.next := k], next := w.next + 1)
      else w.(cache := cache)
    case Complete(f) =>
      if f !in w.building then w else
      var k := w.building[f];
      var rows := source.rows(k);
      w.(cache := CompleteFlight(w.cache, k, rows, source.weight(rows)), building := w.building - {f},
         delivered := w.delivered[f := Rows(rows)])
    case Fail(f) =>
      if f !in w.building then w else
      w.(cache := FailFlight(w.cache, w.building[f]), building := w.building - {f}, delivered := w.delivered[f := Error])
    case Reset(generation) => w.(cache := Empty(generation))
  }

  function Start<R>(): World<R> { World(Empty(0), map[], map[], map[], 0) }

  function Run<R>(source: Source<R>, events: seq<Event>): World<R>
    decreases |events|
  {
    if events == [] then Start() else
    Step(source, Run(source, events[..|events| - 1]), events[|events| - 1])
  }

  // ----- what every run keeps -----

  /** Every entry and every delivery holds the rows its own key's build computes. */
  ghost predicate Transparent<R>(source: Source<R>, w: World<R>) {
    && (forall k :: k in w.cache.entries ==> w.cache.entries[k] == Entry(source.rows(k), source.weight(source.rows(k))))
    && (forall f :: f in w.delivered && w.delivered[f].Rows? ==> f in w.keys && w.delivered[f].rows == source.rows(w.keys[f]))
  }

  /** Every flight a reader can be sent to is one being built for that very key. */
  ghost predicate Flying<R>(w: World<R>) {
    && (forall k :: k in w.cache.inFlight ==> w.cache.inFlight[k] in w.building && w.building[w.cache.inFlight[k]] == k)
    && (forall f :: f in w.building ==> f in w.keys && w.keys[f] == w.building[f] && f !in w.delivered)
    && (forall f :: f in w.keys ==> f < w.next)
    && (forall f :: f in w.delivered ==> f in w.keys)
  }

  ghost predicate Sound<R>(source: Source<R>, w: World<R>) {
    Transparent(source, w) && Flying(w) && Listed(w.cache) && Bounded(w.cache) && Drift(w.cache) >= 0
  }

  lemma EmptyIsSound<R>(generation: nat)
    ensures var c := Empty<R>(generation); Listed(c) && Bounded(c) && Drift(c) == 0
  {
  }

  /** Fields the lists do not mention. */
  lemma SameLists<R>(c: Cache<R>, t: Cache<R>)
    requires t.entries == c.entries && t.lru == c.lru && t.versionLru == c.versionLru && t.bytes == c.bytes
    ensures Listed(c) ==> Listed(t)
    ensures Bounded(c) ==> Bounded(t)
    ensures Drift(t) == Drift(c)
  {
  }

  lemma BeginKeepsSound<R>(source: Source<R>, w: World<R>, k: Key)
    requires Sound(source, w)
    ensures Sound(source, Step(source, w, Begin(k)))
    ensures var access := BeginAccess(w.cache, k, w.next).1;
      && (access.Hit? ==> access.rows == source.rows(k))
      && (access.Wait? ==> access.flight in w.building && w.keys[access.flight] == k)
  {
    hide Listed, Bounded, Drift, Touch;
    var c := w.cache;
    if k in c.entries {
      HitKeepsSound(source, w, k);
    } else if k in c.inFlight {
      SameLists(c, c.(hits := c.hits + 1));
    } else {
      BuildKeepsSound(source, w, k);
    }
  }

  lemma HitKeepsSound<R>(source: Source<R>, w: World<R>, k: Key)
    requires Sound(source, w) && k in w.cache.entries
    ensures Sound(source, w.(cache := Touch(w.cache.(hits := w.cache.hits + 1), k)))
  {
    hide Listed, Bounded, Drift, Touch;
    var c := w.cache.(hits := w.cache.hits + 1);
    SameLists(w.cache, c);
    TouchKeeps(c, k);
    TouchOnlyReorders(c, k);
  }

  lemma BuildKeepsSound<R>(source: Source<R>, w: World<R>, k: Key)
    requires Sound(source, w) && k !in w.cache.entries && k !in w.cache.inFlight
    ensures Sound(source, Step(source, w, Begin(k)))
  {
    hide Listed, Bounded, Drift;
    SameLists(w.cache, BeginAccess(w.cache, k, w.next).0);
    BuildKeepsFlying(source, w, k);
    hide Flying;
  }

  lemma BuildKeepsFlying<R>(source: Source<R>, w: World<R>, k: Key)
    requires Flying(w) && k !in w.cache.entries && k !in w.cache.inFlight
    ensures Flying(Step(source, w, Begin(k)))
  {
  }

  lemma TouchOnlyReorders<R>(c: Cache<R>, k: Key)
    ensures var t := Touch(c, k); t.entries == c.entries && t.inFlight == c.inFlight && t.generation == c.generation
  {
  }

  lemma LandKeeps<R>(source: Source<R>, c: Cache<R>, k: Key)
    requires Listed(c) && Bounded(c)
    ensures var rows := source.rows(k);
      var t := CompleteFlight(c, k, rows, source.weight(rows));
      && Listed(t) && Bounded(t)
      && (k.snapshot.generation == c.generation ==>
           OnlyAdds(c.(inFlight := c.inFlight - {k}), t, k, Entry(rows, source.weight(rows))))
      && Drift(t) == Drift(c) + (if k.snapshot.generation == c.generation && k in c.entries then c.entries[k].bytes else 0)
      && (k.snapshot.generation != c.generation ==> t == c.(inFlight := c.inFlight - {k}))
  {
    hide Listed, Bounded, Drift, Retain;
    var landed := c.(inFlight := c.inFlight - {k});
    SameLists(c, landed);
    RetainKeeps(landed, k, source.rows(k), source.weight(source.rows(k)));
  }

  lemma CompleteKeepsSound<R>(source: Source<R>, w: World<R>, f: nat)
    requires Sound(source, w)
    ensures Sound(source, Step(source, w, Complete(f)))
  {
    hide Listed, Bounded, Drift, CompleteFlight;
    if f in w.building {
      LandKeeps(source, w.cache, w.building[f]);
    }
  }

  lemma FailKeepsSound<R>(source: Source<R>, w: World<R>, f: nat)
    requires Sound(source, w)
    ensures Sound(source, Step(source, w, Fail(f)))
  {
    hide Listed, Bounded, Drift;
    if f in w.building {
      SameLists(w.cache, FailFlight(w.cache, w.building[f]));
    }
  }

  lemma StepKeepsSound<R>(source: Source<R>, w: World<R>, e: Event)
    requires Sound(source, w)
    ensures Sound(source, Step(source, w, e))
  {
    match e
    case Begin(k) => BeginKeepsSound(source, w, k);
    case Complete(f) => CompleteKeepsSound(source, w, f);
    case Fail(f) => FailKeepsSound(source, w, f);
    case Reset(generation) =>
      hide Listed, Bounded, Drift;
      EmptyIsSound<R>(generation);
  }

  lemma {:induction false} EveryRunIsSound<R>(source: Source<R>, events: seq<Event>)
    ensures Sound(source, Run(source, events))
    decreases |events|
  {
    hide Sound, Step;
    if events == [] {
      StartIsSound(source);
    } else {
      EveryRunIsSound(source, events[..|events| - 1]);
      StepKeepsSound(source, Run(source, events[..|events| - 1]), events[|events| - 1]);
    }
  }

  lemma StartIsSound<R>(source: Source<R>)
    ensures Sound(source, Start())
  {
    hide Listed, Bounded, Drift;
    EmptyIsSound<R>(0);
  }

  /** In every interleaving an access gives the rows its key's build computes: at once on a hit, and on a
      wait from a build of that very key that is still to deliver. The lists name the entries and their
      snapshots once each, within every bound. */
  lemma AccessIsTransparent<R>(source: Source<R>, events: seq<Event>, k: Key)
    ensures var w := Run(source, events);
      var access := BeginAccess(w.cache, k, w.next).1;
      && (access.Hit? ==> access.rows == source.rows(k))
      && (access.Wait? ==> access.flight in w.building && w.building[access.flight] == k)
      && (forall f :: f in w.delivered && w.delivered[f].Rows? ==> f in w.keys && w.delivered[f].rows == source.rows(w.keys[f]))
      && Listed(w.cache) && Bounded(w.cache) && Weight(w.cache.entries, w.cache.lru) <= w.cache.bytes
  {
    hide Listed, Bounded, Run, Weight, Touch;
    EveryRunIsSound(source, events);
    BeginKeepsSound(source, Run(source, events), k);
  }

  lemma OneMore<R>(source: Source<R>, events: seq<Event>, e: Event)
    ensures Run(source, events + [e]) == Step(source, Run(source, events), e)
  {
    hide Step;
    assert (events + [e])[..|events|] == events;
  }

  lemma ListedIgnoresHits<R>(c: Cache<R>)
    requires Listed(c)
    ensures Listed(c.(hits := c.hits + 1))
  {
  }

  lemma HitSteps<R>(source: Source<R>, w: World<R>, k: Key)
    requires Sound(source, w) && k in w.cache.entries
    ensures var u := Step(source, w, Begin(k));
      && CacheEviction.MovedLast(w.cache.lru, k, u.cache.lru)
      && CacheEviction.MovedLast(w.cache.versionLru, k.snapshot, u.cache.versionLru)
      && u == w.(cache := w.cache.(hits := w.cache.hits + 1, lru := u.cache.lru, versionLru := u.cache.versionLru))
  {
    hide Touch, Listed, Bounded, Drift, Transparent, Flying, CacheEviction.MovedLast;
    CacheEviction.TouchIsRecent(w.cache.(hits := w.cache.hits + 1), k) by { ListedIgnoresHits(w.cache); }
  }

  /** In every run a hit makes its key and its snapshot the most recently used, is counted, and changes nothing else. */
  lemma HitIsRecent<R>(source: Source<R>, events: seq<Event>, k: Key)
    requires k in Run(source, events).cache.entries
    ensures var w, u := Run(source, events), Run(source, events + [Begin(k)]);
      && CacheEviction.MovedLast(w.cache.lru, k, u.cache.lru)
      && CacheEviction.MovedLast(w.cache.versionLru, k.snapshot, u.cache.versionLru)
      && u == w.(cache := w.cache.(hits := w.cache.hits + 1, lru := u.cache.lru, versionLru := u.cache.versionLru))
  {
    hide *;
    EveryRunIsSound(source, events);
    OneMore(source, events, Begin(k));
    HitSteps(source, Run(source, events), k);
  }

  // ----- exact accounting -----

  /** The dropped generation has no build in progress. */
  predicate Quiet<R>(w: World<R>, e: Event) {
    e.Reset? ==> forall f :: f in w.building ==> w.building[f].snapshot.generation != e.generation
  }

  ghost predicate QuietRun<R>(source: Source<R>, events: seq<Event>)
    decreases |events|
  {
    events == [] || (var n := |events| - 1;
      QuietRun(source, events[..n]) && Quiet(Run(source, events[..n]), events[n]))
  }

  /** Every build of the current generation is the one in flight for its key, and its key is not retained;
      every retained key is of the current generation. */
  ghost predicate Single<R>(w: World<R>) {
    && (forall f :: f in w.building && w.building[f].snapshot.generation == w.cache.generation ==>
          w.building[f] in w.cache.inFlight && w.cache.inFlight[w.building[f]] == f)
    && (forall k :: k in w.cache.entries ==> k !in w.cache.inFlight && k.snapshot.generation == w.cache.generation)
    && Drift(w.cache) == 0
  }

  lemma BeginKeepsSingle<R>(source: Source<R>, w: World<R>, k: Key)
    requires Sound(source, w) && Single(w)
    ensures Single(Step(source, w, Begin(k)))
  {
    hide Listed, Bounded, Drift, Touch;
    var c := w.cache;
    if k in c.entries {
      SameLists(c, c.(hits := c.hits + 1));
      TouchKeeps(c.(hits := c.hits + 1), k);
      TouchOnlyReorders(c.(hits := c.hits + 1), k);
    } else {
      SameLists(c, BeginAccess(c, k, w.next).0);
    }
  }

  lemma CompleteKeepsSingle<R>(source: Source<R>, w: World<R>, f: nat)
    requires Sound(source, w) && Single(w)
    ensures Single(Step(source, w, Complete(f)))
  {
    hide Listed, Bounded, Drift, CompleteFlight;
    if f in w.building {
      var k := w.building[f];
      LandKeeps(source, w.cache, k);
      if k.snapshot.generation == w.cache.generation {
        OneBuildAKey(w, f);
      }
    }
  }

  lemma OneBuildAKey<R>(w: World<R>, f: nat)
    requires Single(w) && f in w.building && w.building[f].snapshot.generation == w.cache.generation
    ensures w.building[f] !in w.cache.entries
    ensures forall g :: g in w.building && w.building[g] == w.building[f] ==> g == f
  {
  }

  lemma FailKeepsSingle<R>(source: Source<R>, w: World<R>, f: nat)
    requires Sound(source, w) && Single(w)
    ensures Single(Step(source, w, Fail(f)))
  {
    hide Listed, Bounded, Drift;
    if f in w.building {
      SameLists(w.cache, FailFlight(w.cache, w.building[f]));
    }
  }

  lemma {:induction false} EveryQuietRunIsSingle<R>(source: Source<R>, events: seq<Event>)
    requires QuietRun(source, events)
    ensures Single(Run(source, events))
    decreases |events|
  {
    hide Listed, Bounded, Drift, Step, Sound, Single;
    if events == [] {
      StartIsSingle<R>();
    } else {
      var n := |events| - 1;
      var w := Run(source, events[..n]);
      EveryQuietRunIsSingle(source, events[..n]);
      EveryRunIsSound(source, events[..n]);
      match events[n]
      case Begin(k) => BeginKeepsSingle(source, w, k);
      case Complete(f) => CompleteKeepsSingle(source, w, f);
      case Fail(f) => FailKeepsSingle(source, w, f);
      case Reset(generation) => ResetKeepsSingle(source, w, generation);
    }
  }

  lemma StartIsSingle<R>()
    ensures Single(Start<R>())
  {
    hide Drift;
    EmptyIsSound<R>(0);
  }

  lemma ResetKeepsSingle<R>(source: Source<R>, w: World<R>, generation: nat)
    requires Quiet(w, Reset(generation))
    ensures Single(Step(source, w, Reset(generation)))
  {
    hide Drift;
    EmptyIsSound<R>(generation);
  }

  /** Two builds in progress for one key of the current generation. */
  predicate SameBuild<R>(w: World<R>, f: nat, g: nat) {
    && f in w.building && g in w.building && w.building[f] == w.building[g]
    && w.building[f].snapshot.generation == w.cache.generation
  }

  /** While no generation is dropped under a build of its own, a key of the current generation has at most
      one build in progress and the byte count is exactly the weight of the entries. */
  lemma QuietRunsAreExact<R>(source: Source<R>, events: seq<Event>)
    requires QuietRun(source, events)
    ensures var w := Run(source, events);
      && w.cache.bytes == Weight(w.cache.entries, w.cache.lru)
      && forall f, g :: SameBuild(w, f, g) ==> f == g
  {
    hide Run;
    EveryQuietRunIsSingle(source, events);
    var w := Run(source, events);
    forall f, g | SameBuild(w, f, g) ensures f == g {
      OneBuildAKey(w, f);
    }
  }

  /** The next completion keeps the count exact exactly when it does not land on a retained key. */
  lemma CompletionIsExactIff<R>(source: Source<R>, w: World<R>, f: nat)
    requires Sound(source, w) && Drift(w.cache) == 0 && f in w.building
    requires source.weight(source.rows(w.building[f])) > 0
    ensures Drift(Step(source, w, Complete(f)).cache) == 0 <==>
      !(w.building[f].snapshot.generation == w.cache.generation && w.building[f] in w.cache.entries)
  {
    hide Listed, Bounded, Drift, CompleteFlight;
    LandKeeps(source, w.cache, w.building[f]);
  }

  /** A completion that lands on a retained key counts that key's weight again. */
  function CountedAgain<R>(w: World<R>, e: Event): nat {
    if e.Complete? && e.flight in w.building && w.building[e.flight].snapshot.generation == w.cache.generation
      && w.building[e.flight] in w.cache.entries
    then w.cache.entries[w.building[e.flight]].bytes else 0
  }

  lemma StepDrift<R>(source: Source<R>, w: World<R>, e: Event)
    requires Sound(source, w)
    ensures Drift(Step(source, w, e).cache) == if e.Reset? then 0 else Drift(w.cache) + CountedAgain(w, e)
  {
    hide Listed, Bounded, Drift, CompleteFlight, Touch;
    match e
    case Begin(k) =>
      if k in w.cache.entries {
        SameLists(w.cache, w.cache.(hits := w.cache.hits + 1));
        TouchKeeps(w.cache.(hits := w.cache.hits + 1), k);
      } else {
        SameLists(w.cache, BeginAccess(w.cache, k, w.next).0);
      }
    case Complete(f) =>
      if f in w.building {
        LandKeeps(source, w.cache, w.building[f]);
      }
    case Fail(f) =>
      if f in w.building {
        SameLists(w.cache, FailFlight(w.cache, w.building[f]));
      }
    case Reset(generation) => EmptyIsSound<R>(generation);
  }

  /** The run's `i`-th step counts a weight again, and no later step drops the caches. */
  predicate LeavesDrift<R>(source: Source<R>, events: seq<Event>, i: nat)
    requires i < |events|
  {
    CountedAgain(Run(source, events[..i]), events[i]) > 0 && forall j :: i < j < |events| ==> !events[j].Reset?
  }

  /** Over a whole run the byte count is the weight of the entries exactly when every completion that landed on
      a retained key was followed by a drop of the caches. */
  lemma {:induction false} RunIsExactIff<R>(source: Source<R>, events: seq<Event>)
    ensures Drift(Run(source, events).cache) >= 0
    ensures Drift(Run(source, events).cache) == 0 <==> forall i: nat :: i < |events| ==> !LeavesDrift(source, events, i)
    decreases |events|
  {
    hide Drift, Step, Sound, CountedAgain;
    if events == [] {
      EmptyIsSound<R>(0);
    } else {
      var n := |events| - 1;
      var before := events[..n];
      RunIsExactIff(source, before);
      EveryRunIsSound(source, before);
      StepDrift(source, Run(source, before), events[n]);
      forall i: nat | i < n ensures LeavesDrift(source, events, i) <==> LeavesDrift(source, before, i) && !events[n].Reset? {
        assert before[..i] == events[..i];
      }
      assert LeavesDrift(source, events, n) <==> CountedAgain(Run(source, before), events[n]) > 0;
      ResetCountsNothing(Run(source, before), events[n]);
    }
  }

  lemma ResetCountsNothing<R>(w: World<R>, e: Event)
    ensures e.Reset? ==> CountedAgain(w, e) == 0
  {
  }

  /** One build lands on an empty cache and stays, if it is not too heavy on its own. */
  lemma FirstLanding<R>(c: Cache<R>, k: Key, rows: R, bytes: nat)
    requires c.entries == map[] && c.lru == [] && c.versionLru == [] && c.bytes == 0 && bytes <= BYTE_LIMIT
    requires k.snapshot.generation == c.generation
    ensures CompleteFlight(c, k, rows, bytes).entries == map[k := Entry(rows, bytes)]
    ensures CompleteFlight(c, k, rows, bytes).generation == c.generation
  {
    hide EnforceBounds;
    var landed := c.(inFlight := c.inFlight - {k});
    var placed := Touch(landed.(entries := c.entries[k := Entry(rows, bytes)], bytes := c.bytes + bytes), k);
    assert placed.lru == [k] && placed.versionLru == [k.snapshot];
    assert placed.entries == map[k := Entry(rows, bytes)];
    NothingOver(placed, k);
  }

  lemma NothingOver<R>(c: Cache<R>, k: Key)
    requires c.lru == [k] && c.versionLru == [k.snapshot] && c.entries.Keys == {k} && c.bytes <= BYTE_LIMIT
    ensures EnforceBounds(c, k.snapshot).entries == c.entries && EnforceBounds(c, k.snapshot).generation == c.generation
  {
    assert OfSnapshot(c.lru, k.snapshot) == [k];
    assert Elements([k][..0]) == {};
    RemovesNone(c, k);
    assert TrimSnapshot(c, k.snapshot) == RemoveEntries(c, {});
    assert (set x | x in c.lru && x.snapshot in c.versionLru[..0]) == {};
    assert TrimVersions(c) == RemoveEntries(c, {});
  }

  lemma RemovesNone<R>(c: Cache<R>, k: Key)
    requires c.lru == [k] && c.versionLru == [k.snapshot] && c.entries.Keys == {k}
    ensures RemoveEntries(c, {}) == c
  {
    var none: set<Key> := {};
    assert [k][1..] == [] && [k.snapshot][1..] == [];
    assert k in c.entries.Keys;
    assert k.snapshot in SnapshotsOf(c.entries.Keys);
    assert Within(c.versionLru, SnapshotsOf(c.entries.Keys)) == c.versionLru;
    assert Without(c.lru, none) == c.lru;
    assert Weight(c.entries, Within(c.lru, none)) == 0;
    assert |none * c.entries.Keys| == 0;
    assert c.entries - none == c.entries;
  }

  /** A build is under way when the caches are dropped, and a second one starts. */
  lemma TwoBuilds<R>(source: Source<R>, k: Key, events: seq<Event>)
    requires k.snapshot.generation == 0 && |events| >= 3
    requires events[0] == Begin(k) && events[1] == Reset(0) && events[2] == Begin(k)
    ensures Run(source, events[..3]).building == map[0 := k, 1 := k]
    ensures var c := Run(source, events[..3]).cache;
      c.entries == map[] && c.lru == [] && c.versionLru == [] && c.bytes == 0 && c.generation == 0
  {
    assert events[..0] == [];
    assert Run(source, []) == Start();
    hide Run;
    RunStep(source, events, 0);
    RunStep(source, events, 1);
    RunStep(source, events, 2);
  }

  /** The first of them lands and stays. */
  lemma FirstLands<R>(source: Source<R>, k: Key, events: seq<Event>)
    requires k.snapshot.generation == 0 && |events| >= 4 && events[3] == Complete(0)
    requires events[0] == Begin(k) && events[1] == Reset(0) && events[2] == Begin(k)
    requires source.weight(source.rows(k)) <= BYTE_LIMIT
    ensures var w := Run(source, events[..4]);
      w.building == map[1 := k] && w.cache.generation == 0
      && w.cache.entries == map[k := Entry(source.rows(k), source.weight(source.rows(k)))]
  {
    hide Run, CompleteFlight;
    TwoBuilds(source, k, events);
    RunStep(source, events, 3);
    FirstLanding(Run(source, events[..3]).cache, k, source.rows(k), source.weight(source.rows(k)));
    assert map[0 := k, 1 := k] - {0} == map[1 := k];
  }

  /** It happens: a build is under way when the caches are dropped without a new generation, a second reader
      starts another, and both land. */
  lemma DroppedUnderABuild<R>(source: Source<R>, k: Key)
    requires k.snapshot.generation == 0 && 0 < source.weight(source.rows(k)) <= BYTE_LIMIT
    ensures var w := Run(source, [Begin(k), Reset(0), Begin(k), Complete(0), Complete(1)]);
      w.cache.bytes > Weight(w.cache.entries, w.cache.lru)
  {
    hide *;
    var events := [Begin(k), Reset(0), Begin(k), Complete(0), Complete(1)];
    FirstLands(source, k, events);
    RunStep(source, events, 4);
    assert events[..5] == events;
    EveryRunIsSound(source, events[..4]);
    RunIsExactIff(source, events[..4]);
    StepDrift(source, Run(source, events[..4]), Complete(1));
    LandsAgain(Run(source, events[..4]), k, 1);
    DriftMeans(Run(source, events).cache);
  }

  lemma LandsAgain<R>(w: World<R>, k: Key, f: nat)
    requires f in w.building && w.building[f] == k && k.snapshot.generation == w.cache.generation && k in w.cache.entries
    ensures CountedAgain(w, Complete(f)) == w.cache.entries[k].bytes
  {
  }

  lemma DriftMeans<R>(c: Cache<R>)
    ensures Drift(c) > 0 <==> c.bytes > Weight(c.entries, c.lru)
  {
  }

  lemma RunStep<R>(source: Source<R>, events: seq<Event>, i: nat)
    requires i < |events|
    ensures Run(source, events[..i + 1]) == Step(source, Run(source, events[..i]), events[i])
  {
    hide Step;
    assert events[..i + 1][..i] == events[..i];
  }

  // ----- dropping without the lock -----

  /** What happens one memory access at a time. Starting and completing read the cache and write it back
      under the lock; failing swaps it in one access; dropping is one write that takes no lock. */
  datatype CellAccess = Read(e: Event) | Write | Swap(flight: nat) | Drop(generation: nat)

  /** The world, and what the holder of the lock has read and is about to write. */
  datatype Shared<+R> = Shared(world: World<R>, held: Option<(Cache<R>, Event)>)

  function Touched<R>(source: Source<R>, s: Shared<R>, a: CellAccess): Shared<R> {
    match a
    case Read(e) =>
      if s.held.Some? || !(e.Begin? || e.Complete?) then s else s.(held := Some((s.world.cache, e)))
    case Write =>
      if s.held.None? then s else
      Shared(Step(source, s.world.(cache := s.held.value.0), s.held.value.1), None)
    case Swap(f) => if s.held.Some? then s else s.(world := Step(source, s.world, Fail(f)))
    case Drop(generation) => s.(world := Step(source, s.world, Reset(generation)))
  }

  function Shares<R>(source: Source<R>, accesses: seq<CellAccess>): Shared<R>
    decreases |accesses|
  {
    if accesses == [] then Shared(Start(), None) else
    var n := |accesses| - 1;
    Touched(source, Shares(source, accesses[..n]), accesses[n])
  }

  /** The steps that took effect: a drop between a locked read and its write is overwritten. */
  function Effects<R>(source: Source<R>, accesses: seq<CellAccess>): seq<Event>
    decreases |accesses|
  {
    if accesses == [] then [] else
    var n := |accesses| - 1;
    var before := Effects(source, accesses[..n]);
    var held := Shares(source, accesses[..n]).held;
    match accesses[n]
    case Read(_) => before
    case Write => if held.Some? then before + [held.value.1] else before
    case Swap(f) => if held.None? then before + [Fail(f)] else before
    case Drop(generation) => if held.None? then before + [Reset(generation)] else before
  }

  /** What the cells hold, one access at a time, is what the steps that took effect make of them. */
  lemma {:induction false} UnlockedDropRefines<R>(source: Source<R>, accesses: seq<CellAccess>)
    ensures var s := Shares(source, accesses);
      Run(source, Effects(source, accesses)) == if s.held.None? then s.world else s.world.(cache := s.held.value.0)
    decreases |accesses|
  {
    hide Step;
    if accesses != [] {
      var n := |accesses| - 1;
      UnlockedDropRefines(source, accesses[..n]);
      var before := Effects(source, accesses[..n]);
      forall e: Event ensures Run(source, before + [e]) == Step(source, Run(source, before), e) {
        assert (before + [e])[..|before|] == before;
      }
      DropOnlyClears(source, Shares(source, accesses[..n]).world);
    }
  }

  lemma DropOnlyClears<R>(source: Source<R>, w: World<R>)
    ensures forall generation :: Step(source, w, Reset(generation)) == w.(cache := Empty(generation))
  {
  }

  /** Every retained key is of the cache's generation. */
  ghost predicate Current<R>(w: World<R>, generation: nat) {
    w.cache.generation == generation && forall k :: k in w.cache.entries ==> k.snapshot.generation == generation
  }

  lemma StepKeepsCurrent<R>(source: Source<R>, w: World<R>, e: Event, generation: nat)
    requires Sound(source, w) && Current(w, generation) && !e.Reset?
    ensures Current(Step(source, w, e), generation)
  {
    hide Listed, Bounded, Drift, CompleteFlight, Touch;
    match e
    case Begin(k) => TouchOnlyReorders(w.cache.(hits := w.cache.hits + 1), k);
    case Complete(f) =>
      if f in w.building {
        LandKeeps(source, w.cache, w.building[f]);
      }
    case Fail(f) =>
    case Reset(_) =>
  }

  lemma {:induction false} UndroppedStaysCurrent<R>(source: Source<R>, events: seq<Event>)
    requires forall e :: e in events ==> !e.Reset?
    ensures Current(Run(source, events), 0)
    decreases |events|
  {
    assert Current(Start<R>(), 0);
    hide Step, Sound, Current;
    if events != [] {
      var n := |events| - 1;
      UndroppedStaysCurrent(source, events[..n]);
      EveryRunIsSound(source, events[..n]);
      StepKeepsCurrent(source, Run(source, events[..n]), events[n], 0);
    }
  }

  lemma {:induction false} DropIsLost<R>(source: Source<R>, k: Key, generation: nat, more: seq<CellAccess>)
    requires forall a :: a in more ==> !a.Drop?
    ensures forall e :: e in Effects(source, [Read(Begin(k)), Drop(generation), Write] + more) ==> !e.Reset?
    ensures var held := Shares(source, [Read(Begin(k)), Drop(generation), Write] + more).held;
      held.Some? ==> !held.value.1.Reset?
    decreases |more|
  {
    hide Step;
    var accesses := [Read(Begin(k)), Drop(generation), Write];
    if more == [] {
      assert accesses + more == accesses;
      assert accesses[..2] == [Read(Begin(k)), Drop(generation)] && accesses[..1] == [Read(Begin(k))] && accesses[..0] == [];
      SharesStep(source, accesses, 0);
      SharesStep(source, accesses, 1);
      SharesStep(source, accesses, 2);
      assert accesses[..3] == accesses;
    } else {
      var n := |more| - 1;
      assert (accesses + more)[..3 + n] == accesses + more[..n];
      DropIsLost(source, k, generation, more[..n]);
    }
  }

  lemma SharesStep<R>(source: Source<R>, accesses: seq<CellAccess>, i: nat)
    requires i < |accesses|
    ensures Shares(source, accesses[..i + 1]) == Touched(source, Shares(source, accesses[..i]), accesses[i])
    ensures var held := Shares(source, accesses[..i]).held;
      var before := Effects(source, accesses[..i]);
      Effects(source, accesses[..i + 1]) ==
        match accesses[i]
        case Read(_) => before
        case Write => if held.Some? then before + [held.value.1] else before
        case Swap(f) => if held.None? then before + [Fail(f)] else before
        case Drop(g) => if held.None? then before + [Reset(g)] else before
  {
    hide Touched;
    assert accesses[..i + 1][..i] == accesses[..i];
  }

  /** So reading stays transparent, but a drop can be lost: when it falls between the read and the write of one
      locked access, the cache stays on the old generation and, until the caches are dropped again, retains no
      build of the new one. */
  lemma LostDropRetainsNothing<R>(source: Source<R>, k: Key, generation: nat, more: seq<CellAccess>)
    requires forall a :: a in more ==> !a.Drop?
    requires Shares(source, [Read(Begin(k)), Drop(generation), Write] + more).held.None?
    ensures var c := Shares(source, [Read(Begin(k)), Drop(generation), Write] + more).world.cache;
      c.generation == 0 && forall key :: key in c.entries ==> key.snapshot.generation == 0
  {
    hide Shares, Effects, Run;
    var accesses := [Read(Begin(k)), Drop(generation), Write] + more;
    DropIsLost(source, k, generation, more);
    UnlockedDropRefines(source, accesses);
    UndroppedStaysCurrent(source, Effects(source, accesses));
  }
}
