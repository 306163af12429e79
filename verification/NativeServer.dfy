/** The native server's store: write-ahead dispatch over counted generations, compaction, and shutdown. */
module NativeServer {
  import opened Bytes
  import opened NativeHeap
  import opened NativeStorage

  /** What the generated engine makes of a log, and of a request on a state. */
  datatype Boot<+S> = Boot(ok: bool, state: S, valid: int, append: seq<int>)

  datatype Answer<+S> = Answer(ok: bool, append: seq<int>, changed: bool, state: S)

  datatype Engine<!S> = Engine(
    boot: Octets -> Boot<S>,
    dispatch: (S, Octets, int) -> Answer<S>,
    fold: Octets -> S)

  /** The engine appends every state change: booting and dispatching give the state of the log they imply. */
  ghost predicate Faithful<S>(e: Engine<S>) {
    && (forall log :: BootFolds(e, log))
    && (forall log, q, now :: DispatchFolds(e, log, q, now))
  }

  ghost predicate BootFolds<S>(e: Engine<S>, log: Octets) {
    var b := e.boot(log);
    b.ok && 0 <= b.valid <= |log| && AllOctets(b.append) ==> b.state == e.fold(log[..b.valid] + ToOctets(b.append))
  }

  ghost predicate DispatchFolds<S>(e: Engine<S>, log: Octets, q: Octets, now: int) {
    var a := e.dispatch(e.fold(log), q, now);
    a.ok && a.changed && AllOctets(a.append) ==> a.state == e.fold(log + ToOctets(a.append))
  }

  datatype Outcome = Published | Answered | Unanswered | AppendFailed | Refused

  /** Which allocations and which host calls fail during one operation. */
  datatype Faults = Faults(owner: bool, generation: bool, response: bool, encoder: bool, snapshot: bool)

  datatype Call =
    | Start(reserved: nat)
    | Decode(decodes: bool)
    | Serve(request: nat, q: Octets, now: Option<int>, reserved: nat, compacting: nat)
    | Idle(reserved: nat)
    | Release(request: nat)
    | Stop

  /** The store keeps what it published: only counts of that generation may differ. */
  ghost predicate KeepsPublished<S>(h: Heap<S>, t: Heap<S>) {
    && t.requests == h.requests && t.current == h.current
    && (h.current.Some? && h.current.value in h.generations ==>
         h.current.value in t.generations
         && t.generations[h.current.value]
           == h.generations[h.current.value].(references := t.generations[h.current.value].references))
  }

  /** Generation `g` is new in `t`, with the state, size and chain it was asked for. */
  ghost predicate Created<S>(h: Heap<S>, t: Heap<S>, g: nat, parent: Option<nat>, state: S, reserved: nat) {
    && g !in h.generations && g in t.generations && h.generations.Keys <= t.generations.Keys
    && (parent.Some? ==> parent.value in h.generations)
    && t.generations[g].state == state && t.generations[g].parent == parent
    && t.generations[g].length == 1 + (if parent.None? then 0 else h.generations[parent.value].length)
    && t.generations[g].bytes == reserved + (if parent.None? then 0 else h.generations[parent.value].bytes)
  }

  lemma KeepsItself<S>(h: Heap<S>)
    ensures KeepsPublished(h, h)
  {
  }

  lemma CreateFacts<S>(h: Heap<S>, owner: nat, parent: Option<nat>, state: S, reserved: nat, to: multiset<nat>, tg: multiset<nat>)
    requires Counted(h, to, tg) && Measured(h) && owner in h.owners && (parent.Some? ==> parent.value in h.generations)
    ensures var t := GenerationCreate(h, owner, parent, state, reserved);
      && Counted(t, to, tg + multiset{h.next}) && Measured(t)
      && KeepsPublished(h, t) && Created(h, t, h.next, parent, state, reserved)
  {
    NobodyHolds(h, to, tg);
    CreateKeepsLive(h, owner, parent, state, reserved, to, tg);
    hide *;
    GenerationCreateCounted(h, owner, parent, state, reserved, to, tg);
    MeasuredAfterCreate(h, owner, parent, state, reserved);
    CreatedFrame(h, owner, parent, state, reserved);
  }

  lemma CreatedFrame<S>(h: Heap<S>, owner: nat, parent: Option<nat>, state: S, reserved: nat)
    requires h.next !in h.generations && owner in h.owners && (parent.Some? ==> parent.value in h.generations)
    ensures var t := GenerationCreate(h, owner, parent, state, reserved);
      KeepsPublished(h, t) && Created(h, t, h.next, parent, state, reserved)
  {
  }

  lemma ReleaseKeepsPublished<S>(h: Heap<S>, g: nat, owners: multiset<nat>, generations: multiset<nat>)
    requires Counted(h, owners, generations) && g in generations && Measured(h)
    ensures KeepsPublished(h, GenerationRelease(h, g)) && Measured(GenerationRelease(h, g))
    ensures Counted(GenerationRelease(h, g), owners, generations - multiset{g})
  {
    hide OwnerExact, GenerationExact;
    GenerationReleaseCounted(h, g, owners, generations);
    ReleaseOnlyReleases(h, g);
    MeasuredAfterRelease(h, GenerationRelease(h, g));
    CurrentIsLive(GenerationRelease(h, g));
  }

  lemma OwnerStepsKeepPublished<S>(h: Heap<S>, t: Heap<S>)
    requires Measured(h) && t.generations == h.generations && t.requests == h.requests && t.current == h.current
    ensures KeepsPublished(h, t) && Measured(t)
  {
    forall g | g in h.generations ensures Chain(t, g) == Chain(h, g) {
      ChainByGenerations(h, t, g);
    }
  }

  lemma {:induction false} ChainByGenerations<S>(h: Heap<S>, t: Heap<S>, g: nat)
    requires t.generations == h.generations
    ensures Chain(t, g) == Chain(h, g)
    decreases g
  {
    if g in h.generations && h.generations[g].parent.Some? && h.generations[g].parent.value < g {
      ChainByGenerations(h, t, h.generations[g].parent.value);
    }
  }

  /** What a dispatch needs of the generation it works from: its state, and the size and length of its chain. */
  datatype Standing<+S> = Standing(state: S, bytes: nat, length: nat)

  function StandingOf<S>(g: Generation<S>): Standing<S> { Standing(g.state, g.bytes, g.length) }

  class Server<S> {
    const engine: Engine<S>
    const storage: Storage
    const limits: Limits
    var owners: map<nat, nat>
    var generations: map<nat, Generation<S>>
    var requests: map<nat, nat>
    var current: Option<nat>
    var next: nat
    var poisoned: bool
    var baseBytes: nat
    var baseGenerations: nat

    ghost function View(): Heap<S>
      reads this
    {
      Heap(owners, generations, requests, current, next)
    }

    /** Every count exact and every chain measured, whatever operation is under way. */
    ghost predicate Sound(temporaryOwners: multiset<nat>, temporaryGenerations: multiset<nat>)
      reads this
    {
      Counted(View(), temporaryOwners, temporaryGenerations) && Measured(View())
    }

    /** The published generation's place in its chain, its state as the fold of the log, and every octet of
        that log behind a barrier. */
    ghost predicate Current()
      reads this, storage
    {
      current.Some? && current.value in generations ==>
        var g := generations[current.value];
        && baseGenerations == 1 && 1 <= g.length <= limits.generations + 1 && baseBytes <= g.bytes
        && (Faithful(engine) && !poisoned ==> g.state == engine.fold(storage.bytes))
        && (!poisoned ==> storage.durable == storage.bytes)
    }

    /** The state readers see is the fold of `log`. */
    ghost predicate Shows(h: Heap<S>, log: Octets) {
      h.current.Some? && h.current.value in h.generations && h.generations[h.current.value].state == engine.fold(log)
    }

    ghost predicate Valid()
      reads this, storage
    {
      Sound(multiset{}, multiset{}) && Current() && limits.generations >= 8 && limits.increment >= MIB
    }

    constructor (engine: Engine<S>, storage: Storage, budget: nat)
      ensures Valid() && current == None && requests == map[] && !poisoned
      ensures this.engine == engine && this.storage == storage && limits == DeriveLimits(budget)
    {
      this.engine, this.storage, limits := engine, storage, DeriveLimits(budget);
      owners, generations, requests, current, next := map[], map[], map[], None, 1;
      poisoned, baseBytes, baseGenerations := false, 0, 0;
    }

    // ----- counted allocations -----

    method CreateOwner(ghost to: multiset<nat>, ghost tg: multiset<nat>) returns (o: nat)
      requires Sound(to, tg)
      modifies this`owners, this`next
      ensures o == old(next) && View() == OwnerCreate(old(View())) && Sound(to + multiset{o}, tg)
      ensures KeepsPublished(old(View()), View())
    {
      hide Counted, Measured, KeepsPublished;
      OwnerCreateCounted(View(), to, tg);
      o := next;
      owners, next := owners[next := 1], next + 1;
      OwnerStepsKeepPublished(old(View()), View());
    }

    method ReleaseOwner(o: nat, ghost to: multiset<nat>, ghost tg: multiset<nat>)
      requires Sound(to, tg) && o in to
      modifies this`owners
      ensures View() == OwnerRelease(old(View()), o) && Sound(to - multiset{o}, tg)
      ensures KeepsPublished(old(View()), View())
    {
      OwnerIsLive(View(), o, to, tg);
      hide Counted, Measured, KeepsPublished;
      OwnerReleaseCounted(View(), o, to, tg);
      if owners[o] == 1 {
        owners := owners - {o};
      } else {
        owners := owners[o := owners[o] - 1];
      }
      OwnerStepsKeepPublished(old(View()), View());
    }

    /** Takes a hold on the owner and on the parent; None when memory or the size accounting runs out. */
    method CreateGeneration(owner: nat, parent: Option<nat>, state: S, reserved: nat, fails: bool,
                            ghost to: multiset<nat>, ghost tg: multiset<nat>) returns (g: Option<nat>)
      requires Sound(to, tg) && owner in owners && (parent.Some? ==> parent.value in generations)
      modifies this`owners, this`generations, this`next
      ensures KeepsPublished(old(View()), View())
      ensures g.None? <==> fails || Overflows(old(View()), parent, reserved)
      ensures g.None? ==> View() == old(View())
      ensures g.Some? ==> Sound(to, tg + multiset{g.value}) && Created(old(View()), View(), g.value, parent, state, reserved)
    {
      if fails || (parent.Some? && generations[parent.value].bytes > SIZE_MAX - reserved) {
        KeepsItself(View());
        return None;
      }
      CreateFacts(View(), owner, parent, state, reserved, to, tg);
      hide *;
      g := Some(next);
      LinkGeneration(owner, parent, state, reserved);
      IsSound(to, tg + multiset{g.value});
    }

    lemma IsSound(to: multiset<nat>, tg: multiset<nat>)
      requires Counted(View(), to, tg) && Measured(View())
      ensures Sound(to, tg)
    {
    }

    method LinkGeneration(owner: nat, parent: Option<nat>, state: S, reserved: nat)
      requires owner in owners && (parent.Some? ==> parent.value in generations)
      modifies this`owners, this`generations, this`next
      ensures View() == GenerationCreate(old(View()), owner, parent, state, reserved)
    {
      var bytes := reserved + (if parent.None? then 0 else generations[parent.value].bytes);
      var length := 1 + (if parent.None? then 0 else generations[parent.value].length);
      owners := owners[owner := owners[owner] + 1];
      if parent.Some? {
        var p := generations[parent.value];
        generations := generations[parent.value := p.(references := p.references + 1)];
      }
      generations, next := generations[next := Generation(1, owner, parent, state, bytes, length)], next + 1;
    }

    method ReleaseGeneration(g: nat, ghost to: multiset<nat>, ghost tg: multiset<nat>)
      requires Sound(to, tg) && g in tg
      modifies this`owners, this`generations
      ensures View() == GenerationRelease(old(View()), g) && Sound(to, tg - multiset{g})
      ensures KeepsPublished(old(View()), View())
      decreases g
    {
      ReleaseKeepsPublished(View(), g, to, tg);
      GenerationIsLive(View(), g, to, tg);
      hide KeepsPublished, Measured;
      ReleaseCounts(g, to, tg);
    }

    /** The counting itself: each address it touches is live. */
    method ReleaseCounts(g: nat, ghost to: multiset<nat>, ghost tg: multiset<nat>)
      requires Counted(View(), to, tg) && g in tg
      modifies this`owners, this`generations
      ensures View() == GenerationRelease(old(View()), g)
      decreases g
    {
      GenerationIsLive(View(), g, to, tg);
      hide OwnerExact, GenerationExact, OwnerRelease;
      var gen := generations[g];
      if gen.references != 1 {
        generations := generations[g := gen.(references := gen.references - 1)];
        return;
      }
      DropGeneration(View(), g, to, tg);
      OwnerStillLive(View(), g);
      ghost var rest := tg - multiset{g} + HeldParent(View(), g);
      generations := generations - {g};
      OwnerReleaseCounted(View(), gen.owner, to + multiset{gen.owner}, rest);
      assert to + multiset{gen.owner} - multiset{gen.owner} == to;
      DropOwnerCount(gen.owner);
      if gen.parent.Some? {
        ReleaseCounts(gen.parent.value, to, rest);
      }
    }

    method DropOwnerCount(o: nat)
      requires o in owners && owners[o] > 0
      modifies this`owners
      ensures View() == OwnerRelease(old(View()), o)
    {
      if owners[o] == 1 {
        owners := owners - {o};
      } else {
        owners := owners[o := owners[o] - 1];
      }
    }

    // ----- requests -----

    /** A decoded request holds its own arena. */
    method DecodeRequest(decodes: bool, faults: Faults) returns (request: Option<nat>)
      requires Valid()
      modifies this`owners, this`requests, this`next
      ensures Valid() && current == old(current) && generations == old(generations) && poisoned == old(poisoned)
      ensures request.Some? <==> decodes && !faults.owner && !faults.response
      ensures request.None? ==> requests == old(requests)
      ensures request.Some? ==> request.value !in old(requests) && requests.Keys == old(requests).Keys + {request.value}
    {
      hide Counted, Measured;
      if faults.owner {
        return None;
      }
      var o := CreateOwner(multiset{}, multiset{});
      if faults.response || !decodes {
        ReleaseOwner(o, multiset{} + multiset{o}, multiset{});
        assert multiset{} + multiset{o} - multiset{o} == multiset{};
        GenerationsUnder(old(View()), o);
        return None;
      }
      NobodyHolds(View(), multiset{} + multiset{o}, multiset{});
      RequestAddedSound(View(), o);
      request := Some(next);
      requests, next := requests[next := o], next + 1;
      assert View() == RequestAdded(View().(requests := old(requests), next := next - 1), o);
    }

    method ReleaseRequest(request: nat)
      requires Valid() && request in requests
      modifies this`owners, this`requests
      ensures Valid() && current == old(current) && generations == old(generations) && poisoned == old(poisoned)
      ensures requests == old(requests) - {request}
    {
      hide Counted, Measured;
      var o := requests[request];
      RequestRemovedSound(View(), request);
      requests := requests - {request};
      assert View() == RequestRemoved(old(View()), request);
      ReleaseOwner(o, multiset{o}, multiset{});
      assert multiset{o} - multiset{o} == multiset{};
    }

    // ----- booting and compacting -----

    /** A generation with no parent, made from the log; the caller owns the hold on it. */
    method BootGeneration(reserved: nat, faults: Faults) returns (g: Option<nat>)
      requires Sound(multiset{}, multiset{})
      modifies this`owners, this`generations, this`next
      ensures KeepsPublished(old(View()), View())
      ensures g.None? <==> faults.owner || faults.generation || !engine.boot(storage.bytes).ok
      ensures g.None? ==> Sound(multiset{}, multiset{})
      ensures g.Some? ==> Sound(multiset{}, multiset{g.value}) && Booted(View(), g.value, engine.boot(storage.bytes), reserved)
    {
      hide Counted, Measured, KeepsPublished, OwnerRelease, Created;
      ghost var h0 := View();
      if faults.owner {
        KeepsItself(h0);
        return None;
      }
      var o := CreateOwner(multiset{}, multiset{});
      OwnerIsLive(View(), o, multiset{} + multiset{o}, multiset{});
      ghost var h1, held := View(), multiset{} + multiset{o};
      var boot := engine.boot(storage.bytes);
      g := None;
      KeepsItself(h1);
      if boot.ok {
        g := CreateGeneration(o, None, boot.state, reserved, faults.generation, held, multiset{});
      }
      ghost var h2 := View();
      ghost var tg := if g.Some? then multiset{} + multiset{g.value} else multiset{};
      ReleaseOwner(o, held, tg);
      assert held - multiset{o} == multiset{};
      KeepsThrough(h0, h1, h2);
      KeepsThrough(h0, h2, View());
      if g.Some? {
        assert multiset{} + multiset{g.value} == multiset{g.value};
        OwnerIsLive(h2, o, held, tg);
        BootedFacts(h1, h2, o, g.value, boot, reserved);
      }
    }

    predicate NeedsCompaction()
      requires current.Some? && current.value in generations
      reads this
    {
      var g := generations[current.value];
      g.length - baseGenerations >= limits.generations || g.bytes - baseBytes >= limits.increment
    }

    /** Makes `g` the published generation and gives up the hold on the one before. */
    method Publish(g: nat)
      requires Sound(multiset{}, multiset{g}) && g in generations && current.Some?
      modifies this`owners, this`generations, this`current
      ensures Sound(multiset{}, multiset{}) && current == Some(g) && requests == old(requests) && next == old(next)
      ensures g in generations && generations[g] == old(generations)[g].(references := generations[g].references)
    {
      hide Counted, Measured, KeepsPublished;
      var previous := current.value;
      SwapSound(View(), g);
      current := Some(g);
      assert View() == old(View()).(current := Some(g));
      ghost var h := View();
      ReleaseGeneration(previous, multiset{}, multiset{previous});
      assert multiset{previous} - multiset{previous} == multiset{};
      PublishedKept(h, View(), g);
    }

    /** The log boots, adding nothing and leaving nothing over, and there is memory for it. */
    predicate Compactable(faults: Faults)
      reads this, storage
    {
      var boot := engine.boot(storage.bytes);
      !faults.owner && !faults.generation && boot.ok && boot.append == [] && boot.valid == |storage.bytes|
    }

    /** Rebuilds the published state from the log alone, in a chain of one. */
    method Compact(reserved: nat, faults: Faults) returns (ok: bool)
      requires Valid() && current.Some? && !poisoned
      modifies this`owners, this`generations, this`next, this`current, this`baseBytes, this`baseGenerations
      ensures Valid() && current.Some? && requests == old(requests)
      ensures ok <==> old(Compactable(faults))
      ensures !ok ==> KeepsPublished(old(View()), View()) && baseBytes == old(baseBytes) && baseGenerations == old(baseGenerations)
      ensures ok ==> current.value in generations && Booted(View(), current.value, engine.boot(storage.bytes), reserved)
      ensures ok ==> !NeedsCompaction()
      ensures Faithful(engine) ==> Shows(old(View()), old(storage.bytes)) && Shows(View(), old(storage.bytes))
    {
      hide Counted, Measured, OwnerRelease, GenerationRelease, KeepsPublished;
      ghost var h0 := View();
      CurrentFacts(h0);
      var g := BootGeneration(reserved, faults);
      if g.None? {
        KeptIsCurrent(h0, View());
        return false;
      }
      var boot := engine.boot(storage.bytes);
      if boot.append != [] || boot.valid != |storage.bytes| {
        ghost var h1 := View();
        ReleaseGeneration(g.value, multiset{}, multiset{g.value});
        assert multiset{g.value} - multiset{g.value} == multiset{};
        KeepsThrough(h0, h1, View());
        KeptIsCurrent(h0, View());
        return false;
      }
      CompactedState(engine, storage.bytes);
      Kept(h0, View());
      Publish(g.value);
      baseBytes, baseGenerations := generations[g.value].bytes, generations[g.value].length;
      return true;
    }

    /** The log boots, there is memory for it, and the storage takes what booting asks for. */
    predicate Openable(faults: Faults)
      reads this, storage
    {
      var boot := engine.boot(storage.bytes);
      !faults.owner && !faults.generation && boot.ok && Repairs(boot)
    }

    /** The torn tail can be cut off, the octets the engine adds fit, and the barrier holds. */
    predicate Repairs(boot: Boot<S>)
      reads storage
    {
      && 0 <= boot.valid <= |storage.bytes| && (boot.valid != |storage.bytes| ==> storage.truncates)
      && storage.Takes(boot.append) && storage.syncs != Some(0)
    }

    /** Boots the store: repairs a torn tail, writes what the engine adds, and publishes the state. */
    method Open(reserved: nat, faults: Faults) returns (ok: bool)
      requires Valid() && current == None && !poisoned
      modifies this`owners, this`generations, this`next, this`current, this`baseBytes, this`baseGenerations
      modifies storage`bytes, storage`room, storage`syncs, storage`durable
      ensures Valid() && requests == old(requests) && (ok <==> current.Some?) && !poisoned
      ensures ok <==> old(Openable(faults))
      ensures ok ==> var b := engine.boot(old(storage.bytes));
        && b.ok && 0 <= b.valid <= |old(storage.bytes)| && AllOctets(b.append)
        && storage.bytes == old(storage.bytes)[..b.valid] + ToOctets(b.append)
        && Booted(View(), current.value, b, reserved)
    {
      hide Counted, Measured, OwnerRelease, GenerationRelease, KeepsPublished, WriteVector;
      ghost var h0 := View();
      var boot := engine.boot(storage.bytes);
      var g := BootGeneration(reserved, faults);
      Kept(h0, View());
      if g.None? {
        return false;
      }
      ok := WriteBoot(boot);
      if !ok {
        ghost var h1 := View();
        ReleaseGeneration(g.value, multiset{}, multiset{g.value});
        assert multiset{g.value} - multiset{g.value} == multiset{};
        Kept(h1, View());
        return false;
      }
      BootedState(engine, old(storage.bytes));
      FirstSound(View(), g.value);
      current := g;
      assert View() == View().(current := g);
      baseBytes, baseGenerations := generations[g.value].bytes, generations[g.value].length;
    }

    method WriteBoot(boot: Boot<S>) returns (ok: bool)
      modifies storage`bytes, storage`room, storage`syncs, storage`durable
      ensures ok <==> old(Repairs(boot))
      ensures ok ==> 0 <= boot.valid <= |old(storage.bytes)| && AllOctets(boot.append)
      ensures ok ==> storage.bytes == old(storage.bytes)[..boot.valid] + ToOctets(boot.append)
      ensures ok ==> storage.durable == storage.bytes
    {
      if boot.valid < 0 || boot.valid > |storage.bytes| {
        return false;
      }
      if boot.valid != |storage.bytes| {
        var repaired := storage.Truncate(boot.valid);
        if !repaired {
          return false;
        }
      }
      ghost var kept := storage.bytes;
      assert kept == old(storage.bytes)[..boot.valid];
      if boot.append != [] {
        var written := storage.AppendVector(boot.append);
        if !written {
          return false;
        }
      } else {
        assert kept + ToOctets([]) == kept;
      }
      ok := storage.Sync();
    }

    /** Nothing has been written since the last compaction. */
    predicate Compacted()
      reads this
    {
      current.Some? && current.value in generations && generations[current.value].length <= baseGenerations
    }

    /** Compacts when writes have piled up since the last compaction, and only then. */
    method CompactIdle(reserved: nat, faults: Faults) returns (r: Outcome)
      requires Valid() && current.Some?
      modifies this`owners, this`generations, this`next, this`current, this`baseBytes, this`baseGenerations
      ensures Valid() && current.Some? && requests == old(requests)
      ensures poisoned ==> r.Refused? && View() == old(View())
      ensures r.Answered? <==> !poisoned && old(Compacted())
      ensures r.Answered? ==> View() == old(View())
      ensures r.Published? <==> !poisoned && !old(Compacted()) && old(Compactable(faults))
      ensures r.Published? ==> current.value in generations && Booted(View(), current.value, engine.boot(storage.bytes), reserved)
      ensures r.Refused? ==> KeepsPublished(old(View()), View())
    {
      CurrentFacts(View());
      if poisoned {
        KeepsItself(View());
        return Refused;
      }
      if generations[current.value].length <= baseGenerations {
        return Answered;
      }
      var ok := Compact(reserved, faults);
      return if ok then Published else Refused;
    }

    // ----- dispatch -----

    /** Appends the octets of a change and waits for the disk. */
    method WriteAhead(append: seq<int>) returns (ok: bool)
      modifies storage`bytes, storage`room, storage`syncs, storage`durable
      ensures old(storage.bytes) <= storage.bytes
      ensures ok <==> old(Durably(append))
      ensures ok ==> AllOctets(append) && storage.bytes == old(storage.bytes) + ToOctets(append)
      ensures ok ==> storage.durable == if append == [] then old(storage.durable) else storage.bytes
    {
      if append == [] {
        assert storage.bytes + ToOctets([]) == storage.bytes;
        return true;
      }
      ok := storage.AppendVector(append);
      if ok {
        ok := storage.Sync();
      }
    }

    /** Nothing to append, or it fits and the barrier holds. */
    predicate Durably(append: seq<int>)
      reads storage
    {
      append == [] || (storage.Takes(append) && storage.syncs != Some(0))
    }

    /** The chain has as many generations, or its arenas as many octets, past the last compaction as the limits
        allow. */
    predicate Due()
      requires current.Some? && current.value in generations
      reads this
    {
      var g := generations[current.value];
      g.length >= baseGenerations + limits.generations || g.bytes >= baseBytes + limits.increment
    }

    /** What a dispatch works from: the published generation, or the one a due compaction puts in its place. */
    function From(compacting: nat): Standing<S>
      requires current.Some? && current.value in generations
      reads this, storage
    {
      var g := generations[current.value];
      if Due() then Standing(engine.boot(storage.bytes).state, compacting, 1) else Standing(g.state, g.bytes, g.length)
    }

    /** Why a dispatch stops before it touches the log: a poisoned store, a due compaction that fails, no clock, no
        memory for the response, an engine that refuses or appends without a change, or no room for the change. */
    predicate Refuses(q: Octets, now: Option<int>, reserved: nat, compacting: nat, faults: Faults)
      requires current.Some? && current.value in generations
      reads this, storage
    {
      || poisoned || (Due() && !Compactable(faults)) || now.None? || faults.response
      || var from := From(compacting);
         var answer := engine.dispatch(from.state, q, now.value);
         !answer.ok || (answer.append != [] && !answer.changed)
         || (answer.changed && (faults.generation || from.bytes + reserved > SIZE_MAX))
    }

    /** Whether what the engine would have appended reaches the disk. */
    predicate ReachesDisk(q: Octets, now: int, compacting: nat)
      requires current.Some? && current.value in generations
      reads this, storage
    {
      Durably(engine.dispatch(From(compacting).state, q, now).append)
    }

    /** Answers one request: a change is in the log, synced, before it is published. It is refused for the reasons
        given and no other; then it fails exactly when its octets do not reach the disk; and otherwise the log has
        gained exactly those octets, behind a barrier, and readers see exactly the engine's new state. */
    method Dispatch(request: nat, q: Octets, now: Option<int>, reserved: nat, compacting: nat, faults: Faults) returns (r: Outcome)
      requires Valid() && current.Some? && request in requests
      modifies this`owners, this`generations, this`next, this`current, this`baseBytes, this`baseGenerations, this`poisoned
      modifies storage`bytes, storage`room, storage`syncs, storage`durable
      ensures Valid() && current.Some? && requests == old(requests)
      ensures old(current.value in generations) && current.value in generations
      ensures r.Refused? <==> old(Refuses(q, now, reserved, compacting, faults))
      ensures r.Refused? ==> storage.bytes == old(storage.bytes) && poisoned == old(poisoned)
      ensures old(poisoned) ==> View() == old(View())
      ensures r.Refused? && !old(poisoned) && !old(Due()) ==> KeepsPublished(old(View()), View())
      ensures !r.Refused? ==> Handled(engine.dispatch(old(From(compacting)).state, q, now.value),
        old(From(compacting)), faults, r, old(storage.bytes))
      ensures !r.Refused? ==> (r.AppendFailed? <==> !old(ReachesDisk(q, now.value, compacting)))
      ensures poisoned <==> old(poisoned) || r.AppendFailed?
      ensures r.AppendFailed? && Faithful(engine) ==> Shows(View(), old(storage.bytes)) && old(storage.bytes) <= storage.bytes
      ensures r.Refused? && Faithful(engine) && !poisoned ==> Shows(View(), old(storage.bytes))
    {
      CurrentFacts(View());
      if poisoned {
        return Refused;
      }
      hide Counted, Measured, KeepsPublished, Faithful, OwnerRelease, GenerationRelease;
      ghost var h0 := View();
      if NeedsCompaction() {
        var compacted := Compact(compacting, faults);
        CurrentFacts(View());
        if !compacted {
          return Refused;
        }
      } else {
        KeepsItself(View());
      }
      if now.None? || faults.response {
        return Refused;
      }
      CurrentFacts(View());
      var base := current.value;
      var answer := engine.dispatch(generations[base].state, q, now.value);
      if !answer.ok || (answer.append != [] && !answer.changed) {
        return Refused;
      }
      r := Perform(request, q, now.value, answer, reserved, faults);
    }

    /** What a dispatch that was not refused leaves, given the engine's answer and the state it answered from. */
    ghost predicate Handled(answer: Answer<S>, from: Standing<S>, faults: Faults, r: Outcome, log: Octets)
      requires current.Some? && current.value in generations
      reads this, storage
    {
      var g := generations[current.value];
      if r.AppendFailed? then log <= storage.bytes && g.state == from.state && g.length == from.length else
      && Performed(answer, log, storage.bytes)
      && (answer.append != [] ==> storage.durable == storage.bytes)
      && g.state == (if answer.changed then answer.state else from.state)
      && g.length == from.length + (if answer.changed then 1 else 0)
      && r == (if faults.snapshot || faults.owner || faults.encoder then Unanswered else
               if answer.changed then Published else Answered)
    }

    /** The part of a dispatch after the engine has answered. */
    method Perform(request: nat, q: Octets, now: int, answer: Answer<S>, reserved: nat, faults: Faults) returns (r: Outcome)
      requires Valid() && current.Some? && !poisoned && request in requests && current.value in generations
      requires generations[current.value].length <= limits.generations
      requires answer.ok && (answer.append != [] ==> answer.changed)
      requires answer == engine.dispatch(generations[current.value].state, q, now)
      modifies this`owners, this`generations, this`next, this`current, this`poisoned
      modifies storage`bytes, storage`room, storage`syncs, storage`durable
      ensures Valid() && current.Some? && requests == old(requests) && current.value in generations
      ensures r.Refused? <==> answer.changed && (faults.generation || old(generations[current.value].bytes) + reserved > SIZE_MAX)
      ensures r.Refused? ==> storage.bytes == old(storage.bytes) && View() == old(View())
      ensures !r.Refused? ==> Handled(answer, old(StandingOf(generations[current.value])), faults, r, old(storage.bytes))
      ensures !r.Refused? ==> (r.AppendFailed? <==> !old(Durably(answer.append)))
      ensures poisoned <==> r.AppendFailed?
      ensures r.AppendFailed? && Faithful(engine) ==> Shows(View(), old(storage.bytes)) && old(storage.bytes) <= storage.bytes
    {
      hide Counted, Measured, KeepsPublished, OwnerRelease, GenerationRelease, Faithful, Created;
      ghost var h0, log := View(), storage.bytes;
      var next_: Option<nat> := None;
      if answer.changed {
        RequestOwnerLive(View(), request);
        next_ := CreateGeneration(requests[request], Some(current.value), answer.state, reserved, faults.generation,
          multiset{}, multiset{});
        KeptIsCurrent(h0, View());
        if next_.None? {
          return Refused;
        }
        OnlyItself(next_.value);
        CreatedFields(h0, View(), next_.value, h0.current, answer.state, reserved);
      }
      ghost var h1 := View();
      var written := WriteAhead(answer.append);
      if !written {
        poisoned := true;
        if next_.Some? {
          ReleaseGeneration(next_.value, multiset{}, multiset{next_.value});
          OnlyItself(next_.value);
          KeptIsCurrent(h1, View());
        }
        return AppendFailed;
      }
      ChangeFolds(engine, log, q, now);
      if next_.Some? {
        Publish(next_.value);
      } else {
        assert ToOctets([]) == [] && log + [] == log;
      }
      r := Respond(faults, answer.changed);
    }

    lemma OnlyItself(g: nat)
      ensures multiset{} + multiset{g} == multiset{g} && multiset{g} - multiset{g} == multiset{}
    {
    }

    /** Writes any snapshot image and encodes the response in an arena of its own; a failure here leaves
        what was published. */
    method Respond(faults: Faults, changed: bool) returns (r: Outcome)
      requires Valid() && current.Some?
      modifies this`owners, this`next
      ensures Valid() && current == old(current) && requests == old(requests) && generations == old(generations)
      ensures r == if faults.snapshot || faults.owner || faults.encoder then Unanswered else if changed then Published else Answered
    {
      hide Counted, Measured, KeepsPublished;
      if faults.snapshot || faults.owner {
        return Unanswered;
      }
      var o := CreateOwner(multiset{}, multiset{});
      OnlyItself(o);
      GenerationsUnder(old(View()), o);
      GenerationsUnder(View(), o);
      ReleaseOwner(o, multiset{} + multiset{o}, multiset{});
      return if faults.encoder then Unanswered else if changed then Published else Answered;
    }

    // ----- shutdown -----

    /** Gives up the published chain. */
    method Shutdown()
      requires Valid() && current.Some?
      modifies this`owners, this`generations, this`current
      ensures Valid() && current == None && requests == old(requests)
      ensures requests == map[] ==> owners == map[] && generations == map[]
    {
      hide Counted, Measured, KeepsPublished, GenerationRelease;
      var last := current.value;
      ClearSound(View());
      current := None;
      assert View() == old(View()).(current := None);
      ReleaseGeneration(last, multiset{}, multiset{last});
      OnlyItself(last);
      ghost var t := View();
      Kept(old(View()).(current := None), t);
      if requests == map[] {
        NothingLeaks(t);
      }
    }

    // ----- runs -----

    /** Any calls in any order, any of them failing: every count stays exact, a durability failure is for
        good, and once the store is stopped and every request released nothing is left allocated. */
    method Run(calls: seq<(Call, Faults)>)
      requires Valid()
      modifies this, storage
      ensures Valid() && (old(poisoned) ==> poisoned)
      ensures current == None && requests == map[] ==> owners == map[] && generations == map[]
    {
      var i := 0;
      while i < |calls|
        invariant Valid() && (old(poisoned) ==> poisoned)
      {
        Step(calls[i].0, calls[i].1);
        i := i + 1;
      }
      if current == None && requests == map[] {
        NothingLeaks(View());
      }
    }

    method Step(call: Call, faults: Faults)
      requires Valid()
      modifies this, storage
      ensures Valid() && (old(poisoned) ==> poisoned)
    {
      hide Sound, Current;
      match call
      case Start(reserved) =>
        if current == None && !poisoned {
          var ok := Open(reserved, faults);
        }
      case Decode(decodes) =>
        var request := DecodeRequest(decodes, faults);
      case Serve(request, q, now, reserved, compacting) =>
        if current.Some? && request in requests {
          var r := Dispatch(request, q, now, reserved, compacting, faults);
        }
      case Idle(reserved) =>
        if current.Some? {
          var r := CompactIdle(reserved, faults);
        }
      case Release(request) =>
        if request in requests {
          ReleaseRequest(request);
        }
      case Stop =>
        if current.Some? {
          Shutdown();
        }
    }
  }

  /** What a dispatch leaves in the log when it succeeds. */
  ghost predicate Performed<S>(a: Answer<S>, before: Octets, after: Octets) {
    a.ok && AllOctets(a.append) && after == before + ToOctets(a.append)
  }

  lemma RequestOwnerLive<S>(h: Heap<S>, request: nat)
    requires Counted(h, multiset{}, multiset{}) && request in h.requests
    ensures h.requests[request] in h.owners
  {
    hide OwnerExact, GenerationExact;
  }

  lemma CreatedFields<S>(h: Heap<S>, t: Heap<S>, g: nat, parent: Option<nat>, state: S, reserved: nat)
    requires Created(h, t, g, parent, state, reserved) && parent.Some?
    ensures g in t.generations && parent.value in h.generations && t.generations[g].state == state
    ensures t.generations[g].length == 1 + h.generations[parent.value].length
    ensures t.generations[g].bytes >= h.generations[parent.value].bytes
  {
  }

  lemma ChangeFolds<S>(e: Engine<S>, log: Octets, q: Octets, now: int)
    ensures Faithful(e) ==> DispatchFolds(e, log, q, now)
  {
  }

  lemma ClearSound<S>(h: Heap<S>)
    requires Counted(h, multiset{}, multiset{}) && Measured(h) && h.current.Some?
    ensures Counted(h.(current := None), multiset{}, multiset{h.current.value}) && Measured(h.(current := None))
  {
    hide OwnerExact, GenerationExact, Linked;
    SwapCounted(h, None, multiset{}, multiset{});
    assert multiset{} + multiset{h.current.value} - multiset{} == multiset{h.current.value};
    SameGenerationsMeasured(h, h.(current := None));
  }

  /** A booted log, repaired and extended as the engine asked, folds to the booted state. */
  lemma BootedState<S>(e: Engine<S>, log: Octets)
    requires var b := e.boot(log); b.ok && 0 <= b.valid <= |log| && AllOctets(b.append)
    ensures Faithful(e) ==> e.boot(log).state == e.fold(log[..e.boot(log).valid] + ToOctets(e.boot(log).append))
  {
    if Faithful(e) {
      assert BootFolds(e, log);
    }
  }

  lemma FirstSound<S>(h: Heap<S>, g: nat)
    requires Counted(h, multiset{}, multiset{g}) && Measured(h) && h.current == None
    ensures Counted(h.(current := Some(g)), multiset{}, multiset{}) && Measured(h.(current := Some(g)))
  {
    hide OwnerExact, GenerationExact, Linked;
    SwapCounted(h, Some(g), multiset{}, multiset{g});
    assert multiset{g} + multiset{} - multiset{g} == multiset{};
    SameGenerationsMeasured(h, h.(current := Some(g)));
  }

  lemma KeepsThrough<S>(h: Heap<S>, m: Heap<S>, t: Heap<S>)
    requires KeepsPublished(h, m) && KeepsPublished(m, t)
    ensures KeepsPublished(h, t)
  {
  }

  lemma Kept<S>(h: Heap<S>, t: Heap<S>)
    requires KeepsPublished(h, t)
    ensures t.requests == h.requests && t.current == h.current
  {
  }

  lemma KeptIsCurrent<S>(h: Heap<S>, t: Heap<S>)
    requires KeepsPublished(h, t) && h.current.Some? && h.current.value in h.generations
    ensures t.requests == h.requests && t.current == h.current && h.current.value in t.generations
    ensures var a, b := h.generations[h.current.value], t.generations[h.current.value];
      a.state == b.state && a.length == b.length && a.bytes == b.bytes
  {
  }

  lemma CurrentFacts<S>(h: Heap<S>)
    requires Counted(h, multiset{}, multiset{})
    ensures h.current.Some? ==> h.current.value in h.generations
  {
    hide OwnerExact, GenerationExact;
    CurrentIsLive(h);
  }

  /** The generation a boot made: the state the engine gave, alone in its chain. */
  ghost predicate Booted<S>(h: Heap<S>, g: nat, boot: Boot<S>, reserved: nat) {
    && boot.ok && g in h.generations && h.generations[g].state == boot.state
    && h.generations[g].length == 1 && h.generations[g].bytes == reserved
  }

  lemma BootedFacts<S>(h: Heap<S>, t: Heap<S>, o: nat, g: nat, boot: Boot<S>, reserved: nat)
    requires Created(h, t, g, None, boot.state, reserved) && boot.ok && o in t.owners
    ensures Booted(OwnerRelease(t, o), g, boot, reserved)
  {
  }

  lemma SwapSound<S>(h: Heap<S>, g: nat)
    requires Counted(h, multiset{}, multiset{g}) && Measured(h) && h.current.Some?
    ensures Counted(h.(current := Some(g)), multiset{}, multiset{h.current.value}) && Measured(h.(current := Some(g)))
  {
    hide OwnerExact, GenerationExact, Linked;
    SwapCounted(h, Some(g), multiset{}, multiset{g});
    assert multiset{g} + multiset{h.current.value} - multiset{g} == multiset{h.current.value};
    SameGenerationsMeasured(h, h.(current := Some(g)));
  }

  lemma PublishedKept<S>(h: Heap<S>, t: Heap<S>, g: nat)
    requires KeepsPublished(h, t) && h.current == Some(g) && g in h.generations
    ensures t.current == Some(g) && t.requests == h.requests && g in t.generations
    ensures t.generations[g] == h.generations[g].(references := t.generations[g].references)
  {
  }

  /** A log the engine consumed whole, adding nothing, boots to its own fold. */
  lemma CompactedState<S>(e: Engine<S>, log: Octets)
    requires e.boot(log).ok && e.boot(log).append == [] && e.boot(log).valid == |log|
    ensures Faithful(e) ==> e.boot(log).state == e.fold(log)
  {
    if Faithful(e) {
      assert BootFolds(e, log);
      assert log[..|log|] + ToOctets([]) == log;
    }
  }

  lemma GenerationsUnder<S>(h: Heap<S>, o: nat)
    ensures OwnerCreate(h).generations == h.generations
    ensures o in h.owners ==> OwnerRelease(h, o).generations == h.generations
  {
  }

  lemma RequestAddedSound<S>(h: Heap<S>, o: nat)
    requires Counted(h, multiset{} + multiset{o}, multiset{}) && Measured(h)
    ensures Counted(RequestAdded(h, o), multiset{}, multiset{}) && Measured(RequestAdded(h, o))
  {
    hide OwnerExact, GenerationExact, Linked;
    assert multiset{} + multiset{o} - multiset{o} == multiset{};
    RequestAddedCounted(h, o, multiset{} + multiset{o}, multiset{});
    SameGenerationsMeasured(h, RequestAdded(h, o));
  }

  lemma RequestRemovedSound<S>(h: Heap<S>, r: nat)
    requires Counted(h, multiset{}, multiset{}) && Measured(h) && r in h.requests
    ensures Counted(RequestRemoved(h, r), multiset{h.requests[r]}, multiset{}) && Measured(RequestRemoved(h, r))
  {
    hide OwnerExact, GenerationExact, Linked;
    assert multiset{} + multiset{h.requests[r]} == multiset{h.requests[r]};
    RequestRemovedCounted(h, r, multiset{}, multiset{});
    SameGenerationsMeasured(h, RequestRemoved(h, r));
  }

  lemma SameGenerationsMeasured<S>(h: Heap<S>, t: Heap<S>)
    requires Measured(h) && t.generations == h.generations
    ensures Measured(t)
  {
    forall g | g in h.generations ensures Chain(t, g) == Chain(h, g) {
      ChainByGenerations(h, t, g);
    }
  }

  lemma OwnerIsLive<S>(h: Heap<S>, o: nat, owners: multiset<nat>, generations: multiset<nat>)
    requires Counted(h, owners, generations) && o in owners
    ensures o in h.owners && h.owners[o] > 0
  {
    assert OwnerExact(h, o, owners[o]);
  }

  lemma GenerationIsLive<S>(h: Heap<S>, g: nat, owners: multiset<nat>, generations: multiset<nat>)
    requires Counted(h, owners, generations) && g in generations
    ensures g in h.generations && h.generations[g].references > 0
    ensures h.generations[g].owner in h.owners && h.owners[h.generations[g].owner] > 0
  {
    assert GenerationExact(h, g, generations[g]);
    assert OwnerExact(h, h.generations[g].owner, owners[h.generations[g].owner]);
  }
}
