/** The native host's reference-counted owners and store generations. */
module NativeHeap {
  import opened Bytes
  import opened Collections

  const SIZE_MAX: nat := 0xFFFF_FFFF_FFFF_FFFF

  /** A published store state: its arena's owner, its parent, and the size of its chain. */
  datatype Generation<+S> = Generation(
    references: nat, owner: nat, parent: Option<nat>, state: S, bytes: nat, length: nat)

  /** Live allocations by address. A freed address is absent, so any access to it is an error. */
  datatype Heap<+S> = Heap(
    owners: map<nat, nat>,
    generations: map<nat, Generation<S>>,
    requests: map<nat, nat>,
    current: Option<nat>,
    next: nat)

  // ----- owners -----

  function OwnerCreate<S>(h: Heap<S>): Heap<S> {
    h.(owners := h.owners[h.next := 1], next := h.next + 1)
  }

  function OwnerRetain<S>(h: Heap<S>, o: nat): Heap<S>
    requires o in h.owners
  {
    h.(owners := h.owners[o := h.owners[o] + 1])
  }

  /** Drops one reference; the last one frees the arena. */
  function OwnerRelease<S>(h: Heap<S>, o: nat): Heap<S>
    requires o in h.owners
  {
    if h.owners[o] == 1 then h.(owners := h.owners - {o}) else
    h.(owners := h.owners[o := if h.owners[o] > 0 then h.owners[o] - 1 else 0])
  }

  // ----- generations -----

  /** Whether the chain's byte count would pass what the host's size type holds. */
  predicate Overflows<S>(h: Heap<S>, parent: Option<nat>, reserved: nat)
    requires parent.Some? ==> parent.value in h.generations
  {
    parent.Some? && h.generations[parent.value].bytes > SIZE_MAX - reserved
  }

  /** A new generation over `parent`, holding one reference to its owner and one to its parent. */
  function GenerationCreate<S>(h: Heap<S>, owner: nat, parent: Option<nat>, state: S, reserved: nat): Heap<S>
    requires owner in h.owners && (parent.Some? ==> parent.value in h.generations)
  {
    var held := OwnerRetain(h, owner);
    var known := if parent.None? then h.generations else
      h.generations[parent.value := h.generations[parent.value].(references := h.generations[parent.value].references + 1)];
    var bytes := reserved + (if parent.None? then 0 else h.generations[parent.value].bytes);
    var length := 1 + (if parent.None? then 0 else h.generations[parent.value].length);
    held.(generations := known[h.next := Generation(1, owner, parent, state, bytes, length)], next := h.next + 1)
  }

  /** Drops one reference; the last one frees the generation, its hold on its owner, and then its hold on
      its parent. */
  function GenerationRelease<S>(h: Heap<S>, g: nat): Heap<S>
    decreases g
  {
    if g !in h.generations then h else
    var gen := h.generations[g];
    if gen.references != 1 then
      h.(generations := h.generations[g := gen.(references := if gen.references > 0 then gen.references - 1 else 0)])
    else
      var freed := h.(generations := h.generations - {g});
      var released := if gen.owner in freed.owners then OwnerRelease(freed, gen.owner) else freed;
      if gen.parent.Some? && gen.parent.value < g then GenerationRelease(released, gen.parent.value) else released
  }

  // ----- what every count must equal -----

  function GenerationsOf<S>(h: Heap<S>, o: nat): set<nat> {
    set g | g in h.generations && h.generations[g].owner == o
  }

  function RequestsOf<S>(h: Heap<S>, o: nat): set<nat> {
    set r | r in h.requests && h.requests[r] == o
  }

  function ChildrenOf<S>(h: Heap<S>, g: nat): set<nat> {
    set c | c in h.generations && h.generations[c].parent == Some(g)
  }

  function OwnerHolders<S>(h: Heap<S>, o: nat): nat {
    |GenerationsOf(h, o)| + |RequestsOf(h, o)|
  }

  function GenerationHolders<S>(h: Heap<S>, g: nat): nat {
    |ChildrenOf(h, g)| + if h.current == Some(g) then 1 else 0
  }

  /** Every pointer is to something live, and parents are older than their children. */
  ghost predicate Linked<S>(h: Heap<S>) {
    && (forall g :: g in h.generations ==> g < h.next && h.generations[g].owner in h.owners)
    && (forall g :: g in h.generations && h.generations[g].parent.Some? ==>
          h.generations[g].parent.value in h.generations && h.generations[g].parent.value < g)
    && (forall o :: o in h.owners ==> o < h.next)
    && (forall r :: r in h.requests ==> r < h.next && h.requests[r] in h.owners)
    && (h.current.Some? ==> h.current.value in h.generations)
  }

  ghost predicate OwnerExact<S>(h: Heap<S>, o: nat, extra: nat) {
    o in h.owners ==> h.owners[o] == OwnerHolders(h, o) + extra && h.owners[o] > 0
  }

  ghost predicate GenerationExact<S>(h: Heap<S>, g: nat, extra: nat) {
    g in h.generations ==>
      h.generations[g].references == GenerationHolders(h, g) + extra && h.generations[g].references > 0
  }

  /** Each count is the number of holders: generations, requests, the store, and the operation's own
      temporary references. */
  ghost predicate Counted<S>(h: Heap<S>, owners: multiset<nat>, generations: multiset<nat>) {
    && Linked(h)
    && (forall o :: OwnerExact(h, o, owners[o]))
    && (forall g :: GenerationExact(h, g, generations[g]))
    && (forall o :: o in owners ==> o in h.owners)
    && (forall g :: g in generations ==> g in h.generations)
  }

  // ----- every step keeps the counts -----

  /** Two heaps with the same pointers. */
  ghost predicate SameShape<S>(h: Heap<S>, t: Heap<S>) {
    && t.requests == h.requests && t.current == h.current && t.generations.Keys == h.generations.Keys
    && forall g :: g in h.generations ==>
         t.generations[g].owner == h.generations[g].owner && t.generations[g].parent == h.generations[g].parent
  }

  lemma SameHolders<S>(h: Heap<S>, t: Heap<S>, x: nat)
    requires SameShape(h, t)
    ensures OwnerHolders(t, x) == OwnerHolders(h, x) && GenerationHolders(t, x) == GenerationHolders(h, x)
  {
    assert GenerationsOf(t, x) == GenerationsOf(h, x);
    assert RequestsOf(t, x) == RequestsOf(h, x);
    assert ChildrenOf(t, x) == ChildrenOf(h, x);
  }

  /** Only the count of one owner changes, with the operation's own hold on it. */
  lemma OwnerStep<S>(h: Heap<S>, t: Heap<S>, o: nat, before: multiset<nat>, after: multiset<nat>, generations: multiset<nat>)
    requires Counted(h, before, generations) && SameShape(h, t) && Linked(t) && t.generations == h.generations
    requires forall x :: x != o ==> (x in t.owners <==> x in h.owners) && after[x] == before[x]
    requires forall x :: x != o && x in h.owners ==> t.owners[x] == h.owners[x]
    requires OwnerExact(t, o, after[o]) && (o in after ==> o in t.owners)
    ensures Counted(t, after, generations)
  {
    hide OwnerHolders, GenerationHolders, Linked;
    forall x ensures OwnerExact(t, x, after[x]) {
      SameHolders(h, t, x);
      assert OwnerExact(h, x, before[x]);
    }
    forall g ensures GenerationExact(t, g, generations[g]) {
      SameHolders(h, t, g);
      assert GenerationExact(h, g, generations[g]);
    }
    forall x | x in after ensures x in t.owners {
      assert after[x] > 0;
      assert x != o ==> before[x] > 0;
    }
  }

  lemma OwnerCreateCounted<S>(h: Heap<S>, owners: multiset<nat>, generations: multiset<nat>)
    requires Counted(h, owners, generations)
    ensures Counted(OwnerCreate(h), owners + multiset{h.next}, generations)
  {
    hide OwnerExact, GenerationExact;
    NobodyHolds(h, owners, generations);
    OwnerStep(h, OwnerCreate(h), h.next, owners, owners + multiset{h.next}, generations) by {
      FreshOwner(h, owners);
    }
  }

  lemma NobodyHolds<S>(h: Heap<S>, owners: multiset<nat>, generations: multiset<nat>)
    requires Counted(h, owners, generations)
    ensures owners[h.next] == 0 && generations[h.next] == 0 && OwnerHolders(h, h.next) == 0 && GenerationHolders(h, h.next) == 0
    ensures h.next !in h.owners && h.next !in h.generations && h.next !in h.requests
  {
    assert GenerationsOf(h, h.next) == {} && RequestsOf(h, h.next) == {} && ChildrenOf(h, h.next) == {};
  }

  lemma FreshOwner<S>(h: Heap<S>, owners: multiset<nat>)
    requires owners[h.next] == 0 && OwnerHolders(h, h.next) == 0
    ensures OwnerExact(OwnerCreate(h), h.next, (owners + multiset{h.next})[h.next])
  {
    SameHolders(h, OwnerCreate(h), h.next);
  }

  lemma OwnerReleaseCounted<S>(h: Heap<S>, o: nat, owners: multiset<nat>, generations: multiset<nat>)
    requires Counted(h, owners, generations) && o in owners
    ensures Counted(OwnerRelease(h, o), owners - multiset{o}, generations)
  {
    hide OwnerHolders, GenerationHolders;
    var t := OwnerRelease(h, o);
    SameHolders(h, t, o);
    assert OwnerExact(h, o, owners[o]);
    if h.owners[o] == 1 {
      LastOwnerHold(h, o);
    }
    OwnerStep(h, t, o, owners, owners - multiset{o}, generations);
  }

  lemma LastOwnerHold<S>(h: Heap<S>, o: nat)
    requires OwnerHolders(h, o) == 0
    ensures forall g :: g in h.generations ==> h.generations[g].owner != o
    ensures forall r :: r in h.requests ==> h.requests[r] != o
  {
    assert GenerationsOf(h, o) == {} && RequestsOf(h, o) == {};
    forall g | g in h.generations ensures h.generations[g].owner != o {
      assert g !in GenerationsOf(h, o);
    }
    forall r | r in h.requests ensures h.requests[r] != o {
      assert r !in RequestsOf(h, o);
    }
  }

  // ----- generations -----

  /** `t` has the pointers of `h` and one more generation. */
  ghost predicate OneMore<S>(h: Heap<S>, t: Heap<S>, n: nat) {
    && t.requests == h.requests && t.current == h.current
    && n !in h.generations && t.generations.Keys == h.generations.Keys + {n}
    && forall g :: g in h.generations ==>
         t.generations[g].owner == h.generations[g].owner && t.generations[g].parent == h.generations[g].parent
  }

  lemma OneMoreOfOwner<S>(h: Heap<S>, t: Heap<S>, n: nat, x: nat)
    requires OneMore(h, t, n)
    ensures OwnerHolders(t, x) == OwnerHolders(h, x) + (if x == t.generations[n].owner then 1 else 0)
  {
    OneMoreGenerations(h, t, n, x);
    hide GenerationsOf;
    assert RequestsOf(t, x) == RequestsOf(h, x);
  }

  lemma OneMoreGenerations<S>(h: Heap<S>, t: Heap<S>, n: nat, x: nat)
    requires OneMore(h, t, n)
    ensures |GenerationsOf(t, x)| == |GenerationsOf(h, x)| + (if x == t.generations[n].owner then 1 else 0)
  {
    var before, after := GenerationsOf(h, x), GenerationsOf(t, x);
    forall g: nat ensures g in after <==> g in before || (g == n && x == t.generations[n].owner) {}
    GrowsBy(before, after, n, x == t.generations[n].owner);
  }

  lemma OneMoreOfParent<S>(h: Heap<S>, t: Heap<S>, n: nat, x: nat)
    requires OneMore(h, t, n)
    ensures GenerationHolders(t, x) == GenerationHolders(h, x) + (if t.generations[n].parent == Some(x) then 1 else 0)
  {
    var before, after := ChildrenOf(h, x), ChildrenOf(t, x);
    forall g: nat ensures g in after <==> g in before || (g == n && t.generations[n].parent == Some(x)) {}
    GrowsBy(before, after, n, t.generations[n].parent == Some(x));
  }

  lemma PlusOne(m: multiset<nat>, n: nat, x: nat)
    ensures (m + multiset{n})[x] == if x == n then m[x] + 1 else m[x]
  {
  }

  lemma GenerationCreateCounted<S>(h: Heap<S>, owner: nat, parent: Option<nat>, state: S, reserved: nat,
                                   owners: multiset<nat>, generations: multiset<nat>)
    requires Counted(h, owners, generations) && owner in h.owners && (parent.Some? ==> parent.value in h.generations)
    ensures Counted(GenerationCreate(h, owner, parent, state, reserved), owners, generations + multiset{h.next})
  {
    var t, after := GenerationCreate(h, owner, parent, state, reserved), generations + multiset{h.next};
    NobodyHolds(h, owners, generations);
    LinkedAfterCreate(h, owner, parent, state, reserved);
    CreateKeepsLive(h, owner, parent, state, reserved, owners, generations);
    hide *;
    forall x ensures OwnerExact(t, x, owners[x]) && GenerationExact(t, x, after[x]) {
      ExactAt(h, x, owners, generations);
      CreateExact(h, owner, parent, state, reserved, x, owners[x], generations[x]);
      PlusOne(generations, h.next, x);
    }
    AllExact(t, owners, after);
  }

  lemma CreateKeepsLive<S>(h: Heap<S>, owner: nat, parent: Option<nat>, state: S, reserved: nat,
                           owners: multiset<nat>, generations: multiset<nat>)
    requires Counted(h, owners, generations) && owner in h.owners && (parent.Some? ==> parent.value in h.generations)
    ensures Linked(h) && TemporariesLive(GenerationCreate(h, owner, parent, state, reserved), owners, generations + multiset{h.next})
  {
    hide OwnerExact, GenerationExact, Linked;
  }

  /** The operation's own holds are on live addresses. */
  ghost predicate TemporariesLive<S>(h: Heap<S>, owners: multiset<nat>, generations: multiset<nat>) {
    (forall o :: o in owners ==> o in h.owners) && (forall g :: g in generations ==> g in h.generations)
  }

  lemma AllExact<S>(h: Heap<S>, owners: multiset<nat>, generations: multiset<nat>)
    requires Linked(h) && TemporariesLive(h, owners, generations)
    requires forall x :: OwnerExact(h, x, owners[x]) && GenerationExact(h, x, generations[x])
    ensures Counted(h, owners, generations)
  {
    hide Linked, OwnerExact, GenerationExact;
  }

  lemma ExactAt<S>(h: Heap<S>, x: nat, owners: multiset<nat>, generations: multiset<nat>)
    requires Counted(h, owners, generations)
    ensures OwnerExact(h, x, owners[x]) && GenerationExact(h, x, generations[x])
  {
  }

  lemma CreateExact<S>(h: Heap<S>, owner: nat, parent: Option<nat>, state: S, reserved: nat, x: nat, o: nat, g: nat)
    requires Linked(h) && h.next !in h.generations && h.next !in h.owners && GenerationHolders(h, h.next) == 0
    requires owner in h.owners && (parent.Some? ==> parent.value in h.generations)
    requires OwnerExact(h, x, o) && GenerationExact(h, x, g) && (x == h.next ==> g == 0)
    ensures var t := GenerationCreate(h, owner, parent, state, reserved);
      OwnerExact(t, x, o) && GenerationExact(t, x, if x == h.next then g + 1 else g)
  {
    var t := GenerationCreate(h, owner, parent, state, reserved);
    assert OneMore(h, t, h.next);
    hide OwnerHolders, GenerationHolders, Linked;
    OneMoreOfOwner(h, t, h.next, x);
    OneMoreOfParent(h, t, h.next, x);
  }

  lemma LinkedAfterCreate<S>(h: Heap<S>, owner: nat, parent: Option<nat>, state: S, reserved: nat)
    requires Linked(h) && owner in h.owners && (parent.Some? ==> parent.value in h.generations)
    ensures Linked(GenerationCreate(h, owner, parent, state, reserved))
  {
  }

  function Freed<S>(h: Heap<S>, g: nat): Heap<S> {
    h.(generations := h.generations - {g})
  }

  function HeldParent<S>(h: Heap<S>, g: nat): multiset<nat>
    requires g in h.generations
  {
    if h.generations[g].parent.Some? then multiset{h.generations[g].parent.value} else multiset{}
  }

  /** Freeing a generation nobody holds any more turns its two holds into the operation's own. */
  lemma DropGeneration<S>(h: Heap<S>, g: nat, owners: multiset<nat>, generations: multiset<nat>)
    requires Counted(h, owners, generations) && g in generations && h.generations[g].references == 1
    ensures Counted(Freed(h, g), owners + multiset{h.generations[g].owner}, generations - multiset{g} + HeldParent(h, g))
  {
    var t := Freed(h, g);
    assert GenerationExact(h, g, generations[g]);
    assert generations[g] == 1 && GenerationHolders(h, g) == 0;
    LastGenerationHold(h, g);
    LinkedAfterFree(h, g);
    OwnerStillLive(h, g);
    hide OwnerHolders, GenerationHolders, Linked, OwnerExact, GenerationExact;
    forall x ensures OwnerExact(t, x, (owners + multiset{h.generations[g].owner})[x])
      && GenerationExact(t, x, (generations - multiset{g} + HeldParent(h, g))[x])
    {
      assert OwnerExact(h, x, owners[x]) && GenerationExact(h, x, generations[x]);
      DropExact(h, g, x, owners[x], generations[x]);
      assert x == g ==> (generations - multiset{g})[x] == 0;
    }
  }

  /** Freeing a generation moves its hold on its owner and on its parent to the operation. */
  lemma DropExact<S>(h: Heap<S>, g: nat, x: nat, held: nat, kept: nat)
    requires Linked(h) && g in h.generations && OwnerExact(h, x, held) && GenerationExact(h, x, kept)
    ensures OwnerExact(Freed(h, g), x, held + if x == h.generations[g].owner then 1 else 0)
    ensures x != g ==> GenerationExact(Freed(h, g), x, kept + if h.generations[g].parent == Some(x) then 1 else 0)
    ensures forall n: nat :: GenerationExact(Freed(h, g), g, n)
  {
    var t := Freed(h, g);
    hide OwnerHolders, GenerationHolders;
    assert OneMore(t, h, g);
    OneMoreOfOwner(t, h, g, x);
    OneMoreOfParent(t, h, g, x);
  }

  lemma OwnerStillLive<S>(h: Heap<S>, g: nat)
    requires Linked(h) && g in h.generations
    ensures h.generations[g].owner in h.owners
    ensures h.generations[g].parent.Some? ==>
      h.generations[g].parent.value in h.generations && h.generations[g].parent.value < g
  {
  }

  lemma LastGenerationHold<S>(h: Heap<S>, g: nat)
    requires GenerationHolders(h, g) == 0
    ensures h.current != Some(g) && forall c :: c in h.generations ==> h.generations[c].parent != Some(g)
  {
    assert ChildrenOf(h, g) == {};
    forall c | c in h.generations ensures h.generations[c].parent != Some(g) {
      assert c !in ChildrenOf(h, g);
    }
  }

  lemma LinkedAfterFree<S>(h: Heap<S>, g: nat)
    requires Linked(h) && h.current != Some(g) && forall c :: c in h.generations ==> h.generations[c].parent != Some(g)
    ensures Linked(Freed(h, g))
  {
  }

  function Decremented<S>(h: Heap<S>, g: nat): Heap<S>
    requires g in h.generations && h.generations[g].references > 1
  {
    h.(generations := h.generations[g := h.generations[g].(references := h.generations[g].references - 1)])
  }

  lemma DecrementShape<S>(h: Heap<S>, g: nat)
    requires Linked(h) && g in h.generations && h.generations[g].references > 1
    ensures SameShape(h, Decremented(h, g)) && Linked(Decremented(h, g))
  {
  }

  lemma DecrementCounted<S>(h: Heap<S>, g: nat, owners: multiset<nat>, generations: multiset<nat>)
    requires Counted(h, owners, generations) && g in generations && h.generations[g].references > 1
    ensures Counted(Decremented(h, g), owners, generations - multiset{g})
  {
    var t := Decremented(h, g);
    DecrementShape(h, g);
    hide OwnerHolders, GenerationHolders, Linked, SameShape;
    forall x ensures OwnerExact(t, x, owners[x]) && GenerationExact(t, x, (generations - multiset{g})[x]) {
      SameHolders(h, t, x);
      assert OwnerExact(h, x, owners[x]) && GenerationExact(h, x, generations[x]);
    }
  }

  /** Releasing a generation gives the operation's hold up, whatever that frees behind it. */
  lemma {:induction false} GenerationReleaseCounted<S>(h: Heap<S>, g: nat, owners: multiset<nat>, generations: multiset<nat>)
    requires Counted(h, owners, generations) && g in generations
    ensures Counted(GenerationRelease(h, g), owners, generations - multiset{g})
    decreases g
  {
    hide OwnerExact, GenerationExact, OwnerRelease;
    var gen := h.generations[g];
    assert gen.references > 0 by { PositiveCount(h, g, owners, generations); }
    if gen.references == 1 {
      DropGeneration(h, g, owners, generations);
      OwnerStillLive(h, g);
      var rest := generations - multiset{g} + HeldParent(h, g);
      OwnerReleaseCounted(Freed(h, g), gen.owner, owners + multiset{gen.owner}, rest);
      assert owners + multiset{gen.owner} - multiset{gen.owner} == owners;
      if gen.parent.Some? {
        GenerationReleaseCounted(OwnerRelease(Freed(h, g), gen.owner), gen.parent.value, owners, rest);
        assert rest - multiset{gen.parent.value} == generations - multiset{g};
      } else {
        assert rest == generations - multiset{g};
      }
    } else {
      DecrementCounted(h, g, owners, generations);
    }
  }

  lemma PositiveCount<S>(h: Heap<S>, g: nat, owners: multiset<nat>, generations: multiset<nat>)
    requires Counted(h, owners, generations) && g in h.generations
    ensures h.generations[g].references > 0
  {
    assert GenerationExact(h, g, generations[g]);
  }

  // ----- the store and the requests -----

  function HeldCurrent<S>(h: Heap<S>): multiset<nat> {
    if h.current.Some? then multiset{h.current.value} else multiset{}
  }

  function Swapped<S>(h: Heap<S>, next: Option<nat>, generations: multiset<nat>): multiset<nat> {
    generations + HeldCurrent(h) - (if next.Some? then multiset{next.value} else multiset{})
  }

  /** The store takes over the operation's hold on `next` and hands back its hold on what it had. */
  lemma SwapCounted<S>(h: Heap<S>, next: Option<nat>, owners: multiset<nat>, generations: multiset<nat>)
    requires Counted(h, owners, generations) && (next.Some? ==> next.value in generations)
    ensures Counted(h.(current := next), owners, Swapped(h, next, generations))
  {
    var t, after := h.(current := next), Swapped(h, next, generations);
    SwapLive(h, next, owners, generations);
    hide *;
    forall x ensures OwnerExact(t, x, owners[x]) && GenerationExact(t, x, after[x]) {
      ExactAt(h, x, owners, generations);
      SwapExact(h, next, x, owners[x], generations);
    }
    AllExact(t, owners, after);
  }

  lemma SwapLive<S>(h: Heap<S>, next: Option<nat>, owners: multiset<nat>, generations: multiset<nat>)
    requires Counted(h, owners, generations) && (next.Some? ==> next.value in generations)
    ensures Linked(h.(current := next)) && TemporariesLive(h.(current := next), owners, Swapped(h, next, generations))
  {
    SwapLinked(h, next);
    CurrentIsLive(h);
    hide OwnerExact, GenerationExact, Linked;
  }

  lemma SwapExact<S>(h: Heap<S>, next: Option<nat>, x: nat, o: nat, generations: multiset<nat>)
    requires OwnerExact(h, x, o) && GenerationExact(h, x, generations[x]) && (next.Some? ==> next.value in generations)
    ensures OwnerExact(h.(current := next), x, o)
    ensures GenerationExact(h.(current := next), x, Swapped(h, next, generations)[x])
  {
    SwapHolders(h, next, x);
    hide OwnerHolders, GenerationHolders;
  }

  lemma CurrentIsLive<S>(h: Heap<S>)
    requires Linked(h)
    ensures h.current.Some? ==> h.current.value in h.generations
  {
  }

  lemma SwapLinked<S>(h: Heap<S>, next: Option<nat>)
    requires Linked(h) && (next.Some? ==> next.value in h.generations)
    ensures Linked(h.(current := next))
  {
  }

  lemma SwapHolders<S>(h: Heap<S>, next: Option<nat>, x: nat)
    ensures var t := h.(current := next);
      && OwnerHolders(t, x) == OwnerHolders(h, x)
      && GenerationHolders(t, x) + (if h.current == Some(x) then 1 else 0)
        == GenerationHolders(h, x) + (if next == Some(x) then 1 else 0)
  {
    var t := h.(current := next);
    assert GenerationsOf(t, x) == GenerationsOf(h, x);
    assert RequestsOf(t, x) == RequestsOf(h, x);
    assert ChildrenOf(t, x) == ChildrenOf(h, x);
  }

  function RequestAdded<S>(h: Heap<S>, o: nat): Heap<S> {
    h.(requests := h.requests[h.next := o], next := h.next + 1)
  }

  /** `t` has the pointers of `h` and one more request. */
  ghost predicate OneMoreRequest<S>(h: Heap<S>, t: Heap<S>, r: nat, o: nat) {
    r !in h.requests && t.requests == h.requests[r := o] && t.generations == h.generations && t.current == h.current
  }

  lemma OneMoreRequestHolders<S>(h: Heap<S>, t: Heap<S>, r: nat, o: nat, x: nat)
    requires OneMoreRequest(h, t, r, o)
    ensures OwnerHolders(t, x) == OwnerHolders(h, x) + (if x == o then 1 else 0)
    ensures GenerationHolders(t, x) == GenerationHolders(h, x)
  {
    assert GenerationsOf(t, x) == GenerationsOf(h, x);
    assert ChildrenOf(t, x) == ChildrenOf(h, x);
    hide GenerationsOf, ChildrenOf;
    var before, after := RequestsOf(h, x), RequestsOf(t, x);
    forall q: nat ensures q in after <==> q in before || (q == r && x == o) {}
    GrowsBy(before, after, r, x == o);
  }

  lemma RequestAddedCounted<S>(h: Heap<S>, o: nat, owners: multiset<nat>, generations: multiset<nat>)
    requires Counted(h, owners, generations) && o in owners
    ensures Counted(RequestAdded(h, o), owners - multiset{o}, generations)
  {
    var t := RequestAdded(h, o);
    NobodyHolds(h, owners, generations);
    RequestAddedLinked(h, o);
    hide OwnerHolders, GenerationHolders, Linked;
    forall x ensures OwnerExact(t, x, (owners - multiset{o})[x]) && GenerationExact(t, x, generations[x]) {
      OneMoreRequestHolders(h, t, h.next, o, x);
      assert OwnerExact(h, x, owners[x]) && GenerationExact(h, x, generations[x]);
    }
  }

  lemma RequestAddedLinked<S>(h: Heap<S>, o: nat)
    requires Linked(h) && o in h.owners
    ensures Linked(RequestAdded(h, o))
  {
  }

  function RequestRemoved<S>(h: Heap<S>, r: nat): Heap<S> {
    h.(requests := h.requests - {r})
  }

  lemma RequestRemovedCounted<S>(h: Heap<S>, r: nat, owners: multiset<nat>, generations: multiset<nat>)
    requires Counted(h, owners, generations) && r in h.requests
    ensures Counted(RequestRemoved(h, r), owners + multiset{h.requests[r]}, generations)
  {
    var t, o := RequestRemoved(h, r), h.requests[r];
    var after := owners + multiset{o};
    RequestRemovedLinked(h, r);
    assert TemporariesLive(t, after, generations);
    assert OneMoreRequest(t, h, r, o);
    forall x ensures OwnerExact(t, x, after[x]) && GenerationExact(t, x, generations[x]) {
      hide OwnerHolders, GenerationHolders, Linked, Counted;
      ExactAt(h, x, owners, generations);
      PlusOne(owners, o, x);
      OneMoreRequestHolders(t, h, r, o, x);
    }
    hide *;
    AllExact(t, after, generations);
  }

  lemma RequestRemovedLinked<S>(h: Heap<S>, r: nat)
    requires Linked(h) && r in h.requests
    ensures Linked(RequestRemoved(h, r)) && h.requests[r] in h.owners
  {
  }

  // ----- nothing leaks -----

  /** With no store, no requests and no operation under way, nothing is left allocated. */
  lemma NothingLeaks<S>(h: Heap<S>)
    requires Counted(h, multiset{}, multiset{}) && h.current == None && h.requests == map[]
    ensures h.owners == map[] && h.generations == map[]
  {
    assert h.generations == map[] by {
      if h.generations != map[] {
        var g := Newest(h);
        UnheldAtTop(h, g);
        ExactAt(h, g, multiset{}, multiset{});
      }
    }
    forall o ensures o !in h.owners {
      assert OwnerExact(h, o, multiset{}[o]);
      assert GenerationsOf(h, o) == {} && RequestsOf(h, o) == {};
    }
  }

  lemma UnheldAtTop<S>(h: Heap<S>, g: nat)
    requires Linked(h) && h.current == None && forall c :: c in h.generations ==> c <= g
    ensures GenerationHolders(h, g) == 0
  {
    assert ChildrenOf(h, g) == {};
  }

  /** The newest generation, which is nobody's parent. */
  lemma Newest<S>(h: Heap<S>) returns (g: nat)
    requires h.generations != map[]
    ensures g in h.generations && forall c :: c in h.generations ==> c <= g
  {
    g :| g in h.generations;
    var rest := h.generations.Keys - {g};
    while rest != {}
      invariant g in h.generations && rest <= h.generations.Keys
      invariant forall c :: c in h.generations && c !in rest ==> c <= g
      decreases rest
    {
      var c :| c in rest;
      g, rest := if c > g then c else g, rest - {c};
    }
  }

  // ----- chains -----

  /** A generation and the ancestors it keeps alive, newest first. */
  function Chain<S>(h: Heap<S>, g: nat): seq<nat>
    decreases g
  {
    if g !in h.generations then [] else
    var parent := h.generations[g].parent;
    [g] + (if parent.Some? && parent.value < g then Chain(h, parent.value) else [])
  }

  /** Nothing a live generation reaches has been freed. */
  lemma {:induction false} ChainIsLive<S>(h: Heap<S>, g: nat)
    requires Linked(h) && g in h.generations
    ensures forall x :: x in Chain(h, g) ==> x in h.generations && h.generations[x].owner in h.owners
    decreases g
  {
    if h.generations[g].parent.Some? {
      ChainIsLive(h, h.generations[g].parent.value);
    }
  }

  /** `chain_generations` is the length of the chain. */
  ghost predicate Measured<S>(h: Heap<S>) {
    forall g :: g in h.generations ==> h.generations[g].length == |Chain(h, g)|
  }

  lemma {:induction false} SameChain<S>(h: Heap<S>, t: Heap<S>, g: nat)
    requires Linked(h) && g in h.generations
    requires forall x :: x in h.generations ==> x in t.generations && t.generations[x].parent == h.generations[x].parent
    ensures Chain(t, g) == Chain(h, g)
    decreases g
  {
    if h.generations[g].parent.Some? {
      SameChain(h, t, h.generations[g].parent.value);
    }
  }

  lemma MeasuredAfterCreate<S>(h: Heap<S>, owner: nat, parent: Option<nat>, state: S, reserved: nat)
    requires Linked(h) && Measured(h) && h.next !in h.generations
    requires owner in h.owners && (parent.Some? ==> parent.value in h.generations)
    ensures Measured(GenerationCreate(h, owner, parent, state, reserved))
  {
    var t := GenerationCreate(h, owner, parent, state, reserved);
    CreatedKeeps(h, owner, parent, state, reserved);
    CreatedChain(h, owner, parent, state, reserved);
    hide GenerationCreate, Chain;
    forall g | g in h.generations ensures Chain(t, g) == Chain(h, g) {
      SameChain(h, t, g);
    }
  }

  lemma CreatedKeeps<S>(h: Heap<S>, owner: nat, parent: Option<nat>, state: S, reserved: nat)
    requires Linked(h) && h.next !in h.generations
    requires owner in h.owners && (parent.Some? ==> parent.value in h.generations)
    ensures var t := GenerationCreate(h, owner, parent, state, reserved);
      && t.generations.Keys == h.generations.Keys + {h.next}
      && forall g :: g in h.generations ==>
           t.generations[g].parent == h.generations[g].parent && t.generations[g].length == h.generations[g].length
  {
  }

  lemma CreatedChain<S>(h: Heap<S>, owner: nat, parent: Option<nat>, state: S, reserved: nat)
    requires Linked(h) && h.next !in h.generations
    requires owner in h.owners && (parent.Some? ==> parent.value in h.generations)
    ensures var t := GenerationCreate(h, owner, parent, state, reserved);
      && Chain(t, h.next) == [h.next] + (if parent.Some? then Chain(t, parent.value) else [])
      && t.generations[h.next].length == 1 + (if parent.Some? then h.generations[parent.value].length else 0)
  {
  }

  /** What a release leaves alone: everything but counts, and the generations it frees. */
  ghost predicate OnlyReleases<S>(h: Heap<S>, t: Heap<S>) {
    && t.requests == h.requests && t.current == h.current && t.next == h.next
    && t.generations.Keys <= h.generations.Keys
    && forall g :: g in t.generations ==> t.generations[g] == h.generations[g].(references := t.generations[g].references)
  }

  lemma {:induction false} ReleaseOnlyReleases<S>(h: Heap<S>, g: nat)
    ensures OnlyReleases(h, GenerationRelease(h, g))
    decreases g
  {
    if g in h.generations && h.generations[g].references == 1 {
      var gen := h.generations[g];
      var freed := Freed(h, g);
      var released := if gen.owner in freed.owners then OwnerRelease(freed, gen.owner) else freed;
      if gen.parent.Some? && gen.parent.value < g {
        ReleaseOnlyReleases(released, gen.parent.value);
      }
    }
  }

  lemma MeasuredAfterRelease<S>(h: Heap<S>, t: Heap<S>)
    requires OnlyReleases(h, t) && Linked(t) && Measured(h)
    ensures Measured(t)
  {
    forall g | g in t.generations ensures Chain(t, g) == Chain(h, g) {
      SameChain(t, h, g);
    }
  }
}
