/** The collector's invariant: the whole state as a value, and why collections keep it. */
module Worlds {
  import opened Cells
  import opened Copying
  import opened Simulation
  import opened Generations

  /** A snapshot of the state, together with what it represents to the client: `heap`, and `who`, the
      place each allocated cell holds. */
  datatype World = World(m: Memory, roots: Space, young: Gen, elder: Gen, spare: Space,
                         remembered: set<int>, who: Places, heap: Heap)

  /** Where the blocks lie: inside memory, apart from each other, each semispace with its slack cell. */
  ghost predicate Geometry(w: World) {
    && Within(w.roots, w.m) && Within(Padded(w.young.space), w.m)
    && Within(Padded(w.elder.space), w.m) && Within(Padded(w.spare), w.m)
    && w.elder.space.base > 0 && w.spare.base > 0
    && Apart(w.roots, Padded(w.young.space)) && Apart(w.roots, Padded(w.elder.space)) && Apart(w.roots, Padded(w.spare))
    && Apart(Padded(w.young.space), Padded(w.elder.space)) && Apart(Padded(w.young.space), Padded(w.spare))
    && Apart(Padded(w.elder.space), Padded(w.spare))
    && w.young.Valid() && w.elder.Valid()
    && w.spare.len == w.elder.space.len
  }

  /** The client's objects are exactly what is allocated in the two generations. */
  ghost predicate Owned(w: World) {
    && (forall a :: a in w.who <==> w.young.Allocated(a) || w.elder.Allocated(a))
    && Extents(w.young, w.heap, w.who) && Extents(w.elder, w.heap, w.who)
  }

  /** Cell a of the old generation holds a capability, known to the client, into the young one. */
  ghost predicate OldToYoung(w: World, a: int) {
    && w.elder.Allocated(a) && a in w.who && 0 <= a < |w.m|
    && At(w.heap, w.who[a]).Ref? && w.m[a].Tagged? && w.young.space.Contains(w.m[a].cap.base)
  }

  /** Every old cell that leads into the young generation is remembered, and only old cells are. */
  ghost predicate Remembers(w: World) {
    && (forall a :: OldToYoung(w, a) ==> a in w.remembered)
    && (forall a :: a in w.remembered ==> w.elder.Allocated(a))
  }

  /** Memory represents the client's heap, and old cells that lead into the young generation are
      remembered. */
  ghost predicate Coherent(w: World) {
    && Geometry(w)
    && Simulates(w.heap, w.who, w.m, w.roots)
    && Owned(w)
    && Remembers(w)
  }

  /** No object starts with a forwarding capability, so no object looks as if it had been copied. */
  ghost predicate Clean(w: World) {
    HeadsClean(w.young, w.m) && HeadsClean(w.elder, w.m)
  }

  /** What holds between any two operations of the client. */
  ghost predicate Inv(w: World) {
    Coherent(w) && Clean(w)
  }

  /** In every reachable state: an old cell whose content the client has set and that holds a
      capability into the young generation's space is remembered. */
  lemma InitialisedOldSlotsRemembered(w: World, a: int)
    requires Inv(w) && w.elder.Allocated(a)
    requires a in w.who && At(w.heap, w.who[a]) != Unknown
    requires 0 <= a < |w.m| && w.m[a].Tagged? && w.young.space.Contains(w.m[a].cap.base)
    ensures a in w.remembered
  {
    hide Geometry, Owned, HeadsClean, PlacesExist, Contiguous, Unique, RootsMatch;
    assert Represents(w.heap, w.who, At(w.heap, w.who[a]), w.m[a]);
    assert OldToYoung(w, a);
  }

  // ---------------------------------------------------------------- promotion

  ghost function RootSet(roots: Space): set<int> {
    Interval(roots.base, roots.End())
  }

  /** The copy made by GC_gen_promote: from the young tospace to the free end of the old one. */
  ghost function PromotionJob(w: World): Job {
    Job(w.m, w.young.space, w.young.objects, w.elder.space, w.elder.objects, w.elder.Free(),
        RootSet(w.roots) + w.remembered)
  }

  /** A known capability is tagged and leads to an object. */
  lemma KnownTarget(h: Heap, who: Places, m: Memory, roots: Space, a: int)
    requires Simulates(h, who, m, roots) && a in who && At(h, who[a]).Ref?
    ensures 0 <= a < |m| && m[a].Tagged? && m[a].cap.base in who
  {
    hide PlacesExist, Contiguous, Unique, RootsMatch;
    assert Represents(h, who, At(h, who[a]), m[a]);
  }

  lemma PromotionJobValid(w: World)
    requires Geometry(w) && HeadsClean(w.young, w.m) && (forall a :: a in w.remembered ==> w.elder.Allocated(a))
    requires w.elder.Free() + |w.young.objects| <= w.elder.space.End()
    ensures PromotionJob(w).Valid()
  {
    hide Tiled, HeadsClean;
    PromotionHeads(w);
    PromotionSlots(w);
  }

  lemma PromotionHeads(w: World)
    requires HeadsClean(w.young, w.m)
    ensures forall x :: PromotionJob(w).IsHead(x) ==> 0 <= x < |w.m| && !w.m[x].IsForwarding()
  {
    forall x | PromotionJob(w).IsHead(x)
      ensures 0 <= x < |w.m| && !w.m[x].IsForwarding()
    {
      assert w.young.Allocated(x);
    }
  }

  lemma PromotionSlots(w: World)
    requires Geometry(w) && forall a :: a in w.remembered ==> w.elder.Allocated(a)
    ensures forall a :: a in RootSet(w.roots) + w.remembered ==>
              0 <= a < |w.m| && !w.young.space.Contains(a) && !(w.elder.Free() <= a < w.elder.space.End())
  {
    hide Tiled;
  }

  lemma PromotionCollectable(w: World)
    requires Inv(w) && w.elder.Free() + |w.young.objects| <= w.elder.space.End()
    ensures Collectable(PromotionJob(w), w.heap, w.who, w.roots)
  {
    hide Simulates, Tiled, ExtentAt, Geometry, HeadsClean, Extents, Job.Valid;
    PromotionJobValid(w);
    var j := PromotionJob(w);
    assert Gen(j.from, j.objects) == w.young && Gen(j.to, j.kept) == w.elder;
    forall a | j.to.base <= a < j.start && a !in j.slots && At(w.heap, w.who[a]).Ref?
      ensures 0 <= a < |w.m| && !j.from.Contains(j.m0[a].Base())
    {
      KnownTarget(w.heap, w.who, w.m, w.roots, a);
      assert !OldToYoung(w, a);
    }
  }

  ghost function AfterPromotion(w: World, g: Moves, m: Memory, copies: Layout): World {
    World(m, w.roots, Gen(w.young.space, []), Gen(w.elder.space, copies), w.spare, {},
          Moved(w.who, Survivors(PromotionJob(w), g)), w.heap)
  }

  lemma PromotionGeometry(w: World, g: Moves, m: Memory, copies: Layout, free: int)
    requires Geometry(w) && w.elder.Free() + |w.young.objects| <= w.elder.space.End()
    requires Consistent(PromotionJob(w), g, m, copies, free)
    ensures Geometry(AfterPromotion(w, g, m, copies)) && free == w.elder.space.base + |copies|
    ensures w.elder.space.base <= w.elder.Free()
  {
    hide Tiled, ForwardingExact, WholeObjects, OnlyReachable, Bijection, Survivors, Moved;
    EmptyGen(w.young.space);
  }

  /** A promotion that fits keeps the invariant and is invisible to the client.  Nothing young is left. */
  lemma PromotionKeepsInv(w: World, g: Moves, m: Memory, copies: Layout, free: int)
    requires Inv(w) && w.elder.Free() + |w.young.objects| <= w.elder.space.End()
    requires Complete(PromotionJob(w), g, m, copies, free)
    ensures Inv(AfterPromotion(w, g, m, copies))
  {
    hide Simulates, Tiled, ExtentAt, Survivors, Running, Consistent, Collectable, HeadsClean, Remembers, Moved,
      Geometry;
    PromotionCollectable(w);
    PromotionGeometry(w, g, m, copies, free);
    CollectionSimulates(PromotionJob(w), g, w.heap, w.who, w.roots, m, copies, free);
    NothingYoungHeads(AfterPromotion(w, g, m, copies));
    AllOld(AfterPromotion(w, g, m, copies));
  }

  lemma NothingYoungHeads(w: World)
    requires w.young.objects == []
    ensures HeadsClean(w.young, w.m) && Extents(w.young, w.heap, w.who)
  {
  }

  /** With nothing young there is nothing to remember. */
  lemma AllOld(w: World)
    requires Geometry(w) && Simulates(w.heap, w.who, w.m, w.roots) && w.remembered == {}
    requires forall a :: a in w.who ==> w.elder.Allocated(a)
    ensures Remembers(w)
  {
    hide Simulates, Tiled;
    forall a ensures !OldToYoung(w, a) {
      if a in w.who && At(w.heap, w.who[a]).Ref? {
        KnownTarget(w.heap, w.who, w.m, w.roots, a);
      }
    }
  }

  // ---------------------------------------------------------------- major collection

  /** The copy made by a collection of the old region: from its tospace to its (swapped) fromspace,
      which starts out empty. */
  ghost function MajorJob(w: World): Job {
    Job(w.m, w.elder.space, w.elder.objects, w.spare, [], w.spare.base, RootSet(w.roots))
  }

  lemma MajorJobValid(w: World)
    requires Geometry(w) && HeadsClean(w.elder, w.m)
    ensures MajorJob(w).Valid()
  {
    hide Tiled;
  }

  lemma MajorCollectable(w: World)
    requires Inv(w) && w.young.objects == []
    ensures Collectable(MajorJob(w), w.heap, w.who, w.roots)
  {
    hide Simulates, Tiled, ExtentAt, Geometry, HeadsClean, Job.Valid, Remembers;
    MajorJobValid(w);
    var j := MajorJob(w);
    assert Gen(j.from, j.objects) == w.elder;
    NothingYoungHeads(w.(young := Gen(j.to, [])));
  }

  ghost function AfterMajor(w: World, g: Moves, m: Memory, copies: Layout): World {
    World(m, w.roots, w.young, Gen(w.spare, copies), w.elder.space, {},
          Moved(w.who, Survivors(MajorJob(w), g)), w.heap)
  }

  lemma MajorGeometry(w: World, g: Moves, m: Memory, copies: Layout, free: int)
    requires Geometry(w)
    requires Consistent(MajorJob(w), g, m, copies, free)
    ensures Geometry(AfterMajor(w, g, m, copies)) && free == w.spare.base + |copies|
  {
    hide Tiled, ForwardingExact, WholeObjects, OnlyReachable, Bijection, Survivors, Moved;
  }

  /** A major collection keeps the invariant and is invisible to the client, provided nothing is young. */
  lemma MajorKeepsInv(w: World, g: Moves, m: Memory, copies: Layout, free: int)
    requires Inv(w) && w.young.objects == []
    requires Complete(MajorJob(w), g, m, copies, free)
    ensures Inv(AfterMajor(w, g, m, copies))
  {
    hide Simulates, Tiled, ExtentAt, Survivors, Running, Consistent, Collectable, HeadsClean, Remembers, Moved,
      Geometry;
    MajorCollectable(w);
    MajorGeometry(w, g, m, copies, free);
    CollectionSimulates(MajorJob(w), g, w.heap, w.who, w.roots, m, copies, free);
    NothingYoungHeads(AfterMajor(w, g, m, copies));
    AllOld(AfterMajor(w, g, m, copies));
  }
}
