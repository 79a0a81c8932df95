/** The allocator (src/gc_malloc.c:76-233). */
module Allocator {
  import opened Cells
  import opened Bitmaps
  import opened RememberedSets
  import opened LowMemory
  import opened Simulation
  import opened Generations
  import opened Worlds
  import opened Mutating
  import opened Relocating
  import opened Collectors
  import opened Grow
  import opened Collect
  import opened Policy
  import opened Exactness

  /** The end of GC_malloc_region: n cells are taken from the free space of the young region, recorded
      in the bitmap, and the first one is untagged.  For no cells nothing becomes an object, but the bit
      at the free end has to exist: it does unless the region is full and its size a multiple of 8. */
  method Bump(gc: Collector, n: nat) returns (ret: Capability)
    requires gc.Valid() && n <= gc.young.free.len
    requires n == 0 ==> gc.young.free.len > 0 || gc.young.tospace.len % 8 != 0
    modifies gc`who, gc`heap, gc.h`mem, gc.young`free, gc.young.tospaceBitmap`used, gc.young.tospaceBitmap`objects,
             gc.young.tospaceBitmap.bytes
    ensures gc.Valid() && gc.heap == if n == 0 then old(gc.heap) else WithObject(old(gc.heap), n)
    ensures ret == Capability(old(gc.young.free.base), n, false)
    ensures n == 0 ==> gc.who == old(gc.who)
    ensures n > 0 ==> ret.base in gc.who && gc.who[ret.base] == Place(|old(gc.heap.objs)|, 0)
    ensures |gc.young.Objects()| == |old(gc.young.Objects())| + n
    ensures 0 <= ret.base < |old(gc.h.mem)|
    ensures gc.h.mem == old(gc.h.mem)[ret.base := Untagged(old(gc.h.mem)[ret.base])]
    ensures gc.Footprint() == old(gc.Footprint())
    ensures Marked(gc) == old(Marked(gc)) && Safe(gc) == old(Safe(gc))
  {
    hide Inv, NoDuplicates, Packs, Tiled, TableOk, RememberedSet.Valid, RememberedSet.Slots, Append, AfterBump,
      WithObject, WithinMark, Guarded;
    ghost var w := gc.Snapshot();
    var young := gc.young;
    FreeEnd(w);
    BumpKeepsInv(w, n, Untagged(gc.h.mem[young.free.base]));
    ret := Capability(young.free.base, n, false);
    young.free := Space(young.free.base + n, young.free.len - n);
    young.tospaceBitmap.Allocate(n);
    gc.h.mem := gc.h.mem[ret.base := Untagged(gc.h.mem[ret.base])];
    TableStays(gc.h.table, gc.h.roots, w.m, gc.h.mem);
    ghost var w' := AfterBump(w, n, Untagged(w.m[ret.base]));
    gc.who, gc.heap := w'.who, w'.heap;
    assert gc.Snapshot() == w';
  }

  /** n cells have been taken from the free end of the young generation, and the first cell there has
      been overwritten: an object of n cells, or nothing if n is 0. */
  ghost function AfterBump(w: World, n: nat, c: Cell): World
    requires 0 <= w.young.Free() < |w.m|
  {
    if n == 0 then w.(m := w.m[w.young.Free() := c]) else AfterAlloc(w, n, c)
  }

  lemma BumpKeepsInv(w: World, n: nat, c: Cell)
    requires Inv(w) && w.young.Free() + n <= w.young.space.End() && !c.Tagged?
    ensures 0 <= w.young.Free() < |w.m|
    ensures var w' := AfterBump(w, n, c);
            && Inv(w')
            && w' == w.(m := w.m[w.young.Free() := c], young := Gen(w.young.space, Append(w.young.objects, n)),
                        who := w'.who, heap := w'.heap)
            && w'.heap == (if n == 0 then w.heap else WithObject(w.heap, n))
            && (n == 0 ==> w'.who == w.who)
            && (n > 0 ==> w.young.Free() in w'.who && w'.who[w.young.Free()] == Place(|w.heap.objs|, 0))
  {
    hide Inv, WithPlaces, Append, WithObject;
    FreeEnd(w);
    if n == 0 {
      AppendNothing(w.young.objects);
      StrayCellKeepsInv(w, w.young.Free(), c);
    } else {
      AllocKeepsInv(w, n, c);
      WithPlacesAt(w.who, |w.heap.objs|, w.young.Free(), n);
    }
  }

  lemma AppendNothing(l: Layout)
    ensures Append(l, 0) == l
  {
  }

  lemma FreeEnd(w: World)
    requires Inv(w)
    ensures 0 <= w.young.Free() < |w.m| && w.young.Free() !in w.who && !w.roots.Contains(w.young.Free())
  {
    hide Simulates, Remembers, HeadsClean, Tiled, Extents;
    FreeEndIsStray(w);
  }

  lemma YoungGrowthIsSafe(gc: Collector, hint: nat, limit: nat)
    requires limit == gc.young.maxBefore || limit == gc.young.maxAfter
    ensures Safe(gc) ==> Guarded(GrownLen(gc.young.tospace.len, hint, limit), gc.elder.free.len, gc.elder.tospace.len,
                                 gc.young.maxBefore, gc.young.maxAfter)
  {
    hide Guarded, GrownLen;
    if Safe(gc) {
      GuardedYoungGrows(gc.young.tospace.len, gc.elder.free.len, gc.elder.tospace.len,
                        gc.young.maxBefore, gc.young.maxAfter, hint, limit);
    }
  }

  /** What GC_grow with the given limit makes of the young region in state w: nothing at the limit. */
  ghost predicate YoungGrew(w: World, w': World, limit: nat) {
    if limit != 0 && 32 * w.young.space.len >= limit then w' == w
    else
      && w' == AfterYoungGrowth(w, w'.young.space, w'.m)
      && GrownMemory(w, w.young, w'.young.space.base, w'.m)
  }

  /** GC_grow on the young region for a request that does not fit. */
  method GrowForRequest(gc: Collector, sz: nat, limit: nat) returns (tooSmall: bool)
    requires gc.Valid() && sz % 32 == 0 && sz > 32 * gc.young.free.len
    requires limit == gc.young.maxBefore || limit == gc.young.maxAfter
    modifies gc.Footprint()
    ensures gc.Valid() && gc.heap == old(gc.heap) && fresh(gc.Footprint() - old(gc.Footprint()))
    ensures tooSmall == !Meets(old(gc.young.tospace.len), sz, limit)
    ensures !tooSmall ==> sz <= 32 * gc.young.free.len
    ensures gc.young.tospace.len == GrownLen(old(gc.young.tospace.len), sz, limit)
    ensures gc.young.free.len == old(gc.young.free.len) + gc.young.tospace.len - old(gc.young.tospace.len)
    ensures gc.young.Objects() == old(gc.young.Objects()) && ElderStays(gc)
    ensures YoungGrew(old(gc.Snapshot()), gc.Snapshot(), limit)
    ensures gc.young.numCollections == old(gc.young.numCollections) && gc.refusals == old(gc.refusals)
    ensures gc.collected == old(gc.collected)
    ensures old(Marked(gc)) ==> Marked(gc)
    ensures old(Safe(gc)) ==> Safe(gc)
  {
    hide Inv, NoDuplicates, Packs, Tiled, TableOk, RememberedSet.Valid, RememberedSet.Slots, Bitmap.Valid, GrownLen,
      Meets, Moved, Slide, GrownMemory, Guarded, AfterYoungGrowth;
    RegionSizes(gc);
    FitsAfterGrowth(gc.young.free.len, gc.young.tospace.len, sz, limit);
    YoungGrowthIsSafe(gc, sz, limit);
    var grown := GrowYoung(gc, sz, limit);
    tooSmall := !grown;
  }

  /** The part of GC_malloc_region that runs when growing before a collection was not enough. */
  method CollectThenGrow(gc: Collector, sz: nat) returns (tooSmall: bool)
    requires gc.Valid() && sz % 32 == 0
    modifies gc.Footprint()
    ensures gc.Valid() && gc.heap == old(gc.heap)
    ensures fresh(gc.Footprint() - old(gc.Footprint()))
    ensures !tooSmall ==> sz <= 32 * gc.young.free.len
    ensures old(gc.young.free.len) <= old(gc.young.tospace.len)
    ensures var len, free := old(gc.young.tospace.len), FreeThen(old(gc.young.tospace.len), old(gc.young.free.len),
                                                                old(gc.elder.free.len), old(gc.young.tospace.len));
            && (tooSmall <==> sz > 32 * free && !Meets(len, sz, gc.young.maxAfter))
            && (tooSmall ==> gc.young.free.len == free + GrownLen(len, sz, gc.young.maxAfter) - len)
            && gc.young.tospace.len == if sz <= 32 * free then len else GrownLen(len, sz, gc.young.maxAfter)
    ensures !NoRoom(old(gc.elder.free.len), |old(gc.young.Objects())|) ==> gc.young.Objects() == []
    ensures gc.young.numCollections == old(gc.young.numCollections) + 1 && gc.collected == old(gc.Snapshot())
    ensures OldCollections(gc.collected, false, old(gc.elder.numCollections), gc.elder.numCollections)
    ensures OldSized(old(gc.elder.tospace.len), gc.elder.free.len, gc.elder.tospace.len, gc.elder.maxAfter)
    ensures old(Marked(gc)) ==> Marked(gc)
    ensures old(Safe(gc)) ==> Safe(gc) && gc.refusals == old(gc.refusals)
  {
    hide Inv, NoDuplicates, Packs, Tiled, TableOk, RememberedSet.Valid, RememberedSet.Slots, Bitmap.Valid, GrownLen,
      Meets, NoGarbage, Guarded, Safe, YoungGrew, OldCollections, HalfFree, Promoted,
      OldSized;
    RegionSizes(gc);
    CollectYoung(gc, false);
    tooSmall := sz > 32 * gc.young.free.len;
    if tooSmall {
      tooSmall := GrowForRequest(gc, sz, gc.young.maxAfter);
    }
  }

  /** How room is made for sz bytes in state w: the young region ends up with len cells, the numbers of
      collections of the two regions change as said, and `collected` is the state in which the young one
      was collected, if it was.  It is unless the request fits or may be added to it before. */
  ghost predicate MadeRoom(w: World, sz: nat, before: nat, after: nat, len: nat, young0: nat, young1: nat,
                           collected: World, elder0: nat, elder1: nat)
  {
    var len0, free0 := w.young.space.len, w.young.space.len - |w.young.objects|;
    var room := w.elder.space.len - |w.elder.objects|;
    && free0 >= 0 && room >= 0
    && len == FinalLen(len0, free0, room, sz, before, after)
    && if sz <= 32 * free0 || before == 0 || (32 * len0 < before && 32 * len0 + sz <= Align32(before)) then
         young1 == young0 && elder1 == elder0
       else
         young1 == young0 + 1 && YoungGrew(w, collected, before) && OldCollections(collected, false, elder0, elder1)
  }

  lemma SizesInSnapshot(gc: Collector)
    requires gc.Valid()
    ensures var w := gc.Snapshot();
            && w.young.space.len == gc.young.tospace.len && w.elder.space.len == gc.elder.tospace.len
            && w.young.space.len - |w.young.objects| == gc.young.free.len
            && w.elder.space.len - |w.elder.objects| == gc.elder.free.len
  {
    hide Inv, NoDuplicates, Packs, Tiled, Bitmap.Valid, TableOk, RememberedSet.Valid, RememberedSet.Slots;
    RegionSizes(gc);
  }

  /** The part of GC_malloc_region that makes room.  If the request does not fit, the young region is
      grown; if it cannot grow that much before a collection, it is promoted; and if that has not made
      room it is grown up to its final limit.  Without a collection nothing old changes. */
  method MakeRoom(gc: Collector, sz: nat) returns (tooSmall: bool)
    requires gc.Valid() && sz % 32 == 0
    modifies gc.Footprint()
    ensures gc.Valid() && gc.heap == old(gc.heap)
    ensures fresh(gc.Footprint() - old(gc.Footprint()))
    ensures !tooSmall ==> sz <= 32 * gc.young.free.len
    ensures sz <= 32 * old(gc.young.free.len) ==>
              && gc.Snapshot() == old(gc.Snapshot()) && gc.who == old(gc.who)
              && gc.young.tospace == old(gc.young.tospace) && gc.young.free == old(gc.young.free)
    ensures old(gc.young.free.len) <= old(gc.young.tospace.len)
    ensures tooSmall <==> GivesUp(old(gc.young.tospace.len), old(gc.young.free.len), old(gc.elder.free.len), sz,
                                  gc.young.maxBefore, gc.young.maxAfter)
    ensures tooSmall ==>
              gc.young.free.len ==
              FreeWhenGivenUp(old(gc.young.tospace.len), old(gc.young.free.len), old(gc.elder.free.len), sz,
                              gc.young.maxBefore, gc.young.maxAfter)
    ensures gc.young.numCollections == old(gc.young.numCollections) ==>
              gc.young.Objects() == old(gc.young.Objects()) && ElderStays(gc)
    ensures gc.young.numCollections != old(gc.young.numCollections) &&
            !NoRoom(old(gc.elder.free.len), |old(gc.young.Objects())|) ==>
              gc.young.Objects() == []
    ensures MadeRoom(old(gc.Snapshot()), sz, gc.young.maxBefore, gc.young.maxAfter, gc.young.tospace.len,
                     old(gc.young.numCollections), gc.young.numCollections, gc.collected,
                     old(gc.elder.numCollections), gc.elder.numCollections)
    ensures OldSized(old(gc.elder.tospace.len), gc.elder.free.len, gc.elder.tospace.len, gc.elder.maxAfter)
    ensures old(Marked(gc)) ==> Marked(gc)
    ensures old(Safe(gc)) ==> Safe(gc) && gc.refusals == old(gc.refusals)
  {
    hide Inv, NoDuplicates, Packs, Tiled, TableOk, RememberedSet.Valid, RememberedSet.Slots, Bitmap.Valid, GrownLen,
      Meets, Guarded, Safe, Collector.PartsValid, Collector.Snapshot, Collector.Footprint, YoungGrew, OldCollections,
      Align32, OldSized;
    RegionSizes(gc);
    SizesInSnapshot(gc);
    SameSized(gc.elder.tospace.len, gc.elder.free.len, gc.elder.maxAfter);
    CollectsExactly(gc.young.tospace.len, gc.young.free.len, sz, gc.young.maxBefore);
    tooSmall := sz > 32 * gc.young.free.len;
    if tooSmall {
      tooSmall := GrowForRequest(gc, sz, gc.young.maxBefore);
      if tooSmall {
        ghost var between := gc.Footprint();
        label grown:
        tooSmall := CollectThenGrow(gc, sz);
        forall o | o in gc.Footprint() && o !in old(gc.Footprint()) ensures fresh(o) {
          if o in between {
            assert o in between - old(gc.Footprint());
          } else {
            assert o in gc.Footprint() - between && !old@grown(allocated(o));
          }
        }
      }
    }
  }

  /** GC_malloc: either a new object, of which the client knows nothing but its size, or (ok == false)
      NULL and no change that the client can see.  For 0 bytes the result leads to no object. */
  method Malloc(gc: Collector, bytes: nat) returns (ok: bool, ret: Capability)
    requires gc.Valid()
    requires bytes == 0 ==> gc.young.free.len > 0 || gc.young.tospace.len % 8 != 0
    modifies gc.Footprint()
    ensures gc.Valid()
    ensures fresh(gc.Footprint() - old(gc.Footprint()))
    ensures old(gc.young.free.len) <= old(gc.young.tospace.len)
    ensures !ok <==> GivesUp(old(gc.young.tospace.len), old(gc.young.free.len), old(gc.elder.free.len), Align32(bytes),
                             gc.young.maxBefore, gc.young.maxAfter)
    ensures !ok ==> gc.heap == old(gc.heap)
    ensures ok ==> ret.len == Align32(bytes) / 32 && !ret.forwarding
    ensures ok && bytes == 0 ==> gc.heap == old(gc.heap) && gc.who == old(gc.who)
    ensures ok && bytes > 0 ==>
              && gc.heap == WithObject(old(gc.heap), ret.len)
              && ret.base in gc.who && gc.who[ret.base] == Place(|old(gc.heap.objs)|, 0)
    ensures gc.young.numCollections == old(gc.young.numCollections) ==> ElderStays(gc)
    ensures gc.young.numCollections != old(gc.young.numCollections) &&
            !NoRoom(old(gc.elder.free.len), |old(gc.young.Objects())|) ==>
              |gc.young.Objects()| == if ok then ret.len else 0
    ensures MadeRoom(old(gc.Snapshot()), Align32(bytes), gc.young.maxBefore, gc.young.maxAfter, gc.young.tospace.len,
                     old(gc.young.numCollections), gc.young.numCollections, gc.collected,
                     old(gc.elder.numCollections), gc.elder.numCollections)
    ensures OldSized(old(gc.elder.tospace.len), gc.elder.free.len, gc.elder.tospace.len, gc.elder.maxAfter)
    ensures old(Marked(gc)) ==> Marked(gc)
    ensures old(Safe(gc)) ==> Safe(gc) && gc.refusals == old(gc.refusals)
  {
    hide Inv, NoDuplicates, Packs, Tiled, TableOk, RememberedSet.Valid, RememberedSet.Slots, Bitmap.Valid, GivesUp,
      FreeWhenGivenUp, Collects, Marked, Safe, NoRoom, Collector.Snapshot, Collector.PartsValid, Coherent,
      MadeRoom, Align32, WithObject, Untagged, OldSized;
    var sz := Align32(bytes);
    var tooSmall := MakeRoom(gc, sz);
    if tooSmall {
      return false, Capability(0, 0, false);
    }
    ret := Bump(gc, sz / 32);
    ok := true;
  }
}
