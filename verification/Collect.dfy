/** Collections (src/gc_collect.c:54-147, 502-658): promotion of the young generation, collection of
    the old one, and the policy that strings them together. */
module Collect {
  import opened Cells
  import opened Bitmaps
  import opened RememberedSets
  import opened LowMemory
  import opened Copying
  import opened Copy
  import opened Simulation
  import opened Generations
  import opened Worlds
  import opened Collectors
  import opened Relocating
  import opened Grow
  import opened Exactness
  import opened Policy

  /** The copy of GC_gen_promote: the old region borrows the young one's tospace, bitmap and
      remembered set as its fromspace while it copies. */
  method PromoteCopy(gc: Collector, ghost j: Job) returns (ghost g: Moves)
    requires gc.Valid() && j == PromotionJob(gc.Snapshot()) && j.Valid()
    requires RootSet(gc.h.roots) !! gc.young.remset.Slots()
    modifies gc.h`mem, gc.elder, gc.elder.tospaceBitmap`used, gc.elder.tospaceBitmap`objects,
             gc.elder.tospaceBitmap.bytes, gc.young.remset`nroots
    ensures gc.Wired() && gc.elder.Valid() && gc.young.Valid() && gc.young.remset.Valid()
    ensures gc.elder.fromspaceBitmap.Valid() && gc.elder.fromspaceBitmap.size == gc.elder.fromspace.len
    ensures gc.young.remset.Slots() == {}
    ensures gc.elder.tospace == old(gc.elder.tospace) && gc.elder.fromspace == old(gc.elder.fromspace)
    ensures gc.elder.tospaceBitmap == old(gc.elder.tospaceBitmap)
    ensures gc.elder.fromspaceBitmap == old(gc.elder.fromspaceBitmap)
    ensures gc.elder.numCollections == old(gc.elder.numCollections)
    ensures Complete(j, g, gc.h.mem, gc.elder.Objects(), gc.elder.free.base)
  {
    hide Inv, Packs, Tiled, Complete, Consistent, Job.Valid, NoDuplicates, TableOk;
    var elder := gc.elder;
    var oldFromspace, oldBitmap, oldRemset := elder.fromspace, elder.fromspaceBitmap, elder.remset;
    elder.fromspace := gc.young.tospace;
    elder.fromspaceBitmap := gc.young.tospaceBitmap;
    elder.remset := gc.young.remset;
    elder.scan := elder.free.base;
    g := CopyRegion(gc.h, elder, gc.h.roots, true, j);
    elder.fromspace := oldFromspace;
    elder.fromspaceBitmap := oldBitmap;
    elder.remset := oldRemset;
    CompleteBounds(j, g, gc.h.mem, elder.Objects(), elder.free.base);
    TableStays(gc.h.table, gc.h.roots, old(gc.h.mem), gc.h.mem);
  }

  lemma CompleteBounds(j: Job, g: Moves, m: Memory, copies: Layout, free: int)
    requires Complete(j, g, m, copies, free)
    ensures |m| == |j.m0| && free == j.to.base + |copies|
  {
    hide Running, Tiled, Bijection, WholeObjects, OnlyReachable, ForwardingExact, Job.Valid;
  }

  /** The copying part of GC_gen_promote; afterwards the young region is empty. */
  method Promote(gc: Collector) returns (ghost g: Moves)
    requires gc.Valid() && gc.young.free.base - gc.young.tospace.base <= gc.elder.free.len
    modifies gc`who, gc.h`mem, gc.elder, gc.elder.tospaceBitmap`used, gc.elder.tospaceBitmap`objects,
             gc.elder.tospaceBitmap.bytes, gc.young`free, gc.young.tospaceBitmap`used,
             gc.young.tospaceBitmap`objects, gc.young.tospaceBitmap.bytes, gc.young.remset`nroots
    ensures gc.Valid() && gc.Snapshot() == AfterPromotion(old(gc.Snapshot()), g, gc.h.mem, gc.elder.Objects())
    ensures Complete(PromotionJob(old(gc.Snapshot())), g, gc.h.mem, gc.elder.Objects(), gc.elder.free.base)
    ensures gc.elder.tospaceBitmap == old(gc.elder.tospaceBitmap)
    ensures gc.elder.fromspaceBitmap == old(gc.elder.fromspaceBitmap)
    ensures gc.elder.numCollections == old(gc.elder.numCollections)
  {
    hide Inv, Packs, Tiled, Complete, Job.Valid, Survivors, Moved, NoDuplicates, TableOk, PromotionJob, AfterPromotion;
    ghost var w := gc.Snapshot();
    ghost var j := PromotionJob(w);
    PromotionReady(w);
    g := PromoteCopy(gc, j);
    gc.young.tospaceBitmap.Clear();
    gc.young.free := gc.young.tospace;
    gc.who := Moved(w.who, Survivors(j, g));
    PromotionKeepsInv(w, g, gc.h.mem, gc.elder.Objects(), gc.elder.free.base);
    PromotedSnapshot(w, gc.Snapshot(), g, gc.h.mem, gc.elder.Objects());
  }

  lemma PromotedSnapshot(w: World, w': World, g: Moves, m: Memory, copies: Layout)
    requires w'.m == m && w'.roots == w.roots && w'.young == Gen(w.young.space, [])
    requires w'.elder == Gen(w.elder.space, copies) && w'.spare == w.spare && w'.remembered == {}
    requires w'.who == Moved(w.who, Survivors(PromotionJob(w), g)) && w'.heap == w.heap
    ensures w' == AfterPromotion(w, g, m, copies)
  {
  }

  lemma PromotionReady(w: World)
    requires Inv(w) && w.elder.Free() + |w.young.objects| <= w.elder.space.End()
    ensures PromotionJob(w).Valid() && PromotionJob(w).to.base <= PromotionJob(w).start
    ensures RootSet(w.roots) !! w.remembered
  {
    hide Simulates, Tiled, Owned, HeadsClean;
    PromotionJobValid(w);
  }

  /** GC_collect_region on the old region: the semispaces and their bitmaps swap roles and the
      reachable objects are copied over. */
  method CollectOld(gc: Collector) returns (ghost g: Moves)
    requires gc.Valid() && gc.young.Objects() == [] && gc.young.remset.Slots() == {}
    modifies gc`who, gc.h`mem, gc.elder, gc.elder.tospaceBitmap, gc.elder.fromspaceBitmap,
             gc.elder.tospaceBitmap.bytes, gc.elder.fromspaceBitmap.bytes
    ensures gc.Valid() && gc.Snapshot() == AfterMajor(old(gc.Snapshot()), g, gc.h.mem, gc.elder.Objects())
    ensures Complete(MajorJob(old(gc.Snapshot())), g, gc.h.mem, gc.elder.Objects(), gc.elder.free.base)
    ensures gc.elder.tospaceBitmap == old(gc.elder.fromspaceBitmap)
    ensures gc.elder.fromspaceBitmap == old(gc.elder.tospaceBitmap)
    ensures gc.elder.tospaceBitmap.bytes == old(gc.elder.fromspaceBitmap.bytes)
    ensures gc.elder.fromspaceBitmap.bytes == old(gc.elder.tospaceBitmap.bytes)
    ensures gc.elder.tospace.len == old(gc.elder.tospace.len) && gc.heap == old(gc.heap)
    ensures gc.elder.numCollections == old(gc.elder.numCollections) + 1
  {
    hide Inv, Packs, Tiled, Complete, Job.Valid, Survivors, Moved, NoDuplicates, TableOk, MajorJob, AfterMajor;
    ghost var w := gc.Snapshot();
    ghost var j := MajorJob(w);
    MajorReady(w);
    gc.elder.numCollections := gc.elder.numCollections + 1;
    g := CollectOldCopy(gc, j);
    gc.who := Moved(w.who, Survivors(j, g));
    MajorKeepsInv(w, g, gc.h.mem, gc.elder.Objects(), gc.elder.free.base);
    MajorSnapshot(w, gc.Snapshot(), g, gc.h.mem, gc.elder.Objects());
  }

  method CollectOldCopy(gc: Collector, ghost j: Job) returns (ghost g: Moves)
    requires gc.Valid() && j == MajorJob(gc.Snapshot()) && j.Valid()
    modifies gc.h`mem, gc.elder, gc.elder.tospaceBitmap, gc.elder.fromspaceBitmap,
             gc.elder.tospaceBitmap.bytes, gc.elder.fromspaceBitmap.bytes
    ensures gc.Wired() && gc.PartsValid()
    ensures gc.elder.tospace == old(gc.elder.fromspace) && gc.elder.fromspace == old(gc.elder.tospace)
    ensures gc.elder.tospaceBitmap == old(gc.elder.fromspaceBitmap)
    ensures gc.elder.fromspaceBitmap == old(gc.elder.tospaceBitmap)
    ensures gc.elder.tospaceBitmap.bytes == old(gc.elder.fromspaceBitmap.bytes)
    ensures gc.elder.fromspaceBitmap.bytes == old(gc.elder.tospaceBitmap.bytes)
    ensures gc.elder.numCollections == old(gc.elder.numCollections)
    ensures Complete(j, g, gc.h.mem, gc.elder.Objects(), gc.elder.free.base)
  {
    hide Inv, Packs, Tiled, Complete, Consistent, Job.Valid, NoDuplicates, TableOk;
    var elder := gc.elder;
    MajorReady(gc.Snapshot());
    elder.fromspace, elder.tospace := elder.tospace, elder.fromspace;
    elder.free := elder.tospace;
    elder.scan := elder.tospace.base;
    elder.fromspaceBitmap, elder.tospaceBitmap := elder.tospaceBitmap, elder.fromspaceBitmap;
    elder.tospaceBitmap.Clear();
    g := CopyRegion(gc.h, elder, gc.h.roots, false, j);
    CompleteBounds(j, g, gc.h.mem, elder.Objects(), elder.free.base);
    TableStays(gc.h.table, gc.h.roots, old(gc.h.mem), gc.h.mem);
  }

  lemma MajorReady(w: World)
    requires Inv(w)
    ensures MajorJob(w).Valid() && MajorJob(w).to.base <= MajorJob(w).start
    ensures w.spare.len == w.elder.space.len
  {
    hide Simulates, Tiled, Owned, HeadsClean, Remembers;
    MajorJobValid(w);
  }

  lemma MajorSnapshot(w: World, w': World, g: Moves, m: Memory, copies: Layout)
    requires w'.m == m && w'.roots == w.roots && w'.young == w.young
    requires w'.elder == Gen(w.spare, copies) && w'.spare == w.elder.space && w'.remembered == {}
    requires w'.who == Moved(w.who, Survivors(MajorJob(w), g)) && w'.heap == w.heap
    ensures w' == AfterMajor(w, g, m, copies)
  {
  }

  /** The end of GC_gen_promote: the old region is collected if it is more than half full, and grown if
      it still is.  `tooSmall` is the last value of the source's variable of that name.  Growth leaves
      the region below the watermark exactly when its limit has room for twice what is in use. */
  method RelieveOld(gc: Collector) returns (tooSmall: bool, grew: bool)
    requires gc.Valid() && gc.young.Objects() == [] && gc.young.remset.Slots() == {}
    modifies gc`who, gc.h`mem, gc.h`table, gc.elder, gc.elder.tospaceBitmap, gc.elder.fromspaceBitmap,
             gc.elder.tospaceBitmap.bytes, gc.elder.fromspaceBitmap.bytes
    ensures gc.Valid() && gc.heap == old(gc.heap)
    ensures fresh(gc.Footprint() - old(gc.Footprint()))
    ensures old(!AboveWatermark(gc.elder.free.len, gc.elder.tospace.len)) ==>
              !grew && gc.Snapshot() == old(gc.Snapshot()) && gc.elder.free == old(gc.elder.free)
    ensures gc.elder.numCollections ==
            old(gc.elder.numCollections + if AboveWatermark(gc.elder.free.len, gc.elder.tospace.len) then 1 else 0)
    ensures old(AboveWatermark(gc.elder.free.len, gc.elder.tospace.len) && NoGarbage(gc.Snapshot())) ==> grew
    ensures old(AboveWatermark(gc.elder.free.len, gc.elder.tospace.len) || NoGarbage(gc.Snapshot())) ==>
              NoGarbage(gc.Snapshot())
    ensures Relieved(old(gc.elder.tospace.len), gc.elder.free.len, gc.elder.tospace.len, gc.elder.maxAfter,
              tooSmall, grew)
  {
    hide Inv, NoDuplicates, Packs, Tiled, Bitmap.Valid, TableOk, GrownLen, Meets, Complete, AfterMajor,
      AfterOldGrowth, MajorJob, RememberedSet.Valid, RememberedSet.Slots, NoGarbage, AboveWatermark, RoomToHalve;
    RegionSizes(gc);
    grew := false;
    tooSmall := AboveWatermark(gc.elder.free.len, gc.elder.tospace.len);
    if tooSmall {
      ghost var w := gc.Snapshot();
      ghost var g := CollectOld(gc);
      MajorLeavesNoGarbage(w, g, gc.h.mem, gc.elder.Objects(), gc.elder.free.base);
      if NoGarbage(w) {
        NothingToFree(w, g, gc.h.mem, gc.elder.Objects(), gc.elder.free.base);
        RegionSizes(gc);
      }
      tooSmall := AboveWatermark(gc.elder.free.len, gc.elder.tospace.len);
      if tooSmall {
        grew := true;
        tooSmall := GrowOldSpace(gc);
      }
    }
  }

  /** The old region of len0 cells before, and of len cells now with `free` of them free, at the end of
      a promotion. */
  predicate Relieved(len0: nat, free: nat, len: nat, maxSize: nat, tooSmall: bool, grew: bool) {
    if !grew then !tooSmall && len == len0 && !AboveWatermark(free, len)
    else
      && len0 <= len <= len0 + free
      && AboveWatermark(free - (len - len0), len0)
      && len == GrownLen(len0, 32 * (free - (len - len0)), maxSize)
      && tooSmall == !Meets(len0, 32 * (free - (len - len0)), maxSize)
      && free <= len && (!AboveWatermark(free, len) <==> RoomToHalve(len - free, maxSize))
  }

  /** The growth of the old region at the end of GC_gen_promote, which asks for as much as is free. */
  method GrowOldSpace(gc: Collector) returns (tooSmall: bool)
    requires gc.Valid() && gc.young.Objects() == [] && gc.young.remset.Slots() == {}
    requires AboveWatermark(gc.elder.free.len, gc.elder.tospace.len) && NoGarbage(gc.Snapshot())
    modifies gc`who, gc.h`mem, gc.h`table, gc.elder`fromspace, gc.elder`tospace, gc.elder`free, gc.elder`scan,
             gc.elder.tospaceBitmap`bytes, gc.elder.tospaceBitmap`size,
             gc.elder.fromspaceBitmap`bytes, gc.elder.fromspaceBitmap`size
    ensures gc.Valid() && gc.heap == old(gc.heap) && NoGarbage(gc.Snapshot())
    ensures fresh(gc.Footprint() - old(gc.Footprint()))
    ensures Relieved(old(gc.elder.tospace.len), gc.elder.free.len, gc.elder.tospace.len, gc.elder.maxAfter,
              tooSmall, true)
  {
    hide Inv, NoDuplicates, Packs, Tiled, Bitmap.Valid, TableOk, GrownLen, Meets, Complete, MajorJob,
      AfterOldGrowth, RememberedSet.Valid, RememberedSet.Slots, NoGarbage, AboveWatermark, RoomToHalve, Geometry,
      GrownMemory;
    RegionSizes(gc);
    ghost var free, len := gc.elder.free.len, gc.elder.tospace.len;
    GrowthMeetsWatermark(free, len, gc.elder.maxAfter);
    ghost var w := gc.Snapshot();
    var grown := GrowOld(gc, 32 * gc.elder.free.len, gc.elder.maxAfter);
    if !AtLimit(len, gc.elder.maxAfter) {
      WorldGeometry(w);
      GrowthKeepsNoGarbage(w, gc.elder.tospace, gc.elder.fromspace, gc.h.mem);
    }
    tooSmall := !grown;
  }

  lemma WorldGeometry(w: World)
    requires Inv(w)
    ensures Geometry(w)
  {
  }

  lemma RoomInSnapshot(gc: Collector)
    requires gc.Valid()
    ensures var w := gc.Snapshot();
            NoRoom(gc.elder.free.len, |gc.young.Objects()|) <==>
            |w.elder.objects| + |w.young.objects| > w.elder.space.len
  {
    hide Inv, NoDuplicates, Packs, Tiled, Bitmap.Valid, TableOk, RememberedSet.Valid, RememberedSet.Slots;
    RegionSizes(gc);
  }

  lemma RegionSizes(gc: Collector)
    requires gc.Valid()
    ensures gc.elder.fromspace.len == gc.elder.tospace.len
    ensures gc.elder.free.len <= gc.elder.tospace.len && gc.young.free.len <= gc.young.tospace.len
    ensures |gc.young.Objects()| == gc.young.tospace.len - gc.young.free.len
    ensures |gc.young.Objects()| == gc.young.free.base - gc.young.tospace.base
    ensures |gc.elder.Objects()| == gc.elder.tospace.len - gc.elder.free.len
  {
    hide Simulates, Owned, HeadsClean, Remembers, Tiled, Packs, NoDuplicates;
  }

  /** GC_gen_promote.  If the old region has no room for the whole young generation nothing happens.
      Otherwise everything reachable moves into the old region, which is then collected if that is
      asked for, and relieved if it is too full. */
  method GenPromote(gc: Collector, force: bool) returns (tooSmall: bool, grew: bool)
    requires gc.Valid()
    modifies gc`who, gc.h`mem, gc.h`table, gc.elder, gc.elder.tospaceBitmap, gc.elder.fromspaceBitmap,
             gc.elder.tospaceBitmap.bytes, gc.elder.fromspaceBitmap.bytes, gc.young`free,
             gc.young.tospaceBitmap`used, gc.young.tospaceBitmap`objects, gc.young.tospaceBitmap.bytes,
             gc.young.remset`nroots
    ensures gc.Valid() && gc.heap == old(gc.heap)
    ensures fresh(gc.Footprint() - old(gc.Footprint()))
    ensures NoRoom(old(gc.elder.free.len), |old(gc.young.Objects())|) ==>
              tooSmall && !grew && gc.Snapshot() == old(gc.Snapshot()) && gc.young.free == old(gc.young.free)
              && gc.elder.free == old(gc.elder.free) && gc.elder.tospace == old(gc.elder.tospace)
              && gc.elder.numCollections == old(gc.elder.numCollections)
    ensures !NoRoom(old(gc.elder.free.len), |old(gc.young.Objects())|) ==>
              && gc.young.Objects() == [] && gc.young.remset.Slots() == {} && gc.young.free == gc.young.tospace
              && Relieved(old(gc.elder.tospace.len), gc.elder.free.len, gc.elder.tospace.len, gc.elder.maxAfter,
                          tooSmall, grew)
              && (force || grew ==> NoGarbage(gc.Snapshot()))
              && CollectedOld(old(gc.Snapshot()), force, gc.elder.numCollections - old(gc.elder.numCollections), grew)
              && (!force && HalfFree(old(gc.Snapshot())) ==> Promoted(old(gc.Snapshot()), gc.Snapshot()))
  {
    hide Inv, NoDuplicates, Packs, Tiled, Bitmap.Valid, TableOk, Complete, AboveWatermark, Relieved, AfterMajor,
      PromotionJob, MajorJob, Moved, Survivors, RememberedSet.Valid, RememberedSet.Slots, NoGarbage,
      HalfFree, Promoted;
    RegionSizes(gc);
    grew := false;
    var expected := gc.young.free.base - gc.young.tospace.base;
    tooSmall := gc.elder.free.len < expected;
    if tooSmall {
      return;
    }
    ghost var w0 := gc.Snapshot();
    ghost var g := Promote(gc);
    PromotedAsAbove(gc, w0, g);
    if force {
      ghost var w := gc.Snapshot();
      g := CollectOld(gc);
      MajorLeavesNoGarbage(w, g, gc.h.mem, gc.elder.Objects(), gc.elder.free.base);
    }
    tooSmall, grew := RelieveOld(gc);
  }

  /** How often the old region has been collected at the end of a promotion in state w: not at all if that
      is not asked for and at least half of it is free; and otherwise once, and if it is asked for once
      more if the region has had to grow. */
  ghost predicate CollectedOld(w: World, force: bool, times: int, grew: bool) {
    if force then times == if grew then 2 else 1 else times == if HalfFree(w) then 0 else 1
  }

  /** How often the old region is collected when the young one is, in state w: never if there is no room
      for a promotion, or if it is not asked for and the promotion leaves at least half of the old region
      free; otherwise once, or, if it is asked for, perhaps once more. */
  ghost predicate OldCollections(w: World, force: bool, from: nat, to: nat) {
    if |w.elder.objects| + |w.young.objects| > w.elder.space.len then to == from
    else if force then from + 1 <= to <= from + 2
    else to == if HalfFree(w) then from else from + 1
  }

  /** The watermark test after a promotion. */
  lemma PromotedAsAbove(gc: Collector, w: World, g: Moves)
    requires gc.Valid() && gc.Snapshot() == AfterPromotion(w, g, gc.h.mem, gc.elder.Objects())
    requires Complete(PromotionJob(w), g, gc.h.mem, gc.elder.Objects(), gc.elder.free.base)
    ensures Promoted(w, gc.Snapshot())
    ensures HalfFree(w) <==> !AboveWatermark(gc.elder.free.len, gc.elder.tospace.len)
  {
    hide Inv, NoDuplicates, Packs, Tiled, Bitmap.Valid, TableOk, RememberedSet.Valid, RememberedSet.Slots, Complete,
      Promoted, PromotionJob, AboveWatermark, PromotedFree;
    RegionSizes(gc);
    IsPromoted(w, gc.Snapshot(), g);
    PromotionAdds(w, gc.Snapshot());
    RoomForHalf(gc.elder.free.len, gc.elder.tospace.len);
  }

  /** Nothing in the old region has changed. */
  twostate predicate ElderStays(gc: Collector)
    reads gc.elder, gc.elder.tospaceBitmap
  {
    && gc.elder.tospace == old(gc.elder.tospace) && gc.elder.free == old(gc.elder.free)
    && gc.elder.Objects() == old(gc.elder.Objects()) && gc.elder.numCollections == old(gc.elder.numCollections)
  }

  /** The old region is above the watermark only if its limit leaves no other way. */
  predicate Marked(gc: Collector)
    reads gc.elder
  {
    WithinMark(gc.elder.free.len, gc.elder.tospace.len, gc.elder.maxAfter)
  }

  /** No promotion can fail. */
  predicate Safe(gc: Collector)
    reads gc.young, gc.elder
  {
    && gc.elder.maxAfter == 0
    && Guarded(gc.young.tospace.len, gc.elder.free.len, gc.elder.tospace.len, gc.young.maxBefore, gc.young.maxAfter)
  }

  /** Every promotion leaves the old region within its mark. */
  lemma RelievedIsMarked(len0: nat, free: nat, len: nat, limit: nat, tooSmall: bool, grew: bool)
    requires Relieved(len0, free, len, limit, tooSmall, grew) && free <= len
    ensures WithinMark(free, len, limit)
  {
  }

  /** The old region keeps its size, or has been grown once, from len0 cells that were above the watermark
      and with a hint of what was free. */
  predicate OldSized(len0: nat, free: nat, len: nat, limit: nat) {
    len == len0 ||
    (&& len0 <= len <= len0 + free
     && AboveWatermark(free - (len - len0), len0)
     && len == GrownLen(len0, 32 * (free - (len - len0)), limit))
  }

  lemma SameSized(len: nat, free: nat, limit: nat)
    ensures OldSized(len, free, len, limit)
  {
  }

  lemma RelievedIsSized(len0: nat, free: nat, len: nat, limit: nat, tooSmall: bool, grew: bool)
    requires Relieved(len0, free, len, limit, tooSmall, grew)
    ensures OldSized(len0, free, len, limit)
  {
  }

  /** After a promotion that did not grow the old region, or whose limit has room for twice what is in use,
      and only then, the collector is guarded as before. */
  lemma RelievedStaysGuarded(youngLen: nat, free0: nat, len0: nat, free: nat, len: nat, before: nat, after: nat,
                             limit: nat, tooSmall: bool, grew: bool)
    requires Guarded(youngLen, free0, len0, before, after)
    requires Relieved(len0, free, len, limit, tooSmall, grew) && free <= len
    ensures Guarded(youngLen, free, len, before, after) <==> !grew || RoomToHalve(len - free, limit)
  {
  }

  /** GC_collect_region on the young region: a promotion, which fails, and is warned of, if the old region
      has no room; it never does while it is safe, and stays so. */
  method CollectYoung(gc: Collector, force: bool)
    requires gc.Valid()
    modifies gc`who, gc`refusals, gc`collected, gc.h`mem, gc.h`table, gc.elder, gc.elder.tospaceBitmap,
             gc.elder.fromspaceBitmap, gc.elder.tospaceBitmap.bytes, gc.elder.fromspaceBitmap.bytes, gc.young`free,
             gc.young`numCollections,
             gc.young.tospaceBitmap`used, gc.young.tospaceBitmap`objects, gc.young.tospaceBitmap.bytes,
             gc.young.remset`nroots
    ensures gc.Valid() && gc.heap == old(gc.heap) && gc.young.numCollections == old(gc.young.numCollections) + 1
    ensures gc.collected == old(gc.Snapshot())
    ensures fresh(gc.Footprint() - old(gc.Footprint()))
    ensures NoRoom(old(gc.elder.free.len), |old(gc.young.Objects())|) ==>
              && gc.refusals == old(gc.refusals) + 1
              && gc.Snapshot() == old(gc.Snapshot()) && gc.young.free == old(gc.young.free)
    ensures !NoRoom(old(gc.elder.free.len), |old(gc.young.Objects())|) ==>
              && gc.refusals == old(gc.refusals)
              && gc.young.Objects() == [] && gc.young.remset.Slots() == {} && gc.young.free == gc.young.tospace
              && (force ==> NoGarbage(gc.Snapshot()))
              && (!force && HalfFree(old(gc.Snapshot())) ==> Promoted(old(gc.Snapshot()), gc.Snapshot()))
    ensures OldCollections(old(gc.Snapshot()), force, old(gc.elder.numCollections), gc.elder.numCollections)
    ensures OldSized(old(gc.elder.tospace.len), gc.elder.free.len, gc.elder.tospace.len, gc.elder.maxAfter)
    ensures old(Marked(gc)) ==> Marked(gc)
    ensures old(Safe(gc)) ==> Safe(gc) && gc.refusals == old(gc.refusals)
  {
    hide Inv, NoDuplicates, Packs, Tiled, Bitmap.Valid, TableOk, RememberedSet.Valid, RememberedSet.Slots, NoGarbage,
      Guarded, WithinMark, OldSized, HalfFree, Promoted, OldCollections;
    RegionSizes(gc);
    gc.collected := gc.Snapshot();
    gc.young.numCollections := gc.young.numCollections + 1;
    PromoteWithinMarks(gc, force);
    if gc.young.free.base != gc.young.tospace.base {
      gc.refusals := gc.refusals + 1;
    }
  }

  /** GC_gen_promote, with what it means for the marks. */
  method PromoteWithinMarks(gc: Collector, force: bool)
    requires gc.Valid()
    modifies gc`who, gc.h`mem, gc.h`table, gc.elder, gc.elder.tospaceBitmap, gc.elder.fromspaceBitmap,
             gc.elder.tospaceBitmap.bytes, gc.elder.fromspaceBitmap.bytes, gc.young`free,
             gc.young.tospaceBitmap`used, gc.young.tospaceBitmap`objects, gc.young.tospaceBitmap.bytes,
             gc.young.remset`nroots
    ensures gc.Valid() && gc.heap == old(gc.heap)
    ensures fresh(gc.Footprint() - old(gc.Footprint()))
    ensures NoRoom(old(gc.elder.free.len), |old(gc.young.Objects())|) ==>
              && gc.Snapshot() == old(gc.Snapshot()) && gc.young.free == old(gc.young.free)
    ensures !NoRoom(old(gc.elder.free.len), |old(gc.young.Objects())|) ==>
              && gc.young.Objects() == [] && gc.young.remset.Slots() == {} && gc.young.free == gc.young.tospace
              && (force ==> NoGarbage(gc.Snapshot()))
              && (!force && HalfFree(old(gc.Snapshot())) ==> Promoted(old(gc.Snapshot()), gc.Snapshot()))
    ensures OldCollections(old(gc.Snapshot()), force, old(gc.elder.numCollections), gc.elder.numCollections)
    ensures OldSized(old(gc.elder.tospace.len), gc.elder.free.len, gc.elder.tospace.len, gc.elder.maxAfter)
    ensures old(Marked(gc)) ==> Marked(gc)
    ensures old(Safe(gc)) ==> Safe(gc) && !NoRoom(old(gc.elder.free.len), |old(gc.young.Objects())|)
  {
    hide Inv, NoDuplicates, Packs, Tiled, Bitmap.Valid, TableOk, RememberedSet.Valid, RememberedSet.Slots, NoGarbage,
      Relieved, Guarded, WithinMark, OldSized, HalfFree, Promoted, Collector.PartsValid, Collector.Snapshot;
    RegionSizes(gc);
    RoomInSnapshot(gc);
    SameSized(gc.elder.tospace.len, gc.elder.free.len, gc.elder.maxAfter);
    ghost var youngLen, free0, len0 := gc.young.tospace.len, gc.elder.free.len, gc.elder.tospace.len;
    if Safe(gc) {
      GuardedHasRoom(youngLen, free0, len0, gc.young.maxBefore, gc.young.maxAfter, |gc.young.Objects()|);
    }
    var tooSmall, grew := GenPromote(gc, force);
    PromotedMarks(gc, youngLen, free0, len0, NoRoom(free0, |old(gc.young.Objects())|), tooSmall, grew);
  }

  /** What a promotion that had room means for the marks. */
  lemma PromotedMarks(gc: Collector, youngLen: nat, free0: nat, len0: nat, refused: bool, tooSmall: bool, grew: bool)
    requires gc.Valid()
    requires !refused ==>
               Relieved(len0, gc.elder.free.len, gc.elder.tospace.len, gc.elder.maxAfter, tooSmall, grew)
    ensures !refused ==>
              && Marked(gc)
              && OldSized(len0, gc.elder.free.len, gc.elder.tospace.len, gc.elder.maxAfter)
    ensures !refused && gc.elder.maxAfter == 0 &&
            Guarded(youngLen, free0, len0, gc.young.maxBefore, gc.young.maxAfter) ==>
              Guarded(youngLen, gc.elder.free.len, gc.elder.tospace.len, gc.young.maxBefore, gc.young.maxAfter)
  {
    hide Inv, NoDuplicates, Packs, Tiled, Bitmap.Valid, TableOk, RememberedSet.Valid, RememberedSet.Slots, Relieved,
      Guarded, WithinMark;
    RegionSizes(gc);
    var free, len := gc.elder.free.len, gc.elder.tospace.len;
    if !refused {
      RelievedIsMarked(len0, free, len, gc.elder.maxAfter, tooSmall, grew);
      RelievedIsSized(len0, free, len, gc.elder.maxAfter, tooSmall, grew);
      if Guarded(youngLen, free0, len0, gc.young.maxBefore, gc.young.maxAfter) {
        RelievedStaysGuarded(youngLen, free0, len0, free, len, gc.young.maxBefore, gc.young.maxAfter,
                             gc.elder.maxAfter, tooSmall, grew);
      }
    }
  }
}
