/** What a collection leaves behind: exactly what can be reached (src/gc_collect.c:102-136, 460-475). */
module Exactness {
  import opened Cells
  import opened Copying
  import opened Simulation
  import opened Generations
  import opened Worlds
  import opened Relocating

  // ---------------------------------------------------------------- how much a copy takes

  ghost function LiveCells(j: Job): set<int> {
    set s | s in Interval(j.from.base, j.from.base + |j.objects|) && Reachable(j, s)
  }

  /** The garbage of a copy: the allocated cells of objects that cannot be reached. */
  ghost function Garbage(j: Job): set<int> {
    Interval(j.from.base, j.from.base + |j.objects|) - LiveCells(j)
  }

  lemma GarbageComplement(j: Job)
    ensures |Garbage(j)| == |j.objects| - |LiveCells(j)|
  {
    hide Reachable, Interval;
    var all := Interval(j.from.base, j.from.base + |j.objects|);
    IntervalSize(j.from.base, j.from.base + |j.objects|);
    assert |all| == |LiveCells(j)| + |all - LiveCells(j)|;
  }

  lemma CompleteSpace(j: Job, g: Moves, m: Memory, copies: Layout, free: int)
    requires Complete(j, g, m, copies, free)
    ensures free - j.start == |copies| - |j.kept|
  {
    hide Tiled, ForwardingExact, Running, Bijection, WholeObjects, OnlyReachable;
  }

  /** A major collection frees exactly the garbage. */
  lemma MajorFreesTheGarbage(w: World, g: Moves, m: Memory, copies: Layout, free: int)
    requires Complete(MajorJob(w), g, m, copies, free)
    ensures |w.elder.objects| - |copies| == |Garbage(MajorJob(w))|
  {
    hide Complete, Reachable, Garbage;
    CopyIsExact(MajorJob(w), g, m, copies, free);
    GarbageComplement(MajorJob(w));
    CompleteSpace(MajorJob(w), g, m, copies, free);
  }

  /** A promotion takes exactly the room of the young objects that the roots and the remembered slots
      reach, so never more than the young generation has in use. */
  lemma PromotionTakesTheReachable(w: World, g: Moves, m: Memory, copies: Layout, free: int)
    requires Complete(PromotionJob(w), g, m, copies, free)
    ensures |copies| - |w.elder.objects| == |w.young.objects| - |Garbage(PromotionJob(w))|
  {
    hide Complete, Reachable, Garbage;
    CopyIsExact(PromotionJob(w), g, m, copies, free);
    GarbageComplement(PromotionJob(w));
    CompleteSpace(PromotionJob(w), g, m, copies, free);
  }

  /** w' is what a promotion makes of w. */
  ghost predicate Promoted(w: World, w': World) {
    exists g ::
      && Complete(PromotionJob(w), g, w'.m, w'.elder.objects, w'.elder.Free())
      && w' == AfterPromotion(w, g, w'.m, w'.elder.objects)
  }

  /** What is free of the old generation after a promotion. */
  ghost function PromotedFree(w: World): int {
    w.elder.space.len - |w.elder.objects| - (|w.young.objects| - |Garbage(PromotionJob(w))|)
  }

  /** A promotion leaves at least half of the old generation free. */
  ghost predicate HalfFree(w: World) {
    2 * PromotedFree(w) >= w.elder.space.len
  }

  /** A promotion adds to the old generation and takes nothing away. */
  lemma PromotionAdds(w: World, w': World)
    requires Promoted(w, w')
    ensures w'.elder.space == w.elder.space && w'.spare == w.spare
    ensures w'.elder.space.len - |w'.elder.objects| == PromotedFree(w)
    ensures |w.elder.objects| <= |w'.elder.objects| && w'.elder.objects[..|w.elder.objects|] == w.elder.objects
  {
    hide Garbage, Running, Bijection, WholeObjects, ForwardingExact, OnlyReachable, Job.Valid, Tiled, Moved, Survivors;
    var g :| Complete(PromotionJob(w), g, w'.m, w'.elder.objects, w'.elder.Free()) &&
             w' == AfterPromotion(w, g, w'.m, w'.elder.objects);
    PromotionTakesTheReachable(w, g, w'.m, w'.elder.objects, w'.elder.Free());
  }

  lemma IsPromoted(w: World, w': World, g: Moves)
    requires Complete(PromotionJob(w), g, w'.m, w'.elder.objects, w'.elder.Free())
    requires w' == AfterPromotion(w, g, w'.m, w'.elder.objects)
    ensures Promoted(w, w')
  {
    hide Complete, AfterPromotion;
  }

  // ---------------------------------------------------------------- nothing left to collect

  /** Every object of the old generation can be reached from the roots. */
  ghost predicate NoGarbage(w: World) {
    forall a :: w.elder.Allocated(a) ==> Reachable(MajorJob(w), a)
  }

  /** The move d takes every pointer from a slot, or from an object that moves, to one between the new
      places. */
  ghost predicate Carries(j: Job, j': Job, d: map<int, int>) {
    && (forall a, s :: a in j.slots && PointsInto(j, a, s) ==>
          a in j'.slots && s in d && PointsInto(j', a, d[s]))
    && (forall a, s :: a in d && PointsInto(j, a, s) ==>
          j'.Allocated(d[a]) && s in d && PointsInto(j', d[a], d[s]))
  }

  /** What can be reached can be reached where it has moved to, over as many objects. */
  lemma {:induction false} ReachedMoves(j: Job, j': Job, d: map<int, int>, s: int, n: nat)
    requires Carries(j, j', d) && ReachedIn(j, s, n)
    ensures s in d && ReachedIn(j', d[s], n)
    decreases n
  {
    hide PointsInto;
    if a :| a in j.slots && PointsInto(j, a, s) {
      assert a in j'.slots && PointsInto(j', a, d[s]);
    } else {
      var a :| j.Allocated(a) && PointsInto(j, a, s) && ReachedIn(j, a, n - 1);
      ReachedMoves(j, j', d, a, n - 1);
      assert PointsInto(j', d[a], d[s]);
    }
  }

  lemma ReachableMoves(j: Job, j': Job, d: map<int, int>, s: int)
    requires Carries(j, j', d) && Reachable(j, s)
    ensures s in d && Reachable(j', d[s])
  {
    hide Carries, ReachedIn;
    var n: nat :| ReachedIn(j, s, n);
    ReachedMoves(j, j', d, s, n);
  }

  /** A pointer to cell s leads to the copy of s after it has been forwarded. */
  lemma ForwardPointsInto(w: World, g: Moves, m: Memory, copies: Layout, free: int, c: Cell, s: int)
    requires Complete(MajorJob(w), g, m, copies, free)
    requires MajorJob(w).Movable(c) && Settled(MajorJob(w), g, c) && MajorJob(w).SameObject(c.cap.base, s)
    ensures s in g.dst
    ensures var j' := MajorJob(AfterMajor(w, g, m, copies));
            var c' := Forward(MajorJob(w), g, c);
            j'.Movable(c') && j'.SameObject(c'.cap.base, g.dst[s])
  {
    hide Tiled, ForwardingExact, OnlyReachable, Running, Moved, Survivors;
    var j := MajorJob(w);
    assert SameExtent(j, copies, g.dst[c.cap.base], c.cap.base);
    assert SameExtent(j, copies, g.dst[s], s);
  }

  lemma MajorCarries(w: World, g: Moves, m: Memory, copies: Layout, free: int)
    requires Complete(MajorJob(w), g, m, copies, free)
    ensures Carries(MajorJob(w), MajorJob(AfterMajor(w, g, m, copies)), g.dst)
  {
    hide Tiled, ForwardingExact, OnlyReachable, Moved, Survivors, WholeObjects, CopiesRecorded, Forward, Settled,
      Job.Movable, Job.SameObject;
    var j, j' := MajorJob(w), MajorJob(AfterMajor(w, g, m, copies));
    forall a, s | a in j.slots && PointsInto(j, a, s)
      ensures a in j'.slots && s in g.dst && PointsInto(j', a, g.dst[s])
    {
      assert Processed(j, g, m, a, j.m0[a]);
      ForwardPointsInto(w, g, m, copies, free, j.m0[a], s);
    }
    forall a, s | a in g.dst && PointsInto(j, a, s)
      ensures j'.Allocated(g.dst[a]) && s in g.dst && PointsInto(j', g.dst[a], g.dst[s])
    {
      assert Processed(j, g, m, g.dst[a], j.m0[a]);
      ForwardPointsInto(w, g, m, copies, free, j.m0[a], s);
      CompleteSpace(j, g, m, copies, free);
    }
  }

  /** After a major collection the old generation holds nothing that cannot be reached: collecting once
      more would free nothing. */
  lemma MajorLeavesNoGarbage(w: World, g: Moves, m: Memory, copies: Layout, free: int)
    requires Complete(MajorJob(w), g, m, copies, free)
    ensures NoGarbage(AfterMajor(w, g, m, copies))
  {
    hide Tiled, ForwardingExact, Running, WholeObjects, CopiesRecorded, Carries, Reachable, Moved, Survivors;
    var j, w' := MajorJob(w), AfterMajor(w, g, m, copies);
    MajorCarries(w, g, m, copies, free);
    CompleteSpace(j, g, m, copies, free);
    forall a | w'.elder.Allocated(a)
      ensures Reachable(MajorJob(w'), a)
    {
      assert a in g.src && g.src[a] in g.dst;
      ReachableMoves(j, MajorJob(w'), g.dst, g.src[a]);
    }
  }

  /** A pointer to cell s leads to the new place of s after it has been rebased. */
  lemma RebasedPointsInto(w: World, space: Space, spare: Space, m': Memory, c: Cell, s: int)
    requires space.len >= w.elder.space.len && |w.elder.objects| <= w.elder.space.len
    requires MajorJob(w).Movable(c) && MajorJob(w).SameObject(c.cap.base, s)
    ensures var j' := MajorJob(AfterOldGrowth(w, space, spare, m'));
            var c' := Rebased(c, w.elder.space.base, w.elder.space.len, space.base);
            && j'.Movable(c') && j'.SameObject(c'.cap.base, s - w.elder.space.base + space.base)
  {
    hide Moved, Slide;
  }

  lemma GrowthCarries(w: World, space: Space, spare: Space, m': Memory)
    requires Geometry(w) && space.len >= w.elder.space.len && GrownMemory(w, w.elder, space.base, m')
    ensures Carries(MajorJob(w), MajorJob(AfterOldGrowth(w, space, spare, m')),
                    Shift(w.elder.space.base, |w.elder.objects|, space.base))
  {
    hide Moved, Slide, Rebased, Job.Movable, Job.SameObject, Tiled;
    var j, j' := MajorJob(w), MajorJob(AfterOldGrowth(w, space, spare, m'));
    var d := Shift(w.elder.space.base, |w.elder.objects|, space.base);
    forall a, s | a in j.slots && PointsInto(j, a, s)
      ensures a in j'.slots && s in d && PointsInto(j', a, d[s])
    {
      assert w.roots.Contains(a);
      PointerLeads(j, a, s);
      RebasedPointsInto(w, space, spare, m', j.m0[a], s);
    }
    forall a, s | a in d && PointsInto(j, a, s)
      ensures j'.Allocated(d[a]) && s in d && PointsInto(j', d[a], d[s])
    {
      PointerLeads(j, a, s);
      RebasedPointsInto(w, space, spare, m', j.m0[a], s);
    }
  }

  lemma PointerLeads(j: Job, a: int, s: int)
    requires PointsInto(j, a, s)
    ensures j.m0[a].Tagged? && j.Allocated(s)
  {
  }

  /** Growing the old generation keeps everything in it reachable. */
  lemma GrowthKeepsNoGarbage(w: World, space: Space, spare: Space, m': Memory)
    requires Geometry(w) && space.len >= w.elder.space.len && GrownMemory(w, w.elder, space.base, m')
    requires NoGarbage(w)
    ensures NoGarbage(AfterOldGrowth(w, space, spare, m'))
  {
    hide Carries, Reachable, Moved, Slide, Geometry, GrownMemory;
    var w' := AfterOldGrowth(w, space, spare, m');
    GrowthCarries(w, space, spare, m');
    forall a | w'.elder.Allocated(a)
      ensures Reachable(MajorJob(w'), a)
    {
      ReachableMoves(MajorJob(w), MajorJob(w'), Shift(w.elder.space.base, |w.elder.objects|, space.base),
                     a - space.base + w.elder.space.base);
    }
  }

  /** Without garbage, what is in use is what is alive. */
  lemma InUseIsAlive(w: World)
    requires NoGarbage(w)
    ensures |LiveCells(MajorJob(w))| == |w.elder.objects|
  {
    hide Reachable;
    var j := MajorJob(w);
    IntervalSize(j.from.base, j.from.base + |j.objects|);
    assert LiveCells(j) == Interval(j.from.base, j.from.base + |j.objects|);
  }

  /** Collecting an old generation without garbage frees nothing. */
  lemma NothingToFree(w: World, g: Moves, m: Memory, copies: Layout, free: int)
    requires NoGarbage(w) && Complete(MajorJob(w), g, m, copies, free)
    ensures |copies| == |w.elder.objects|
  {
    hide Complete, NoGarbage, Reachable;
    MajorFreesTheGarbage(w, g, m, copies, free);
    InUseIsAlive(w);
    GarbageComplement(MajorJob(w));
  }
}
