/** A generation as a value, and why a copying collection is invisible to the client. */
module Generations {
  import opened Cells
  import opened Copying
  import opened Simulation

  /** The tospace of a region with the objects allocated in it. */
  datatype Gen = Gen(space: Space, objects: Layout) {
    predicate Allocated(a: int) {
      space.base <= a < space.base + |objects|
    }

    function BlockOf(a: int): Block
      requires Allocated(a)
    {
      objects[a - space.base]
    }

    function Free(): int {
      space.base + |objects|
    }

    ghost predicate Valid() {
      Tiled(objects) && |objects| <= space.len
    }
  }

  lemma EmptyGen(space: Space)
    ensures Gen(space, []).Valid()
  {
  }

  /** The recorded extent of the object at a is the extent of the client's object. */
  ghost predicate ExtentAt(gen: Gen, h: Heap, p: Place, a: int)
    requires gen.Allocated(a)
  {
    && p.id < |h.objs|
    && gen.BlockOf(a).lo == a - gen.space.base - p.off
    && gen.BlockOf(a).hi == gen.BlockOf(a).lo + |h.objs[p.id]|
  }

  ghost predicate Extents(gen: Gen, h: Heap, who: Places) {
    forall a :: gen.Allocated(a) ==> a in who && ExtentAt(gen, h, who[a], a)
  }

  /** No object starts with a forwarding capability. */
  ghost predicate HeadsClean(gen: Gen, m: Memory) {
    forall a :: gen.Allocated(a) && gen.BlockOf(a).lo == a - gen.space.base ==>
      0 <= a < |m| && !m[a].IsForwarding()
  }

  // ---------------------------------------------------------------- collections

  /** What a collection needs to know: the client's objects are the ones in the fromspace and the
      ones already in the tospace, and the slots include the roots and every cell of the tospace that
      leads into the fromspace. */
  ghost predicate Collectable(j: Job, h: Heap, who: Places, roots: Space) {
    && j.Valid()
    && Simulates(h, who, j.m0, roots)
    && (forall a :: a in who <==> j.Allocated(a) || j.to.base <= a < j.start)
    && Extents(Gen(j.from, j.objects), h, who)
    && Extents(Gen(j.to, j.kept), h, who)
    && HeadsClean(Gen(j.to, j.kept), j.m0)
    && (forall a :: roots.Contains(a) ==> a in j.slots)
    && (forall a :: j.to.base <= a < j.start && a !in j.slots && At(h, who[a]).Ref? ==>
          !j.from.Contains(j.m0[a].Base()))
  }

  /** The whole effect of a collection on surviving cells: copied ones move, the others stay. */
  ghost function Survivors(j: Job, g: Moves): Moves
    requires j.to.base <= j.start
  {
    Moves(g.dst + Shift(j.to.base, j.start - j.to.base, j.to.base),
          g.src + Shift(j.to.base, j.start - j.to.base, j.to.base))
  }

  lemma SurvivorCells(j: Job, g: Moves)
    requires j.to.base <= j.start
    ensures var s := Survivors(j, g);
            && (forall a :: a in s.dst <==> a in g.dst || j.to.base <= a < j.start)
            && (forall a :: a in s.dst ==> s.dst[a] == if j.to.base <= a < j.start then a else g.dst[a])
            && (forall a :: a in s.src <==> a in g.src || j.to.base <= a < j.start)
            && (forall a :: a in s.src ==> s.src[a] == if j.to.base <= a < j.start then a else g.src[a])
  {
  }

  /** A capability the client knows is a movable one if it leads into the fromspace. */
  lemma KnownIsMovable(j: Job, h: Heap, who: Places, roots: Space, v: Value, c: Cell)
    requires Collectable(j, h, who, roots) && v.Ref? && Represents(h, who, v, c)
    ensures if j.from.Contains(c.cap.base) then j.Movable(c) else j.to.base <= c.cap.base < j.start
  {
    hide Simulates, HeadsClean, Tiled;
  }

  lemma ForwardFollows(j: Job, g: Moves, h: Heap, who: Places, roots: Space, v: Value, c: Cell)
    requires Collectable(j, h, who, roots) && Represents(h, who, v, c) && Settled(j, g, c)
    requires forall x :: x in g.dst ==> j.Allocated(x)
    ensures Follows(Survivors(j, g), v, c, Forward(j, g, c))
  {
    hide Simulates, HeadsClean, Extents, Tiled, Survivors, Collectable;
    CollectableStart(j, h, who, roots);
    SurvivorCells(j, g);
    if v.Ref? {
      KnownIsMovable(j, h, who, roots, v, c);
    }
  }

  lemma CollectableStart(j: Job, h: Heap, who: Places, roots: Space)
    requires Collectable(j, h, who, roots)
    ensures j.to.base <= j.start <= j.to.End() && |j.objects| <= j.from.len && Apart(j.from, j.to)
  {
  }

  lemma KeptFollows(j: Job, g: Moves, h: Heap, who: Places, roots: Space, v: Value, c: Cell)
    requires Collectable(j, h, who, roots) && Represents(h, who, v, c)
    requires v.Ref? ==> !j.from.Contains(c.Base())
    ensures Follows(Survivors(j, g), v, c, c)
  {
    hide Simulates, HeadsClean, Extents, Tiled, Survivors, Collectable;
    CollectableStart(j, h, who, roots);
    SurvivorCells(j, g);
    if v.Ref? {
      KnownIsMovable(j, h, who, roots, v, c);
    }
  }

  /** A copied cell has followed. */
  lemma CopiedFollows(j: Job, g: Moves, h: Heap, who: Places, roots: Space, m: Memory, copies: Layout, free: int,
                      a: int)
    requires Collectable(j, h, who, roots) && Complete(j, g, m, copies, free) && a in g.dst
    ensures a in who && 0 <= a < |j.m0| && 0 <= g.dst[a] < |m|
    ensures Follows(Survivors(j, g), At(h, who[a]), j.m0[a], m[g.dst[a]])
  {
    hide Follows, Represents, Forward, Settled, Tiled, Extents, HeadsClean, Survivors, WholeObjects, CopiesRecorded,
      ForwardingExact, OnlyReachable, Job.Movable, Contiguous, Unique, RootsMatch;
    assert Processed(j, g, m, g.dst[a], j.m0[a]);
    ForwardFollows(j, g, h, who, roots, At(h, who[a]), j.m0[a]);
  }

  /** A cell that was in the tospace already has followed, as a slot or because it leads elsewhere. */
  lemma StayedFollows(j: Job, g: Moves, h: Heap, who: Places, roots: Space, m: Memory, copies: Layout, free: int,
                      a: int)
    requires Collectable(j, h, who, roots) && Complete(j, g, m, copies, free) && j.to.base <= a < j.start
    ensures a in who && 0 <= a < |j.m0| == |m| && Follows(Survivors(j, g), At(h, who[a]), j.m0[a], m[a])
  {
    hide Follows, Represents, Forward, Settled, Tiled, Extents, HeadsClean, Survivors, WholeObjects, CopiesRecorded,
      ForwardingExact, OnlyReachable, Job.Movable, Contiguous, Unique, RootsMatch;
    if a in j.slots {
      assert Processed(j, g, m, a, j.m0[a]);
      ForwardFollows(j, g, h, who, roots, At(h, who[a]), j.m0[a]);
    } else {
      KeptFollows(j, g, h, who, roots, At(h, who[a]), j.m0[a]);
    }
  }

  lemma RootFollows(j: Job, g: Moves, h: Heap, who: Places, roots: Space, m: Memory, copies: Layout, free: int, a: int)
    requires Collectable(j, h, who, roots) && Complete(j, g, m, copies, free) && roots.Contains(a)
    ensures |h.roots| == roots.len && 0 <= a < |j.m0| == |m|
    ensures Follows(Survivors(j, g), h.roots[a - roots.base], j.m0[a], m[a])
  {
    hide Follows, Represents, Forward, Settled, Tiled, Extents, HeadsClean, Survivors, WholeObjects, CopiesRecorded,
      ForwardingExact, OnlyReachable, Job.Movable, Contiguous, Unique, CellsMatch;
    assert Processed(j, g, m, a, j.m0[a]);
    ForwardFollows(j, g, h, who, roots, h.roots[a - roots.base], j.m0[a]);
  }

  lemma SurvivorsFollow(j: Job, g: Moves, h: Heap, who: Places, roots: Space, m: Memory, copies: Layout, free: int)
    requires Collectable(j, h, who, roots) && Complete(j, g, m, copies, free)
    ensures CellsFollow(h, who, Survivors(j, g), j.m0, m) && RootsFollow(h, Survivors(j, g), j.m0, m, roots)
  {
    hide Follows, Tiled, Extents, HeadsClean, Survivors, WholeObjects, CopiesRecorded, ForwardingExact, OnlyReachable,
      Contiguous, Unique, CellsMatch, SlotsDone, Scanned, OthersKept;
    SurvivorCells(j, g);
    var s := Survivors(j, g);
    forall a | a in s.dst
      ensures a in who && 0 <= a < |j.m0| && 0 <= s.dst[a] < |m| && Follows(s, At(h, who[a]), j.m0[a], m[s.dst[a]])
    {
      if j.to.base <= a < j.start {
        StayedFollows(j, g, h, who, roots, m, copies, free, a);
      } else {
        CopiedFollows(j, g, h, who, roots, m, copies, free, a);
      }
    }
    forall a | roots.Contains(a)
      ensures 0 <= a < |j.m0| && Follows(s, h.roots[a - roots.base], j.m0[a], m[a])
    {
      RootFollows(j, g, h, who, roots, m, copies, free, a);
    }
  }

  /** Cells of the same object are in the same generation, at the right distance. */
  lemma SameIdNear(h: Heap, who: Places, m: Memory, a: int, b: int)
    requires PlacesExist(h, who, m) && Contiguous(h, who) && Unique(who)
    requires a in who && b in who && who[a].id == who[b].id
    ensures b - a == who[b].off - who[a].off
  {
    hide PlacesExist, Unique, Contiguous;
    PlaceAt(h, who, m, b);
    var b' := a + (who[b].off - who[a].off);
    ContiguousAt(h, who, a, b');
    UniqueAt(who, b, b');
  }

  lemma PlaceAt(h: Heap, who: Places, m: Memory, a: int)
    requires PlacesExist(h, who, m) && a in who
    ensures 0 <= a < |m| && who[a].id < |h.objs| && who[a].off < |h.objs[who[a].id]|
  {
  }

  lemma UniqueAt(who: Places, a: int, b: int)
    requires Unique(who) && a in who && b in who && who[a] == who[b]
    ensures a == b
  {
  }

  lemma SurvivorsWhole(j: Job, g: Moves, h: Heap, who: Places, roots: Space, a: int, b: int)
    requires Collectable(j, h, who, roots) && WholeObjects(j, g)
    requires forall x :: x in g.dst ==> j.Allocated(x)
    requires a in Survivors(j, g).dst && b in who && who[a].id == who[b].id
    ensures var s := Survivors(j, g);
            b in s.dst && s.dst[b] - s.dst[a] == who[b].off - who[a].off
  {
    hide Job.Valid, Tiled, HeadsClean, Extents, Survivors, Contiguous, Unique, CellsMatch, RootsMatch, WholeObjects,
      PlacesExist;
    CollectableStart(j, h, who, roots);
    SurvivorCells(j, g);
    SameIdNear(h, who, j.m0, a, b);
    PlaceAt(h, who, j.m0, b);
    if j.to.base <= a < j.start {
      NearIsKept(j, h, who, roots, a, b);
    } else {
      NearIsSame(j, h, who, roots, a, b);
      WholeAt(j, g, a, b);
    }
  }

  lemma SurvivorsInverse(j: Job, g: Moves, free: int)
    requires j.Valid() && Bijection(j, g, free)
    ensures var s := Survivors(j, g);
            && (forall a :: a in s.dst ==> s.dst[a] in s.src && s.src[s.dst[a]] == a)
            && (forall b :: b in s.src ==> 0 <= b < |j.m0| && s.src[b] in s.dst && s.dst[s.src[b]] == b)
  {
    hide Tiled, Survivors, Job.Valid, Bijection;
    JobBounds(j);
    BijectionBounds(j, g, free);
    SurvivorCells(j, g);
    var s := Survivors(j, g);
    forall a | a in s.dst
      ensures s.dst[a] in s.src && s.src[s.dst[a]] == a
    {
      if !(j.to.base <= a < j.start) {
        BijectionAt(j, g, free, a);
      }
    }
    forall b | b in s.src
      ensures 0 <= b < |j.m0| && s.src[b] in s.dst && s.dst[s.src[b]] == b
    {
      if !(j.to.base <= b < j.start) {
        BijectionFrom(j, g, free, b);
      }
    }
  }

  lemma JobBounds(j: Job)
    requires j.Valid()
    ensures 0 <= j.to.base <= j.to.base + |j.kept| == j.start <= j.to.End() <= |j.m0| &&
              j.start + |j.objects| <= j.to.End()
    ensures |j.objects| <= j.from.len && Apart(j.from, j.to)
  {
  }

  lemma BijectionBounds(j: Job, g: Moves, free: int)
    requires j.Valid() && Bijection(j, g, free)
    ensures forall x :: x in g.dst ==> j.Allocated(x)
    ensures j.start <= free <= j.to.End()
  {
    forall x | x in g.dst ensures x in Interval(j.from.base, j.from.base + |j.objects|) {
    }
    IntervalSize(j.from.base, j.from.base + |j.objects|);
    SubsetSize(g.dst.Keys, Interval(j.from.base, j.from.base + |j.objects|));
    assert |g.dst.Keys| == |g.dst|;
  }

  lemma SubsetSize(s: set<int>, t: set<int>)
    requires s <= t
    ensures |s| <= |t|
  {
    assert t == s + (t - s);
  }

  lemma BijectionAt(j: Job, g: Moves, free: int, a: int)
    requires Bijection(j, g, free) && a in g.dst
    ensures g.dst[a] in g.src && g.src[g.dst[a]] == a && j.start <= g.dst[a] < free
  {
  }

  lemma BijectionFrom(j: Job, g: Moves, free: int, b: int)
    requires Bijection(j, g, free) && b in g.src
    ensures g.src[b] in g.dst && g.dst[g.src[b]] == b && j.start <= b < free && j.Allocated(g.src[b])
  {
  }

  lemma SurvivorsRelocate(j: Job, g: Moves, h: Heap, who: Places, roots: Space, m: Memory, copies: Layout, free: int)
    requires Collectable(j, h, who, roots) && Complete(j, g, m, copies, free)
    ensures Relocation(h, who, Survivors(j, g), m)
  {
    hide Tiled, HeadsClean, Survivors, CopiesRecorded, ForwardingExact, OnlyReachable, Scanned, SlotsDone,
      OthersKept, Simulates, WholeObjects, Extents, Bijection, Job.Valid;
    JobBounds(j);
    BijectionBounds(j, g, free);
    SurvivorCells(j, g);
    SurvivorsInverse(j, g, free);
    var s := Survivors(j, g);
    forall a, b | a in s.dst && b in who && who[a].id == who[b].id
      ensures b in s.dst && s.dst[b] - s.dst[a] == who[b].off - who[a].off
    {
      SurvivorsWhole(j, g, h, who, roots, a, b);
    }
  }

  lemma WholeAt(j: Job, g: Moves, x: int, y: int)
    requires WholeObjects(j, g) && x in g.dst && j.SameObject(x, y)
    ensures y in g.dst && g.dst[y] - g.dst[x] == y - x
  {
  }

  lemma NearIsSame(j: Job, h: Heap, who: Places, roots: Space, a: int, b: int)
    requires Collectable(j, h, who, roots) && j.Allocated(a) && b in who && who[b].id == who[a].id
    requires b - a == who[b].off - who[a].off && who[a].id < |h.objs| && who[b].off < |h.objs[who[a].id]|
    ensures j.SameObject(a, b) && !(j.to.base <= b < j.start)
  {
    hide HeadsClean, Simulates;
  }

  lemma NearIsKept(j: Job, h: Heap, who: Places, roots: Space, a: int, b: int)
    requires Collectable(j, h, who, roots) && j.to.base <= a < j.start && b in who && who[b].id == who[a].id
    requires b - a == who[b].off - who[a].off && who[a].id < |h.objs| && who[b].off < |h.objs[who[a].id]|
    ensures j.to.base <= b < j.start
  {
    hide HeadsClean, Simulates, Tiled;
    assert Gen(j.to, j.kept).Allocated(a);
  }

  lemma ExtentOf(gen: Gen, h: Heap, who: Places, a: int)
    requires Extents(gen, h, who) && gen.Allocated(a)
    ensures a in who && ExtentAt(gen, h, who[a], a)
  {
  }

  /** The objects of the tospace keep the extents the client gave them. */
  lemma CopiesExtents(j: Job, g: Moves, h: Heap, who: Places, roots: Space, m: Memory, copies: Layout, free: int)
    requires Collectable(j, h, who, roots) && Complete(j, g, m, copies, free)
    ensures Extents(Gen(j.to, copies), h, Moved(who, Survivors(j, g)))
  {
    hide Tiled, HeadsClean, Survivors, ForwardingExact, OnlyReachable, Running, Simulates, WholeObjects,
      Bijection, Job.Valid;
    JobBounds(j);
    SurvivorCells(j, g);
    var who' := Moved(who, Survivors(j, g));
    var gen := Gen(j.to, copies);
    forall a | gen.Allocated(a)
      ensures a in who' && ExtentAt(gen, h, who'[a], a)
    {
      if j.to.base <= a < j.start {
        ExtentOf(Gen(j.to, j.kept), h, who, a);
      } else {
        assert a in g.src by { SourceOfCopy(j, g, free, a); }
        BijectionFrom(j, g, free, a);
        ExtentOf(Gen(j.from, j.objects), h, who, g.src[a]);
      }
    }
  }

  lemma SourceOfCopy(j: Job, g: Moves, free: int, a: int)
    requires Bijection(j, g, free) && j.start <= a < free
    ensures a in g.src
  {
  }

  /** No copy starts with a forwarding capability. */
  lemma CopiesHeadsClean(j: Job, g: Moves, h: Heap, who: Places, roots: Space, m: Memory, copies: Layout, free: int)
    requires Collectable(j, h, who, roots) && Complete(j, g, m, copies, free)
    ensures HeadsClean(Gen(j.to, copies), m)
  {
    hide Tiled, Extents, ForwardingExact, OnlyReachable, Simulates, WholeObjects;
    var gen := Gen(j.to, copies);
    forall a | gen.Allocated(a) && gen.BlockOf(a).lo == a - gen.space.base
      ensures 0 <= a < |m| && !m[a].IsForwarding()
    {
      if j.to.base <= a < j.start {
        assert Gen(j.to, j.kept).Allocated(a);
        assert Gen(j.to, j.kept).BlockOf(a) == gen.BlockOf(a);
        if a in j.slots {
          assert Processed(j, g, m, a, j.m0[a]);
        }
      } else {
        assert SameExtent(j, copies, a, g.src[a]);
        assert Processed(j, g, m, a, j.m0[g.src[a]]);
      }
    }
  }

  /** A complete copying collection is invisible to the client, and the tospace then holds exactly the
      objects that have survived. */
  lemma CollectionSimulates(j: Job, g: Moves, h: Heap, who: Places, roots: Space, m: Memory, copies: Layout, free: int)
    requires Collectable(j, h, who, roots) && Complete(j, g, m, copies, free)
    ensures var who' := Moved(who, Survivors(j, g));
            && Simulates(h, who', m, roots)
            && (forall a :: a in who' <==> j.to.base <= a < free)
            && Extents(Gen(j.to, copies), h, who')
            && HeadsClean(Gen(j.to, copies), m)
  {
    hide Tiled, HeadsClean, Extents, Survivors, ForwardingExact, OnlyReachable, Running, Simulates, WholeObjects,
      Relocation, CellsFollow, RootsFollow, CopiesRecorded;
    SurvivorCells(j, g);
    SurvivorsRelocate(j, g, h, who, roots, m, copies, free);
    SurvivorsFollow(j, g, h, who, roots, m, copies, free);
    RelocationSimulates(h, who, j.m0, roots, Survivors(j, g), m);
    CopiesExtents(j, g, h, who, roots, m, copies, free);
    CopiesHeadsClean(j, g, h, who, roots, m, copies, free);
  }
}
