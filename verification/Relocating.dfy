/** Why moving a grown region and shifting the capabilities into it is invisible to the client
    (GC_region_rebase and GC_rebase, src/gc_collect.c:669-851). */
module Relocating {
  import opened Cells
  import opened Copying
  import opened Simulation
  import opened Generations
  import opened Worlds

  /** What GC_rebase makes of a cell: a capability whose base lies in the old block, its upper edge
      included, is shifted to the new block. */
  function Rebased(c: Cell, oldBase: int, oldSize: nat, newBase: int): Cell {
    if c.Tagged? && oldBase <= c.cap.base <= oldBase + oldSize
    then Tagged(c.cap.(base := c.cap.base - oldBase + newBase))
    else c
  }

  /** The move of one generation to newBase; the cells of the other one stay. */
  ghost function Slide(moved: Gen, newBase: int, other: Gen): Moves {
    Moves(Shift(moved.space.base, |moved.objects|, newBase) +
            Shift(other.space.base, |other.objects|, other.space.base),
          Shift(newBase, |moved.objects|, moved.space.base) +
            Shift(other.space.base, |other.objects|, other.space.base))
  }

  /** The blocks involved in a move do not overlap; the slack cell belongs to the block. */
  ghost predicate MoveFits(moved: Gen, newBase: int, other: Gen, m': Memory) {
    && Apart(Padded(moved.space), Padded(other.space))
    && Apart(Space(newBase, moved.space.len), Padded(other.space))
    && |moved.objects| <= moved.space.len && |other.objects| <= other.space.len
    && Within(Space(newBase, moved.space.len), m') && Within(other.space, m')
  }

  lemma SlideCells(moved: Gen, newBase: int, other: Gen, m': Memory)
    requires MoveFits(moved, newBase, other, m')
    ensures var s := Slide(moved, newBase, other);
            && (forall a :: a in s.dst <==> moved.Allocated(a) || other.Allocated(a))
            && (forall a :: a in s.dst ==> s.dst[a] == if moved.Allocated(a) then a - moved.space.base + newBase else a)
            && (forall b :: b in s.src <==> newBase <= b < newBase + |moved.objects| || other.Allocated(b))
            && (forall b :: b in s.src ==> s.src[b] == if other.Allocated(b) then b else b - newBase + moved.space.base)
  {
  }

  /** The state before a move: everything is in the two generations. */
  ghost predicate Divided(moved: Gen, other: Gen, h: Heap, who: Places, m: Memory, roots: Space) {
    && Simulates(h, who, m, roots)
    && (forall a :: a in who <==> moved.Allocated(a) || other.Allocated(a))
    && Extents(moved, h, who) && Extents(other, h, who)
    && moved.Valid() && other.Valid()
  }

  /** The effect of a move on memory.  A cell of the other generation may be left alone if the client
      has no capability into the moved generation there. */
  ghost predicate MovedMemory(moved: Gen, newBase: int, other: Gen, h: Heap, who: Places, m: Memory, m': Memory,
                              roots: Space)
    requires Divided(moved, other, h, who, m, roots) && MoveFits(moved, newBase, other, m')
  {
    && Within(roots, m) && Within(roots, m')
    && (forall a :: roots.Contains(a) ==> m'[a] == Rebased(m[a], moved.space.base, moved.space.len, newBase))
    && (forall a :: moved.Allocated(a) ==>
          0 <= a < |m| && m'[a - moved.space.base + newBase] ==
              Rebased(m[a], moved.space.base, moved.space.len, newBase))
    && (forall a :: other.Allocated(a) ==>
          && 0 <= a < |m|
          && (|| m'[a] == Rebased(m[a], moved.space.base, moved.space.len, newBase)
              || (m'[a] == m[a] && (At(h, who[a]).Ref? ==> !moved.Allocated(m[a].Base())))))
  }

  lemma RebasedFollows(moved: Gen, newBase: int, other: Gen, h: Heap, who: Places, m: Memory, m': Memory, roots: Space,
                       v: Value, c: Cell)
    requires Divided(moved, other, h, who, m, roots) && MoveFits(moved, newBase, other, m')
    requires Represents(h, who, v, c)
    ensures Follows(Slide(moved, newBase, other), v, c, Rebased(c, moved.space.base, moved.space.len, newBase))
    ensures v.Ref? && !moved.Allocated(c.Base()) ==> Follows(Slide(moved, newBase, other), v, c, c)
  {
    hide Simulates, Extents, Slide;
    SlideCells(moved, newBase, other, m');
  }

  lemma MoveFollows(moved: Gen, newBase: int, other: Gen, h: Heap, who: Places, m: Memory, m': Memory, roots: Space)
    requires Divided(moved, other, h, who, m, roots) && MoveFits(moved, newBase, other, m')
    requires MovedMemory(moved, newBase, other, h, who, m, m', roots)
    ensures CellsFollow(h, who, Slide(moved, newBase, other), m, m')
    ensures RootsFollow(h, Slide(moved, newBase, other), m, m', roots)
  {
    hide Extents, Slide, Follows, Represents, Rebased, PlacesExist, Contiguous, Unique;
    SlideCells(moved, newBase, other, m');
    var s := Slide(moved, newBase, other);
    forall a | a in s.dst
      ensures a in who && 0 <= a < |m| && 0 <= s.dst[a] < |m'| && Follows(s, At(h, who[a]), m[a], m'[s.dst[a]])
    {
      RebasedFollows(moved, newBase, other, h, who, m, m', roots, At(h, who[a]), m[a]);
      if !At(h, who[a]).Ref? {
        SameFollows(s, At(h, who[a]), m[a]);
      }
    }
    forall a | roots.Contains(a)
      ensures Follows(s, h.roots[a - roots.base], m[a], m'[a])
    {
      RebasedFollows(moved, newBase, other, h, who, m, m', roots, h.roots[a - roots.base], m[a]);
    }
  }

  lemma SameFollows(g: Moves, v: Value, c: Cell)
    requires !v.Ref?
    ensures Follows(g, v, c, c)
  {
  }

  lemma MoveRelocates(moved: Gen, newBase: int, other: Gen, h: Heap, who: Places, m: Memory, m': Memory, roots: Space)
    requires Divided(moved, other, h, who, m, roots) && MoveFits(moved, newBase, other, m')
    ensures Relocation(h, who, Slide(moved, newBase, other), m')
  {
    hide Extents, Slide, Follows, Represents, Rebased, PlacesExist, Contiguous, Unique, CellsMatch, RootsMatch, Tiled;
    SlideCells(moved, newBase, other, m');
    var s := Slide(moved, newBase, other);
    forall a, b | a in s.dst && b in who && who[a].id == who[b].id
      ensures b in s.dst && s.dst[b] - s.dst[a] == who[b].off - who[a].off
    {
      SameIdNear(h, who, m, a, b);
      PlaceAt(h, who, m, b);
      if moved.Allocated(a) {
        SameGeneration(moved, h, who, a, b);
      } else {
        SameGeneration(other, h, who, a, b);
      }
    }
  }

  lemma SameGeneration(gen: Gen, h: Heap, who: Places, a: int, b: int)
    requires Extents(gen, h, who) && gen.Valid() && gen.Allocated(a) && b in who && who[a].id == who[b].id
    requires b - a == who[b].off - who[a].off && who[a].id < |h.objs| && who[b].off < |h.objs[who[a].id]|
    ensures gen.Allocated(b)
  {
  }

  /** Moving a generation and rebasing every capability into it is invisible to the client. */
  lemma MoveSimulates(moved: Gen, newBase: int, other: Gen, h: Heap, who: Places, m: Memory, m': Memory, roots: Space,
                      space: Space)
    requires space.base == newBase && space.len >= moved.space.len
    requires Divided(moved, other, h, who, m, roots) && MoveFits(moved, newBase, other, m')
    requires MovedMemory(moved, newBase, other, h, who, m, m', roots)
    ensures var who' := Moved(who, Slide(moved, newBase, other));
            && Divided(Gen(space, moved.objects), other, h, who', m', roots)
  {
    hide Extents, Slide, Simulates, CellsFollow, RootsFollow, Relocation, MovedMemory, Tiled;
    SlideCells(moved, newBase, other, m');
    MoveFollows(moved, newBase, other, h, who, m, m', roots);
    MoveRelocates(moved, newBase, other, h, who, m, m', roots);
    RelocationSimulates(h, who, m, roots, Slide(moved, newBase, other), m');
    MovedExtents(moved, newBase, other, h, who, m', space);
  }

  lemma MovedExtents(moved: Gen, newBase: int, other: Gen, h: Heap, who: Places, m': Memory, space: Space)
    requires MoveFits(moved, newBase, other, m') && space.base == newBase
    requires Extents(moved, h, who) && Extents(other, h, who)
    ensures var who' := Moved(who, Slide(moved, newBase, other));
            Extents(Gen(space, moved.objects), h, who') && Extents(other, h, who')
  {
    hide Slide;
    SlideCells(moved, newBase, other, m');
    var who' := Moved(who, Slide(moved, newBase, other));
    var gen := Gen(space, moved.objects);
    forall b | gen.Allocated(b)
      ensures b in who' && ExtentAt(gen, h, who'[b], b)
    {
      ExtentOf(moved, h, who, b - newBase + moved.space.base);
    }
  }

  // ---------------------------------------------------------------- growing a region

  /** A new block for a semispace: larger, inside memory and apart from every block in use. */
  ghost predicate FreshBlock(w: World, s: Space, m': Memory) {
    && s.base > 0 && Within(Padded(s), m') && |w.m| <= |m'|
    && Apart(Padded(s), w.roots) && Apart(Padded(s), Padded(w.young.space))
    && Apart(Padded(s), Padded(w.elder.space))
  }

  /** Memory after GC_grow has moved generation `moved` and rebased the roots, the new tospace and the
      remembered slots. */
  ghost predicate GrownMemory(w: World, moved: Gen, newBase: int, m': Memory) {
    && |w.m| <= |m'| && 0 <= newBase && newBase + moved.space.len <= |m'|
    && Within(moved.space, w.m) && Within(w.roots, w.m)
    && (forall a :: w.roots.Contains(a) || a in w.remembered ==>
          0 <= a < |w.m| && m'[a] == Rebased(w.m[a], moved.space.base, moved.space.len, newBase))
    && (forall a :: moved.Allocated(a) && moved.space.Contains(a) ==>
          m'[a - moved.space.base + newBase] == Rebased(w.m[a], moved.space.base, moved.space.len, newBase))
  }

  lemma RebasedKeepsForwarding(c: Cell, oldBase: int, oldSize: nat, newBase: int)
    ensures Rebased(c, oldBase, oldSize, newBase).IsForwarding() == c.IsForwarding()
  {
  }

  lemma MovedHeadsClean(w: World, moved: Gen, space: Space, m': Memory)
    requires moved.Valid() && HeadsClean(moved, w.m) && GrownMemory(w, moved, space.base, m')
    ensures HeadsClean(Gen(space, moved.objects), m')
  {
    hide Rebased, Tiled;
    var gen := Gen(space, moved.objects);
    forall a | gen.Allocated(a) && gen.BlockOf(a).lo == a - gen.space.base
      ensures 0 <= a < |m'| && !m'[a].IsForwarding()
    {
      var x := a - space.base + moved.space.base;
      assert moved.Allocated(x) && moved.BlockOf(x).lo == x - moved.space.base;
      RebasedKeepsForwarding(w.m[x], moved.space.base, moved.space.len, space.base);
    }
  }

  ghost function AfterYoungGrowth(w: World, space: Space, m': Memory): World {
    World(m', w.roots, Gen(space, w.young.objects), w.elder, w.spare, w.remembered,
          Moved(w.who, Slide(w.young, space.base, w.elder)), w.heap)
  }

  lemma YoungGrowthMoves(w: World, space: Space, m': Memory)
    requires Inv(w) && space.len >= w.young.space.len && FreshBlock(w, space, m') &&
              Apart(Padded(space), Padded(w.spare))
    requires GrownMemory(w, w.young, space.base, m')
    requires forall a :: w.elder.Allocated(a) && a !in w.remembered ==> 0 <= a < |w.m| && m'[a] == w.m[a]
    ensures Divided(w.young, w.elder, w.heap, w.who, w.m, w.roots)
    ensures MoveFits(w.young, space.base, w.elder, m')
    ensures MovedMemory(w.young, space.base, w.elder, w.heap, w.who, w.m, m', w.roots)
  {
    hide Simulates, Tiled, Rebased, HeadsClean, ExtentAt;
    forall a | w.elder.Allocated(a) && a !in w.remembered && At(w.heap, w.who[a]).Ref?
      ensures !w.young.Allocated(w.m[a].Base())
    {
      KnownTarget(w.heap, w.who, w.m, w.roots, a);
      assert !OldToYoung(w, a);
    }
  }

  lemma YoungGrowthGeometry(w: World, space: Space, m': Memory)
    requires Geometry(w) && space.len >= w.young.space.len && FreshBlock(w, space, m')
    requires Apart(Padded(space), Padded(w.spare))
    ensures Geometry(AfterYoungGrowth(w, space, m'))
  {
    hide Tiled;
  }

  /** Growing the young region into a new block keeps the invariant and is invisible to the client. */
  lemma YoungGrowthKeepsInv(w: World, space: Space, m': Memory)
    requires Inv(w) && space.len >= w.young.space.len && FreshBlock(w, space, m') &&
              Apart(Padded(space), Padded(w.spare))
    requires GrownMemory(w, w.young, space.base, m')
    requires forall a :: w.elder.Allocated(a) && a !in w.remembered ==> 0 <= a < |w.m| && m'[a] == w.m[a]
    ensures Inv(AfterYoungGrowth(w, space, m'))
  {
    hide Simulates, Tiled, Rebased, HeadsClean, ExtentAt, Geometry, Slide, Moved, FreshBlock, GrownMemory, MoveFits,
      MovedMemory, Extents, Remembers;
    YoungGrowthMoves(w, space, m');
    YoungGrowthGeometry(w, space, m');
    SlideCells(w.young, space.base, w.elder, m');
    MoveSimulates(w.young, space.base, w.elder, w.heap, w.who, w.m, m', w.roots, space);
    MovedHeadsClean(w, w.young, space, m');
    StillHeadsClean(w, space, m');
    OtherStays(w.young, space.base, w.elder, w.who, m');
    StillRemembers(w, space, m');
  }

  lemma StillHeadsClean(w: World, space: Space, m': Memory)
    requires Geometry(w) && HeadsClean(w.elder, w.m) && GrownMemory(w, w.young, space.base, m')
    requires forall a :: w.elder.Allocated(a) && a !in w.remembered ==> 0 <= a < |w.m| && m'[a] == w.m[a]
    ensures HeadsClean(w.elder, m')
  {
    hide Rebased, Tiled;
    forall a | w.elder.Allocated(a) && w.elder.BlockOf(a).lo == a - w.elder.space.base
      ensures 0 <= a < |m'| && !m'[a].IsForwarding()
    {
      RebasedKeepsForwarding(w.m[a], w.young.space.base, w.young.space.len, space.base);
    }
  }

  lemma StillRemembers(w: World, space: Space, m': Memory)
    requires Inv(w) && FreshBlock(w, space, m') && space.len >= w.young.space.len
    requires forall a :: w.elder.Allocated(a) && a !in w.remembered ==> 0 <= a < |w.m| && m'[a] == w.m[a]
    requires var w' := AfterYoungGrowth(w, space, m');
             (forall a :: w.elder.Allocated(a) ==> a in w'.who && w'.who[a] == w.who[a])
    ensures Remembers(AfterYoungGrowth(w, space, m'))
  {
    hide Simulates, Tiled, HeadsClean, ExtentAt, Slide, Moved;
    var w' := AfterYoungGrowth(w, space, m');
    forall a | w.elder.Allocated(a) && a !in w.remembered
      ensures !OldToYoung(w', a)
    {
      assert w'.who[a] == w.who[a];
      if At(w.heap, w.who[a]).Ref? {
        KnownTarget(w.heap, w.who, w.m, w.roots, a);
        assert !OldToYoung(w, a);
      }
    }
  }

  lemma OtherStays(moved: Gen, newBase: int, other: Gen, who: Places, m': Memory)
    requires MoveFits(moved, newBase, other, m') && forall a :: other.Allocated(a) ==> a in who
    ensures var who' := Moved(who, Slide(moved, newBase, other));
            forall a :: other.Allocated(a) ==> a in who' && who'[a] == who[a]
  {
    hide Slide;
    SlideCells(moved, newBase, other, m');
  }

  ghost function AfterOldGrowth(w: World, space: Space, spare: Space, m': Memory): World {
    World(m', w.roots, w.young, Gen(space, w.elder.objects), spare, {},
          Moved(w.who, Slide(w.elder, space.base, w.young)), w.heap)
  }

  lemma OldGrowthMoves(w: World, space: Space, m': Memory)
    requires Inv(w) && w.young.objects == [] && space.len >= w.elder.space.len && FreshBlock(w, space, m')
    requires GrownMemory(w, w.elder, space.base, m')
    ensures Divided(w.elder, w.young, w.heap, w.who, w.m, w.roots)
    ensures MoveFits(w.elder, space.base, w.young, m')
    ensures MovedMemory(w.elder, space.base, w.young, w.heap, w.who, w.m, m', w.roots)
  {
    hide Simulates, Tiled, Rebased, HeadsClean, ExtentAt, Remembers;
  }

  lemma OldGrowthGeometry(w: World, space: Space, spare: Space, m': Memory)
    requires Geometry(w) && space.len >= w.elder.space.len && FreshBlock(w, space, m')
    requires spare.len == space.len && FreshBlock(w, spare, m') && Apart(Padded(space), Padded(spare))
    ensures Geometry(AfterOldGrowth(w, space, spare, m'))
  {
    hide Tiled;
  }

  /** Growing the old region keeps the invariant and is invisible to the client, provided nothing is
      young or remembered. */
  lemma OldGrowthKeepsInv(w: World, space: Space, spare: Space, m': Memory)
    requires Inv(w) && w.young.objects == [] && w.remembered == {}
    requires space.len >= w.elder.space.len && FreshBlock(w, space, m')
    requires spare.len == space.len && FreshBlock(w, spare, m') && Apart(Padded(space), Padded(spare))
    requires GrownMemory(w, w.elder, space.base, m')
    ensures Inv(AfterOldGrowth(w, space, spare, m'))
  {
    hide Simulates, Tiled, Rebased, HeadsClean, ExtentAt, Geometry, Slide, Moved, FreshBlock, GrownMemory, MoveFits,
      MovedMemory, Extents, Remembers;
    OldGrowthMoves(w, space, m');
    OldGrowthGeometry(w, space, spare, m');
    SlideCells(w.elder, space.base, w.young, m');
    MoveSimulates(w.elder, space.base, w.young, w.heap, w.who, w.m, m', w.roots, space);
    MovedHeadsClean(w, w.elder, space, m');
    NothingYoungHeads(AfterOldGrowth(w, space, spare, m'));
    AllOld(AfterOldGrowth(w, space, spare, m'));
  }
}
