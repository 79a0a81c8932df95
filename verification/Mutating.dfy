/** Why allocation and the client's stores keep the invariant. */
module Mutating {
  import opened Cells
  import opened Copying
  import opened Simulation
  import opened Generations
  import opened Worlds

  // ---------------------------------------------------------------- allocation

  function Fresh(n: nat): seq<Value> {
    seq(n, _ => Unknown)
  }

  /** The client's heap with a new object of n cells. */
  function WithObject(h: Heap, n: nat): Heap {
    Heap(h.objs + [Fresh(n)], h.roots)
  }

  /** The places with the cells of a new object at address a. */
  ghost function WithPlaces(who: Places, id: nat, a: int, n: nat): Places {
    who + map x {:trigger Between(a, x, a + n)} | a <= x < a + n && Between(a, x, a + n) :: Place(id, x - a)
  }

  lemma WithPlacesAt(who: Places, id: nat, a: int, n: nat)
    ensures var who' := WithPlaces(who, id, a, n);
            && (forall x :: x in who' <==> x in who || a <= x < a + n)
            && (forall x :: x in who' ==> who'[x] == if a <= x < a + n then Place(id, x - a) else who[x])
  {
  }

  /** n cells at the free end of the young generation become an object; its first cell is cleared. */
  ghost function AfterAlloc(w: World, n: nat, c: Cell): World
    requires 0 <= w.young.Free() < |w.m|
  {
    w.(m := w.m[w.young.Free() := c],
       young := Gen(w.young.space, Append(w.young.objects, n)),
       who := WithPlaces(w.who, |w.heap.objs|, w.young.Free(), n),
       heap := WithObject(w.heap, n))
  }

  lemma AllocBounds(w: World, n: nat)
    requires Geometry(w) && Owned(w) && n > 0 && w.young.Free() + n <= w.young.space.End()
    ensures 0 <= w.young.space.base <= w.young.Free() < |w.m|
    ensures forall x :: w.young.Free() <= x < w.young.Free() + n ==>
              x !in w.who && 0 <= x < |w.m| && !w.roots.Contains(x) && !w.elder.Allocated(x)
  {
    hide Tiled, Extents;
  }

  lemma RepresentsStays(h: Heap, who: Places, h': Heap, who': Places, v: Value, c: Cell)
    requires Represents(h, who, v, c)
    requires |h.objs| <= |h'.objs| && forall i :: 0 <= i < |h.objs| ==> |h'.objs[i]| == |h.objs[i]|
    requires forall x :: x in who ==> x in who' && who'[x] == who[x]
    ensures Represents(h', who', v, c)
  {
  }

  lemma AllocSimulates(w: World, n: nat, c: Cell)
    requires Inv(w) && n > 0 && w.young.Free() + n <= w.young.space.End()
    requires 0 <= w.young.Free() < |w.m|
    ensures var w' := AfterAlloc(w, n, c); Simulates(w'.heap, w'.who, w'.m, w'.roots)
  {
    hide Represents, Contiguous, Unique, HeadsClean, Remembers, Geometry, Owned, WithPlaces;
    AllocBounds(w, n);
    var w' := AfterAlloc(w, n, c);
    var id, a := |w.heap.objs|, w.young.Free();
    WithPlacesAt(w.who, id, a, n);
    AllocContiguous(w, n);
    AllocUnique(w, n);
    forall x | x in w'.who
      ensures 0 <= x < |w'.m| && Represents(w'.heap, w'.who, At(w'.heap, w'.who[x]), w'.m[x])
    {
      if a <= x < a + n {
        assert x !in w.who;
        UnknownRepresents(w'.heap, w'.who, w'.m[x]);
      } else {
        RepresentsStays(w.heap, w.who, w'.heap, w'.who, At(w.heap, w.who[x]), w.m[x]);
      }
    }
    forall x | w.roots.Contains(x)
      ensures Represents(w'.heap, w'.who, w'.heap.roots[x - w.roots.base], w'.m[x])
    {
      RepresentsStays(w.heap, w.who, w'.heap, w'.who, w.heap.roots[x - w.roots.base], w.m[x]);
    }
  }

  lemma UnknownRepresents(h: Heap, who: Places, c: Cell)
    ensures Represents(h, who, Unknown, c)
  {
  }

  lemma AllocContiguous(w: World, n: nat)
    requires PlacesExist(w.heap, w.who, w.m) && Contiguous(w.heap, w.who)
    requires forall x :: w.young.Free() <= x < w.young.Free() + n ==> x !in w.who
    ensures Contiguous(WithObject(w.heap, n), WithPlaces(w.who, |w.heap.objs|, w.young.Free(), n))
  {
    hide WithPlaces, Contiguous;
    var who' := WithPlaces(w.who, |w.heap.objs|, w.young.Free(), n);
    var h' := WithObject(w.heap, n);
    WithPlacesAt(w.who, |w.heap.objs|, w.young.Free(), n);
    forall a, b | a in who' && who'[a].id < |h'.objs| && 0 <= b - a + who'[a].off < |h'.objs[who'[a].id]|
      ensures b in who' && who'[b] == Place(who'[a].id, b - a + who'[a].off)
    {
      if a in w.who {
        ContiguousAt(w.heap, w.who, a, b);
      }
    }
    ContiguousIf(h', who');
  }

  lemma AllocUnique(w: World, n: nat)
    requires PlacesExist(w.heap, w.who, w.m) && Unique(w.who)
    ensures Unique(WithPlaces(w.who, |w.heap.objs|, w.young.Free(), n))
  {
    hide WithPlaces;
    WithPlacesAt(w.who, |w.heap.objs|, w.young.Free(), n);
  }

  lemma AllocExtents(w: World, n: nat, c: Cell)
    requires Geometry(w) && Owned(w) && n > 0 && w.young.Free() + n <= w.young.space.End()
    requires 0 <= w.young.Free() < |w.m|
    ensures Owned(AfterAlloc(w, n, c))
  {
    hide WithPlaces, Tiled;
    AllocBounds(w, n);
    WithPlacesAt(w.who, |w.heap.objs|, w.young.Free(), n);
    var w' := AfterAlloc(w, n, c);
    forall a | w'.young.Allocated(a)
      ensures a in w'.who && ExtentAt(w'.young, w'.heap, w'.who[a], a)
    {
      if w.young.Allocated(a) {
        ExtentOf(w.young, w.heap, w.who, a);
      }
    }
    forall a | w'.elder.Allocated(a)
      ensures a in w'.who && ExtentAt(w'.elder, w'.heap, w'.who[a], a)
    {
      ExtentOf(w.elder, w.heap, w.who, a);
    }
  }

  lemma AllocGeometry(w: World, n: nat, c: Cell)
    requires Geometry(w) && n > 0 && w.young.Free() + n <= w.young.space.End()
    requires 0 <= w.young.Free() < |w.m|
    ensures Geometry(AfterAlloc(w, n, c))
  {
    hide Tiled;
    AppendTiled(w.young.objects, n);
  }

  lemma AllocHeads(w: World, n: nat, c: Cell)
    requires Geometry(w) && Owned(w) && n > 0 && w.young.Free() + n <= w.young.space.End()
    requires 0 <= w.young.Free() < |w.m| && !c.Tagged?
    requires HeadsClean(w.young, w.m) && HeadsClean(w.elder, w.m)
    ensures var w' := AfterAlloc(w, n, c); HeadsClean(w'.young, w'.m) && HeadsClean(w'.elder, w'.m)
  {
    hide Tiled, Owned, WithPlaces;
    AllocBounds(w, n);
    var w' := AfterAlloc(w, n, c);
    forall a | w'.young.Allocated(a) && w'.young.BlockOf(a).lo == a - w'.young.space.base
      ensures 0 <= a < |w'.m| && !w'.m[a].IsForwarding()
    {
      if w.young.Allocated(a) {
        assert w'.young.BlockOf(a) == w.young.BlockOf(a);
      }
    }
  }

  lemma AllocRemembers(w: World, n: nat, c: Cell)
    requires Geometry(w) && Owned(w) && Remembers(w) && n > 0 && w.young.Free() + n <= w.young.space.End()
    requires 0 <= w.young.Free() < |w.m| && PlacesExist(w.heap, w.who, w.m)
    ensures Remembers(AfterAlloc(w, n, c))
  {
    hide Tiled, WithPlaces, Extents;
    AllocBounds(w, n);
    WithPlacesAt(w.who, |w.heap.objs|, w.young.Free(), n);
    var w' := AfterAlloc(w, n, c);
    forall a | OldToYoung(w', a)
      ensures a in w'.remembered
    {
      assert w'.who[a] == w.who[a] && At(w'.heap, w'.who[a]) == At(w.heap, w.who[a]);
      assert OldToYoung(w, a);
    }
  }

  /** Allocation keeps the invariant: the new object overlaps nothing the client has, and the client
      knows nothing about its contents. */
  lemma AllocKeepsInv(w: World, n: nat, c: Cell)
    requires Inv(w) && n > 0 && w.young.Free() + n <= w.young.space.End() && !c.Tagged?
    ensures 0 <= w.young.Free() < |w.m| && Inv(AfterAlloc(w, n, c))
  {
    hide Simulates, Geometry, Owned, HeadsClean, Remembers, AfterAlloc;
    AllocBounds(w, n);
    AllocSimulates(w, n, c);
    AllocExtents(w, n, c);
    AllocGeometry(w, n, c);
    AllocHeads(w, n, c);
    SimulatesPlaces(w);
    AllocRemembers(w, n, c);
  }

  lemma SimulatesPlaces(w: World)
    requires Simulates(w.heap, w.who, w.m, w.roots)
    ensures PlacesExist(w.heap, w.who, w.m) && Contiguous(w.heap, w.who) && Unique(w.who)
  {
  }

  /** Writing a cell that belongs to nothing. */
  lemma StrayCellKeepsInv(w: World, a: int, c: Cell)
    requires Inv(w) && 0 <= a < |w.m| && a !in w.who && !w.roots.Contains(a)
    ensures Inv(w.(m := w.m[a := c]))
  {
    hide Tiled, Represents, Contiguous, Unique;
    var w' := w.(m := w.m[a := c]);
    assert forall x :: OldToYoung(w', x) ==> OldToYoung(w, x);
  }

  /** The free end of the young generation, or its slack cell if it is full, belongs to nothing. */
  lemma FreeEndIsStray(w: World)
    requires Geometry(w) && Owned(w)
    ensures 0 <= w.young.Free() < |w.m| && w.young.Free() !in w.who && !w.roots.Contains(w.young.Free())
  {
    hide Tiled, Extents;
  }

  // ---------------------------------------------------------------- stores

  /** The client's heap after storing v in a cell of an object. */
  function WithCell(h: Heap, p: Place, v: Value): Heap
    requires p.id < |h.objs| && p.off < |h.objs[p.id]|
  {
    Heap(h.objs[p.id := h.objs[p.id][p.off := v]], h.roots)
  }

  function WithRoot(h: Heap, r: nat, v: Value): Heap
    requires r < |h.roots|
  {
    Heap(h.objs, h.roots[r := v])
  }

  /** Cell a has been overwritten, and `remembered` may have grown. */
  ghost function AfterStore(w: World, a: int, v: Value, c: Cell, remembered: set<int>): World
    requires a in w.who && 0 <= a < |w.m| && w.who[a].id < |w.heap.objs| && w.who[a].off < |w.heap.objs[w.who[a].id]|
  {
    w.(m := w.m[a := c], heap := WithCell(w.heap, w.who[a], v), remembered := remembered)
  }

  /** What the write barrier has to see to. */
  ghost predicate Barred(w: World, a: int, c: Cell, remembered: set<int>) {
    && w.remembered <= remembered <= w.remembered + {a}
    && (a in remembered ==> w.elder.Allocated(a))
    && (w.elder.Allocated(a) && c.Tagged? && w.young.space.Contains(c.cap.base) ==> a in remembered)
  }

  lemma StoreSimulates(w: World, a: int, v: Value, c: Cell)
    requires Simulates(w.heap, w.who, w.m, w.roots) && a in w.who && !w.roots.Contains(a)
    requires Represents(w.heap, w.who, v, c)
    requires 0 <= a < |w.m| && w.who[a].id < |w.heap.objs| && w.who[a].off < |w.heap.objs[w.who[a].id]|
    ensures Simulates(WithCell(w.heap, w.who[a], v), w.who, w.m[a := c], w.roots)
  {
    hide Represents, Contiguous, Unique;
    var h', m' := WithCell(w.heap, w.who[a], v), w.m[a := c];
    StoreShape(w, a, v);
    forall x | x in w.who
      ensures 0 <= x < |m'| && Represents(h', w.who, At(h', w.who[x]), m'[x])
    {
      if x == a {
        RepresentsStays(w.heap, w.who, h', w.who, v, c);
      } else {
        if w.who[x] == w.who[a] {
          UniqueAt(w.who, x, a);
        }
        RepresentsStays(w.heap, w.who, h', w.who, At(w.heap, w.who[x]), w.m[x]);
      }
    }
    forall x | w.roots.Contains(x)
      ensures Represents(h', w.who, h'.roots[x - w.roots.base], m'[x])
    {
      RepresentsStays(w.heap, w.who, h', w.who, w.heap.roots[x - w.roots.base], w.m[x]);
    }
  }

  lemma StoreShape(w: World, a: int, v: Value)
    requires Contiguous(w.heap, w.who) && a in w.who
    requires w.who[a].id < |w.heap.objs| && w.who[a].off < |w.heap.objs[w.who[a].id]|
    ensures Contiguous(WithCell(w.heap, w.who[a], v), w.who)
  {
  }

  lemma StoreBounds(w: World, a: int)
    requires Coherent(w) && a in w.who
    ensures 0 <= a < |w.m| && w.who[a].id < |w.heap.objs| && w.who[a].off < |w.heap.objs[w.who[a].id]|
    ensures !w.roots.Contains(a) && (w.young.Allocated(a) || w.elder.Allocated(a))
  {
    hide Extents, HeadsClean, Remembers, Contiguous, Unique, CellsMatch, RootsMatch, Tiled;
  }

  /** A store that passes the barrier keeps memory in accord with the client's heap. */
  lemma StoreKeepsCoherent(w: World, a: int, v: Value, c: Cell, remembered: set<int>)
    requires Coherent(w) && a in w.who && Represents(w.heap, w.who, v, c)
    requires Barred(w, a, c, remembered)
    requires 0 <= a < |w.m| && w.who[a].id < |w.heap.objs| && w.who[a].off < |w.heap.objs[w.who[a].id]|
    ensures Coherent(AfterStore(w, a, v, c, remembered))
  {
    hide Simulates, Represents, Tiled, HeadsClean;
    StoreBounds(w, a);
    StoreSimulates(w, a, v, c);
    StoreRemembers(w, a, v, c, remembered);
    StoreOwned(w, a, v);
  }

  /** The starts of objects after a store: cell a is one exactly if it is the first of its object. */
  lemma StoreClean(w: World, a: int, c: Cell, m': Memory)
    requires Coherent(w) && a in w.who && 0 <= a < |w.m| && m' == w.m[a := c]
    ensures var clean' := HeadsClean(w.young, m') && HeadsClean(w.elder, m');
            && (w.who[a].off == 0 && c.IsForwarding() ==> !clean')
            && (w.who[a].off != 0 ==> (clean' <==> Clean(w)))
            && (!c.IsForwarding() && Clean(w) ==> clean')
  {
    hide Simulates, Tiled, Remembers;
    if w.young.Allocated(a) {
      ExtentOf(w.young, w.heap, w.who, a);
    } else {
      ExtentOf(w.elder, w.heap, w.who, a);
    }
    HeadsCleanStored(w.young, a, c, w.m);
    HeadsCleanStored(w.elder, a, c, w.m);
  }

  lemma HeadsCleanStored(gen: Gen, a: int, c: Cell, m: Memory)
    requires 0 <= a < |m|
    ensures !gen.Allocated(a) || gen.BlockOf(a).lo != a - gen.space.base ==>
              (HeadsClean(gen, m[a := c]) <==> HeadsClean(gen, m))
    ensures gen.Allocated(a) && gen.BlockOf(a).lo == a - gen.space.base && c.IsForwarding() ==>
              !HeadsClean(gen, m[a := c])
    ensures !c.IsForwarding() && HeadsClean(gen, m) ==> HeadsClean(gen, m[a := c])
  {
    var m' := m[a := c];
    if (!gen.Allocated(a) || gen.BlockOf(a).lo != a - gen.space.base) && HeadsClean(gen, m') {
      forall x | gen.Allocated(x) && gen.BlockOf(x).lo == x - gen.space.base
        ensures 0 <= x < |m| && !m[x].IsForwarding()
      {
        assert m'[x] == m[x];
      }
    }
  }

  /** A store that passes the barrier keeps the invariant, unless it puts a forwarding capability into the
      first cell of an object; only storage that was never set can hold one. */
  lemma StoreKeepsInv(w: World, a: int, v: Value, c: Cell, remembered: set<int>)
    requires Inv(w) && a in w.who && Represents(w.heap, w.who, v, c)
    requires Barred(w, a, c, remembered)
    requires 0 <= a < |w.m| && w.who[a].id < |w.heap.objs| && w.who[a].off < |w.heap.objs[w.who[a].id]|
    ensures Inv(AfterStore(w, a, v, c, remembered)) <==> !(c.IsForwarding() && w.who[a].off == 0)
    ensures c.IsForwarding() ==> v == Unknown
  {
    hide Coherent, HeadsClean, Barred;
    StoreKeepsCoherent(w, a, v, c, remembered);
    StoreClean(w, a, c, w.m[a := c]);
  }

  lemma StoreOwned(w: World, a: int, v: Value)
    requires Owned(w) && a in w.who && w.who[a].id < |w.heap.objs| && w.who[a].off < |w.heap.objs[w.who[a].id]|
    ensures Extents(w.young, WithCell(w.heap, w.who[a], v), w.who)
    ensures Extents(w.elder, WithCell(w.heap, w.who[a], v), w.who)
  {
  }

  lemma StoreRemembers(w: World, a: int, v: Value, c: Cell, remembered: set<int>)
    requires Coherent(w) && a in w.who && Barred(w, a, c, remembered)
    requires 0 <= a < |w.m| && w.who[a].id < |w.heap.objs| && w.who[a].off < |w.heap.objs[w.who[a].id]|
    ensures Remembers(AfterStore(w, a, v, c, remembered))
  {
    hide Tiled, HeadsClean, Geometry, Owned, PlacesExist, Contiguous, CellsMatch, RootsMatch;
    var w' := AfterStore(w, a, v, c, remembered);
    forall x | OldToYoung(w', x)
      ensures x in remembered
    {
      if x != a {
        if w.who[x] == w.who[a] {
          UniqueAt(w.who, x, a);
        }
        assert OldToYoung(w, x);
      }
    }
  }

  ghost function AfterRoot(w: World, r: nat, v: Value, c: Cell): World
    requires r < |w.heap.roots| && 0 <= w.roots.base + r < |w.m|
  {
    w.(m := w.m[w.roots.base + r := c], heap := WithRoot(w.heap, r, v))
  }

  lemma RootBounds(w: World, r: nat)
    requires Inv(w) && r < w.roots.len
    ensures |w.heap.roots| == w.roots.len && 0 <= w.roots.base && w.roots.End() <= |w.m|
    ensures forall a :: w.roots.Contains(a) ==> a !in w.who
  {
    hide Extents, HeadsClean, Remembers, Contiguous, Unique, CellsMatch, Tiled;
  }

  lemma RootSimulates(w: World, r: nat, v: Value, c: Cell)
    requires Simulates(w.heap, w.who, w.m, w.roots) && r < w.roots.len && Represents(w.heap, w.who, v, c)
    requires |w.heap.roots| == w.roots.len && 0 <= w.roots.base && w.roots.End() <= |w.m|
    requires w.roots.base + r !in w.who
    ensures Simulates(WithRoot(w.heap, r, v), w.who, w.m[w.roots.base + r := c], w.roots)
  {
    hide Represents, Contiguous, Unique;
    var h', a := WithRoot(w.heap, r, v), w.roots.base + r;
    var m' := w.m[a := c];
    forall x | x in w.who
      ensures 0 <= x < |m'| && Represents(h', w.who, At(h', w.who[x]), m'[x])
    {
      RepresentsStays(w.heap, w.who, h', w.who, At(w.heap, w.who[x]), w.m[x]);
    }
    forall x | w.roots.Contains(x)
      ensures Represents(h', w.who, h'.roots[x - w.roots.base], m'[x])
    {
      if x == a {
        RepresentsStays(w.heap, w.who, h', w.who, v, c);
      } else {
        RepresentsStays(w.heap, w.who, h', w.who, w.heap.roots[x - w.roots.base], w.m[x]);
      }
    }
    RootShape(w, r, v);
  }

  lemma RootOwned(w: World, r: nat, v: Value)
    requires Owned(w) && r < |w.heap.roots|
    ensures Extents(w.young, WithRoot(w.heap, r, v), w.who) && Extents(w.elder, WithRoot(w.heap, r, v), w.who)
  {
  }

  lemma RootHeads(w: World, gen: Gen, r: nat, c: Cell)
    requires HeadsClean(gen, w.m) && r < w.roots.len && 0 <= w.roots.base && w.roots.End() <= |w.m|
    requires forall a :: gen.Allocated(a) ==> !w.roots.Contains(a)
    ensures HeadsClean(gen, w.m[w.roots.base + r := c])
  {
    assert w.roots.Contains(w.roots.base + r);
  }

  /** Storing in a root needs no barrier. */
  lemma RootKeepsInv(w: World, r: nat, v: Value, c: Cell)
    requires Inv(w) && r < w.roots.len && Represents(w.heap, w.who, v, c)
    ensures r < |w.heap.roots| && 0 <= w.roots.base + r < |w.m| && Inv(AfterRoot(w, r, v, c))
  {
    hide Simulates, Represents, Tiled, Extents, HeadsClean, Remembers;
    RootBounds(w, r);
    assert w.roots.Contains(w.roots.base + r);
    RootSimulates(w, r, v, c);
    RootRemembers(w, r, v, c);
    RootOwned(w, r, v);
    RootHeads(w, w.young, r, c);
    RootHeads(w, w.elder, r, c);
  }

  lemma RootShape(w: World, r: nat, v: Value)
    requires Contiguous(w.heap, w.who) && r < |w.heap.roots|
    ensures Contiguous(WithRoot(w.heap, r, v), w.who)
  {
  }

  lemma RootRemembers(w: World, r: nat, v: Value, c: Cell)
    requires Remembers(w) && r < |w.heap.roots| && 0 <= w.roots.base + r < |w.m|
    requires w.roots.base + r !in w.who
    ensures Remembers(AfterRoot(w, r, v, c))
  {
    forall x | OldToYoung(AfterRoot(w, r, v, c), x)
      ensures OldToYoung(w, x)
    {
    }
  }
}
