/** What a major collection reclaims, in the client's terms: exactly the objects that its heap does not
    reach (src/gc_collect.c:102-137). */
module Reclaiming {
  import opened Cells
  import opened Copying
  import opened Simulation
  import opened Generations
  import opened Worlds
  import opened Exactness

  predicate RefersTo(v: Value, id: nat) {
    v.Ref? && v.id == id
  }

  /** Some cell of object o refers to object id. */
  predicate ObjectRefersTo(h: Heap, o: nat, id: nat) {
    o < |h.objs| && exists k :: 0 <= k < |h.objs[o]| && RefersTo(h.objs[o][k], id)
  }

  /** The client's heap reaches object id from its roots over at most n objects. */
  ghost predicate HeapReachesIn(h: Heap, id: nat, n: nat)
    decreases n
  {
    || (exists r :: 0 <= r < |h.roots| && RefersTo(h.roots[r], id))
    || (n > 0 && exists o: nat :: ObjectRefersTo(h, o, id) && HeapReachesIn(h, o, n - 1))
  }

  ghost predicate HeapReaches(h: Heap, id: nat) {
    exists n: nat :: HeapReachesIn(h, id, n)
  }

  /** Object id is in memory. */
  ghost predicate Present(w: World, id: nat) {
    exists a :: a in w.who && w.who[a].id == id
  }

  /** The client has set every root and every cell of the objects in memory. */
  ghost predicate AllSet(w: World) {
    && (forall r :: 0 <= r < |w.heap.roots| ==> w.heap.roots[r] != Unknown)
    && (forall a :: a in w.who ==> At(w.heap, w.who[a]) != Unknown)
  }

  // ---------------------------------------------------------------- what is reached is kept

  lemma TargetPresent(w: World, v: Value, c: Cell, id: nat)
    requires Represents(w.heap, w.who, v, c) && RefersTo(v, id)
    ensures Present(w, id)
  {
    assert w.who[c.cap.base].id == id;
  }

  /** Whatever the client's heap reaches is in memory, at all times. */
  lemma {:induction false} ReachedIsPresent(w: World, id: nat, n: nat)
    requires Coherent(w) && HeapReachesIn(w.heap, id, n)
    ensures Present(w, id)
    decreases n
  {
    hide Geometry, Owned, Remembers, Present, Represents, RefersTo, Contiguous;
    if r :| 0 <= r < |w.heap.roots| && RefersTo(w.heap.roots[r], id) {
      assert w.roots.Contains(w.roots.base + r);
      TargetPresent(w, w.heap.roots[r], w.m[w.roots.base + r], id);
    } else {
      var o: nat :| ObjectRefersTo(w.heap, o, id) && HeapReachesIn(w.heap, o, n - 1);
      var k :| 0 <= k < |w.heap.objs[o]| && RefersTo(w.heap.objs[o][k], id);
      ReachedIsPresent(w, o, n - 1);
      var b := CellOf(w, o, k);
      TargetPresent(w, w.heap.objs[o][k], w.m[b], id);
    }
  }

  /** The address of cell k of an object in memory. */
  ghost function CellOf(w: World, o: nat, k: nat): (b: int)
    requires Coherent(w) && Present(w, o) && o < |w.heap.objs| && k < |w.heap.objs[o]|
    ensures b in w.who && w.who[b] == Place(o, k)
  {
    var a :| a in w.who && w.who[a].id == o;
    ContiguousAt(w.heap, w.who, a, a + k - w.who[a].off);
    a + k - w.who[a].off
  }

  // ---------------------------------------------------------------- what is kept is reached

  /** Two cells of one recorded object belong to the same object of the client. */
  lemma SameObjectSameId(w: World, x: int, s: int)
    requires Coherent(w) && MajorJob(w).SameObject(x, s)
    ensures x in w.who && s in w.who && w.who[x].id == w.who[s].id
  {
    hide Geometry, Remembers, PlacesExist, Unique, CellsMatch, RootsMatch;
    ExtentOf(w.elder, w.heap, w.who, x);
    ExtentOf(w.elder, w.heap, w.who, s);
    TiledAt(w, s);
    ContiguousAt(w.heap, w.who, x, s);
  }

  lemma TiledAt(w: World, s: int)
    requires Geometry(w) && w.elder.Allocated(s)
    ensures w.elder.BlockOf(s).lo <= s - w.elder.space.base < w.elder.BlockOf(s).hi
  {
  }

  /** A set cell that points to s refers to the object of s. */
  lemma SetCellRefers(w: World, v: Value, c: Cell, s: int)
    requires Coherent(w) && Represents(w.heap, w.who, v, c) && v != Unknown
    requires MajorJob(w).Movable(c) && MajorJob(w).SameObject(c.cap.base, s)
    ensures s in w.who && RefersTo(v, w.who[s].id)
  {
    hide Coherent;
    SameObjectSameId(w, c.cap.base, s);
  }

  lemma {:induction false} ReachedInMemory(w: World, s: int, n: nat)
    requires Coherent(w) && AllSet(w) && ReachedIn(MajorJob(w), s, n)
    ensures s in w.who && HeapReachesIn(w.heap, w.who[s].id, n)
    decreases n
  {
    hide Geometry, Owned, Remembers, Represents, RefersTo, Contiguous, Unique, Job.Movable, Job.SameObject;
    var j := MajorJob(w);
    if a :| a in j.slots && PointsInto(j, a, s) {
      assert w.roots.Contains(a);
      SetCellRefers(w, w.heap.roots[a - w.roots.base], w.m[a], s);
    } else {
      var a :| j.Allocated(a) && PointsInto(j, a, s) && ReachedIn(j, a, n - 1);
      ReachedInMemory(w, a, n - 1);
      SetCellRefers(w, At(w.heap, w.who[a]), w.m[a], s);
      var o, k := w.who[a].id, w.who[a].off;
      assert 0 <= k < |w.heap.objs[o]| && RefersTo(w.heap.objs[o][k], w.who[s].id);
      assert ObjectRefersTo(w.heap, o, w.who[s].id);
    }
  }

  /** When nothing is young and the old generation holds no garbage, as a major collection leaves it, and
      if the client has set everything, then the objects in memory are exactly those that the client's
      heap reaches. */
  lemma KeptIsReached(w: World)
    requires Inv(w) && w.young.objects == [] && NoGarbage(w) && AllSet(w)
    ensures forall id: nat :: Present(w, id) <==> HeapReaches(w.heap, id)
  {
    hide AllSet, ReachedIn, HeapReachesIn, Geometry, Simulates, Remembers, Clean;
    forall id: nat
      ensures Present(w, id) <==> HeapReaches(w.heap, id)
    {
      if Present(w, id) {
        var a :| a in w.who && w.who[a].id == id;
        assert w.elder.Allocated(a);
        var n: nat :| ReachedIn(MajorJob(w), a, n);
        ReachedInMemory(w, a, n);
      }
      if HeapReaches(w.heap, id) {
        var n: nat :| HeapReachesIn(w.heap, id, n);
        ReachedIsPresent(w, id, n);
      }
    }
  }
}
