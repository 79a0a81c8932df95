/** The main result about the collector: whatever a client does, it observes the same on the machine,
    where objects move and are reclaimed, as on a heap where nothing ever moves or is freed. */
module Client {
  import opened Cells
  import opened Bitmaps
  import opened RememberedSets
  import opened LowMemory
  import opened Simulation
  import opened Generations
  import opened Worlds
  import opened Mutating
  import opened Collectors
  import opened Collect
  import opened Allocator
  import opened Policy
  import opened Exactness
  import opened Barrier

  /** What a client can do; r, s, t and d are roots. */
  datatype Op =
    | PutNumber(r: nat, n: int)
    | MoveRoot(r: nat, s: nat)
    | Narrow(r: nat, s: nat, off: nat, len: nat)
    | New(r: nat, bytes: nat)
    | Load(r: nat, s: nat, i: nat)
    | Store(s: nat, i: nat, t: nat)
    | PutData(s: nat, i: nat, n: int)
    | CopyCells(d: nat, s: nat, len: nat)
    | CollectGarbage(major: bool)
    | Look(r: nat)
    | Same(r: nat, s: nat)

  /** What a client can see. */
  datatype Sight = Nothing | Allocated(ok: bool) | SawNumber(n: int) | SawPointer(len: nat) | SawSame(same: bool)

  datatype Outcome = Stuck | Next(heap: Heap, sight: Sight)

  function Root(h: Heap, r: nat): Value {
    if r < |h.roots| then h.roots[r] else Unknown
  }

  /** The root leads to an object and covers n cells of it. */
  predicate Covers(h: Heap, r: nat, n: nat) {
    var v := Root(h, r);
    v.Ref? && v.id < |h.objs| && v.off < |h.objs[v.id]| && v.off + v.len <= |h.objs[v.id]| && n <= v.len
  }

  function PlaceOf(v: Value, i: nat): Place
    requires v.Ref?
  {
    Place(v.id, v.off + i)
  }

  /** n cells of what root s covers can be copied to what root d covers, without overlap and without
      leaving storage that was never set at the start of an object. */
  predicate CanCopy(h: Heap, d: nat, s: nat, n: nat) {
    && Covers(h, d, n) && Covers(h, s, n)
    && var dv := Root(h, d);
       var sv := Root(h, s);
       && (dv.id == sv.id ==> dv.off + n <= sv.off || sv.off + n <= dv.off)
       && (n > 0 && dv.off == 0 ==> h.objs[sv.id][sv.off] != Unknown)
  }

  /** One operation on the heap in which nothing moves.  The only thing it leaves open is whether an
      allocation succeeds (`ok`).  An operation is stuck if the client oversteps: if it leaves the bounds of
      a capability or makes one that starts outside, looks at storage that was never set, or stores
      what it has from there at the start of an object. */
  function Do(h: Heap, op: Op, ok: bool): Outcome {
    match op
    case PutNumber(r, n) =>
      if r < |h.roots| then Next(WithRoot(h, r, Number(n)), Nothing) else Stuck
    case MoveRoot(r, s) =>
      if r < |h.roots| && s < |h.roots| then Next(WithRoot(h, r, Root(h, s)), Nothing) else Stuck
    case Narrow(r, s, off, len) =>
      if r < |h.roots| && Covers(h, s, off + len) && Covers(h, s, off + 1)
      then Next(WithRoot(h, r, Ref(Root(h, s).id, Root(h, s).off + off, len)), Nothing) else Stuck
    case New(r, bytes) =>
      if r < |h.roots| && bytes > 0 then
        if ok
        then Next(WithRoot(WithObject(h, Align32(bytes) / 32), r, Ref(|h.objs|, 0, Align32(bytes) / 32)),
            Allocated(true))
        else Next(WithRoot(h, r, Number(0)), Allocated(false))
      else Stuck
    case Load(r, s, i) =>
      if r < |h.roots| && Covers(h, s, i + 1)
      then Next(WithRoot(h, r, At(h, PlaceOf(Root(h, s), i))), Nothing) else Stuck
    case Store(s, i, t) =>
      if t < |h.roots| && Covers(h, s, i + 1) && (PlaceOf(Root(h, s), i).off == 0 ==> Root(h, t) != Unknown)
      then Next(WithCell(h, PlaceOf(Root(h, s), i), Root(h, t)), Nothing) else Stuck
    case PutData(s, i, n) =>
      if Covers(h, s, i + 1) then Next(WithCell(h, PlaceOf(Root(h, s), i), Number(n)), Nothing) else Stuck
    case CopyCells(d, s, n) =>
      if CanCopy(h, d, s, n)
      then Next(PartlyCopied(h, PlaceOf(Root(h, d), 0), PlaceOf(Root(h, s), 0), n, n), Nothing) else Stuck
    case CollectGarbage(_) =>
      Next(h, Nothing)
    case Look(r) =>
      var v := Root(h, r);
      if v.Number? then Next(h, SawNumber(v.n)) else if v.Ref? then Next(h, SawPointer(v.len)) else Stuck
    case Same(r, s) =>
      if Root(h, r).Ref? && Root(h, s).Ref?
      then Next(h, SawSame(PlaceOf(Root(h, r), 0) == PlaceOf(Root(h, s), 0))) else Stuck
  }

  // ---------------------------------------------------------------- the operations on the machine

  /** What the machine has in a root. */
  lemma RootKnown(w: World, r: nat)
    requires Coherent(w) && r < w.roots.len
    ensures |w.heap.roots| == w.roots.len && 0 <= w.roots.base + r < |w.m|
    ensures Represents(w.heap, w.who, Root(w.heap, r), w.m[w.roots.base + r])
  {
    hide Extents, HeadsClean, Remembers, PlacesExist, Contiguous, Unique, CellsMatch, Tiled, Represents;
    assert w.roots.Contains(w.roots.base + r);
  }

  lemma RootsKnown(w: World)
    requires Inv(w)
    ensures |w.heap.roots| == w.roots.len
  {
    hide Extents, HeadsClean, Remembers, PlacesExist, Contiguous, Unique, CellsMatch, Tiled, Represents;
  }

  /** What a capability in a root leads to. */
  lemma CoveredKnown(w: World, r: nat, n: nat)
    requires Inv(w) && r < w.roots.len && Covers(w.heap, r, n)
    ensures 0 <= w.roots.base + r < |w.m| && w.m[w.roots.base + r].Tagged?
    ensures var c := w.m[w.roots.base + r].cap;
            var v := Root(w.heap, r);
            && c.len == v.len && !c.forwarding
            && Spans(w.who, c.base, PlaceOf(v, 0), n)
  {
    hide Geometry, Owned, HeadsClean, Remembers, PlacesExist, Unique, CellsMatch, RootsMatch, Contiguous;
    RootKnown(w, r);
    var c := w.m[w.roots.base + r].cap;
    var v := Root(w.heap, r);
    forall x | c.base <= x < c.base + n
      ensures x in w.who && w.who[x] == Place(v.id, v.off + (x - c.base))
    {
      ContiguousAt(w.heap, w.who, c.base, x);
    }
  }

  method GetRoot(gc: Collector, r: nat) returns (c: Cell)
    requires gc.Valid() && r < gc.h.roots.len
    ensures |gc.heap.roots| == gc.h.roots.len && Represents(gc.heap, gc.who, Root(gc.heap, r), c)
    ensures 0 <= gc.h.roots.base + r < |gc.h.mem| && c == gc.h.mem[gc.h.roots.base + r]
  {
    hide Inv, NoDuplicates, Packs, Tiled, TableOk, Bitmap.Valid, RememberedSet.Valid, Represents;
    InvAccords(gc.Snapshot());
    RootKnown(gc.Snapshot(), r);
    c := gc.h.mem[gc.h.roots.base + r];
  }

  /** The address of cell i of what root s covers. */
  method GetCell(gc: Collector, s: nat, i: nat) returns (a: int)
    requires gc.Valid() && s < gc.h.roots.len && Covers(gc.heap, s, i + 1)
    ensures a in gc.who && gc.who[a] == PlaceOf(Root(gc.heap, s), i)
    ensures 0 <= a < |gc.h.mem| && Represents(gc.heap, gc.who, At(gc.heap, gc.who[a]), gc.h.mem[a])
    ensures 0 <= gc.h.roots.base + s < |gc.h.mem| && gc.h.mem[gc.h.roots.base + s].Tagged?
    ensures a == gc.h.mem[gc.h.roots.base + s].cap.base + i && !gc.h.mem[gc.h.roots.base + s].IsForwarding()
  {
    hide Inv, NoDuplicates, Packs, Tiled, TableOk, Bitmap.Valid, RememberedSet.Valid, Represents;
    ghost var w := gc.Snapshot();
    InvAccords(w);
    CoveredKnown(w, s, i + 1);
    a := gc.h.mem[gc.h.roots.base + s].cap.base + i;
    CellKnown(w, a);
  }

  lemma HeapRoots(gc: Collector)
    requires gc.Valid()
    ensures |gc.heap.roots| == gc.h.roots.len
  {
    hide Inv, NoDuplicates, Packs, Tiled, TableOk, Bitmap.Valid, RememberedSet.Valid;
    RootsKnown(gc.Snapshot());
  }

  lemma CoversRoot(h: Heap, s: nat, n: nat)
    requires Covers(h, s, n)
    ensures s < |h.roots| && Root(h, s).Ref?
  {
  }

  /** A part of what a capability covers. */
  lemma NarrowRepresents(h: Heap, who: Places, s: nat, off: nat, len: nat, a: int)
    requires Covers(h, s, off + len) && Covers(h, s, off + 1) && a in who && who[a] == PlaceOf(Root(h, s), off)
    ensures Represents(h, who, Ref(Root(h, s).id, Root(h, s).off + off, len), Tagged(Capability(a, len, false)))
  {
  }

  /** Capability arithmetic by the client: part of what root s covers. */
  method DoNarrow(gc: Collector, r: nat, s: nat, off: nat, len: nat)
    requires gc.Valid() && r < |gc.heap.roots| && Covers(gc.heap, s, off + len) && Covers(gc.heap, s, off + 1)
    modifies gc`heap, gc.h`mem, gc.young.remset, gc.young.remset.roots
    ensures gc.Valid() && fresh(gc.Footprint() - old(gc.Footprint()))
    ensures r < |old(gc.heap.roots)| && Covers(old(gc.heap), s, off + 1)
    ensures gc.heap == WithRoot(old(gc.heap), r, Ref(Root(old(gc.heap), s).id, Root(old(gc.heap), s).off + off, len))
  {
    hide Inv, NoDuplicates, Packs, Tiled, TableOk, Bitmap.Valid, RememberedSet.Valid, Represents, WithRoot, Covers,
      Collector.PartsValid, Collector.Snapshot;
    HeapRoots(gc);
    CoversRoot(gc.heap, s, off + 1);
    var a := GetCell(gc, s, off);
    NarrowRepresents(gc.heap, gc.who, s, off, len, a);
    StoreRoot(gc, r, Tagged(gc.h.mem[gc.h.roots.base + s].cap.(base := a, len := len)),
              Ref(Root(gc.heap, s).id, Root(gc.heap, s).off + off, len));
  }

  /** Allocation into a root; NULL is an untagged cell. */
  method DoNew(gc: Collector, r: nat, bytes: nat) returns (ok: bool)
    requires gc.Valid() && r < |gc.heap.roots| && bytes > 0
    modifies gc.Footprint()
    ensures gc.Valid() && fresh(gc.Footprint() - old(gc.Footprint()))
    ensures r < |old(gc.heap.roots)|
    ensures !ok ==> gc.heap == WithRoot(old(gc.heap), r, Number(0))
    ensures ok ==> gc.heap == WithRoot(WithObject(old(gc.heap), Align32(bytes) / 32), r,
                                       Ref(|old(gc.heap.objs)|, 0, Align32(bytes) / 32))
    ensures gc.young.maxAfter == 0 ==> ok
    ensures gc.young.numCollections == old(gc.young.numCollections) ==> ElderStays(gc)
    ensures MadeRoom(old(gc.Snapshot()), Align32(bytes), gc.young.maxBefore, gc.young.maxAfter, gc.young.tospace.len,
                     old(gc.young.numCollections), gc.young.numCollections, gc.collected,
                     old(gc.elder.numCollections), gc.elder.numCollections)
    ensures OldSized(old(gc.elder.tospace.len), gc.elder.free.len, gc.elder.tospace.len, gc.elder.maxAfter)
    ensures old(Marked(gc)) ==> Marked(gc)
    ensures old(Safe(gc)) ==> Safe(gc) && gc.refusals == old(gc.refusals)
  {
    hide MadeRoom, OldSized, GivesUp, Collects, Guarded, Inv, NoDuplicates, Packs, Tiled, TableOk, Bitmap.Valid,
      RememberedSet.Valid,
      Represents, WithRoot,
      Collector.PartsValid, Collector.Snapshot;
    HeapRoots(gc);
    ghost var h := gc.heap;
    var ret;
    label before:
    ok, ret := Malloc(gc, bytes);
    WhenItServes(old@before(gc.young.tospace.len), old@before(gc.young.free.len), old@before(gc.elder.free.len),
                 Align32(bytes), gc.young.maxBefore, gc.young.maxAfter);
    if ok {
      NewRepresents(h, Align32(bytes) / 32, gc.who, ret);
      StoreRoot(gc, r, Tagged(ret), Ref(|h.objs|, 0, Align32(bytes) / 32));
    } else {
      NumberRepresents(gc.heap, gc.who, 0);
      StoreRoot(gc, r, Data(0), Number(0));
    }
  }

  lemma NumberRepresents(h: Heap, who: Places, n: int)
    ensures Represents(h, who, Number(n), Data(n))
  {
  }

  lemma NewRepresents(h: Heap, n: nat, who: Places, ret: Capability)
    requires n > 0 && ret.len == n && !ret.forwarding && ret.base in who && who[ret.base] == Place(|h.objs|, 0)
    ensures Represents(WithObject(h, n), who, Ref(|h.objs|, 0, n), Tagged(ret))
  {
  }

  method DoLoad(gc: Collector, r: nat, s: nat, i: nat)
    requires gc.Valid() && r < |gc.heap.roots| && Covers(gc.heap, s, i + 1)
    modifies gc`heap, gc.h`mem, gc.young.remset, gc.young.remset.roots
    ensures gc.Valid() && fresh(gc.Footprint() - old(gc.Footprint()))
    ensures r < |old(gc.heap.roots)| && Covers(old(gc.heap), s, i + 1)
    ensures gc.heap == WithRoot(old(gc.heap), r, At(old(gc.heap), PlaceOf(Root(old(gc.heap), s), i)))
  {
    hide Inv, NoDuplicates, Packs, Tiled, TableOk, Bitmap.Valid, RememberedSet.Valid, Represents, WithRoot, Covers,
      Collector.PartsValid, Collector.Snapshot;
    HeapRoots(gc);
    CoversRoot(gc.heap, s, i + 1);
    var a := GetCell(gc, s, i);
    StoreRoot(gc, r, gc.h.mem[a], At(gc.heap, PlaceOf(Root(gc.heap, s), i)));
  }

  method DoPutNumber(gc: Collector, r: nat, n: int)
    requires gc.Valid() && r < |gc.heap.roots|
    modifies gc`heap, gc.h`mem, gc.young.remset, gc.young.remset.roots
    ensures gc.Valid() && fresh(gc.Footprint() - old(gc.Footprint()))
    ensures r < |old(gc.heap.roots)| && gc.heap == WithRoot(old(gc.heap), r, Number(n))
  {
    hide Inv, NoDuplicates, Packs, Tiled, TableOk, Bitmap.Valid, RememberedSet.Valid, Represents, WithRoot,
      Collector.PartsValid, Collector.Snapshot;
    HeapRoots(gc);
    NumberRepresents(gc.heap, gc.who, n);
    StoreRoot(gc, r, Data(n), Number(n));
  }

  method DoMoveRoot(gc: Collector, r: nat, s: nat)
    requires gc.Valid() && r < |gc.heap.roots| && s < |gc.heap.roots|
    modifies gc`heap, gc.h`mem, gc.young.remset, gc.young.remset.roots
    ensures gc.Valid() && fresh(gc.Footprint() - old(gc.Footprint()))
    ensures r < |old(gc.heap.roots)| && gc.heap == WithRoot(old(gc.heap), r, Root(old(gc.heap), s))
  {
    hide Inv, NoDuplicates, Packs, Tiled, TableOk, Bitmap.Valid, RememberedSet.Valid, Represents, WithRoot,
      Collector.PartsValid, Collector.Snapshot;
    HeapRoots(gc);
    var c := GetRoot(gc, s);
    StoreRoot(gc, r, c, Root(gc.heap, s));
  }

  method DoPutData(gc: Collector, s: nat, i: nat, n: int)
    requires gc.Valid() && Covers(gc.heap, s, i + 1)
    modifies gc`heap, gc.h`mem
    ensures gc.Valid() && fresh(gc.Footprint() - old(gc.Footprint()))
    ensures Covers(old(gc.heap), s, i + 1)
    ensures gc.heap == WithCell(old(gc.heap), PlaceOf(Root(old(gc.heap), s), i), Number(n))
  {
    hide Inv, NoDuplicates, Packs, Tiled, TableOk, Bitmap.Valid, RememberedSet.Valid, Represents, WithCell,
      Collector.PartsValid, Collector.Snapshot;
    HeapRoots(gc);
    var a := GetCell(gc, s, i);
    StoreData(gc, a, n, Number(n));
  }

  method DoStore(gc: Collector, s: nat, i: nat, t: nat)
    requires gc.Valid() && t < |gc.heap.roots| && Covers(gc.heap, s, i + 1)
    requires PlaceOf(Root(gc.heap, s), i).off == 0 ==> Root(gc.heap, t) != Unknown
    modifies gc`heap, gc.h`mem, gc.young.remset, gc.young.remset.roots
    ensures gc.Valid() && fresh(gc.Footprint() - old(gc.Footprint()))
    ensures Covers(old(gc.heap), s, i + 1)
    ensures gc.heap == WithCell(old(gc.heap), PlaceOf(Root(old(gc.heap), s), i), Root(old(gc.heap), t))
  {
    hide Inv, NoDuplicates, Packs, Tiled, TableOk, Bitmap.Valid, RememberedSet.Valid, Represents, WithCell,
      Collector.PartsValid, Collector.Snapshot;
    HeapRoots(gc);
    ValidAccords(gc);
    var a := GetCell(gc, s, i);
    var c := GetRoot(gc, t);
    BytesKnown(gc.heap, gc.who, Root(gc.heap, t), c);
    StoreCap(gc, a, c, Root(gc.heap, t));
  }

  method DoCopy(gc: Collector, d: nat, s: nat, n: nat)
    requires gc.Valid() && CanCopy(gc.heap, d, s, n)
    modifies gc`heap, gc.h`mem, gc.young.remset, gc.young.remset.roots
    ensures gc.Valid() && fresh(gc.Footprint() - old(gc.Footprint()))
    ensures CanCopy(old(gc.heap), d, s, n)
    ensures gc.heap ==
              PartlyCopied(old(gc.heap), PlaceOf(Root(old(gc.heap), d), 0), PlaceOf(Root(old(gc.heap), s), 0), n, n)
  {
    hide Inv, NoDuplicates, Packs, Tiled, TableOk, Bitmap.Valid, RememberedSet.Valid, Represents, PartlyCopied, Spans;
    HeapRoots(gc);
    ghost var w := gc.Snapshot();
    CoveredKnown(w, d, n);
    CoveredKnown(w, s, n);
    CanCopyCopyable(gc.heap, d, s, n);
    if n > 0 && PlaceOf(Root(gc.heap, d), 0).off == 0 {
      FirstCellKnown(w, s, n);
    }
    GCMemcpy(gc, gc.h.mem[gc.h.roots.base + d].cap.base, gc.h.mem[gc.h.roots.base + s].cap.base, n,
             PlaceOf(Root(gc.heap, d), 0), PlaceOf(Root(gc.heap, s), 0));
  }

  /** What has been set is not a forwarding capability. */
  lemma FirstCellKnown(w: World, s: nat, n: nat)
    requires Inv(w) && s < w.roots.len && n > 0 && Covers(w.heap, s, n)
    requires At(w.heap, PlaceOf(Root(w.heap, s), 0)) != Unknown
    ensures 0 <= w.roots.base + s < |w.m| && w.m[w.roots.base + s].Tagged?
    ensures var a := w.m[w.roots.base + s].cap.base; 0 <= a < |w.m| && !w.m[a].IsForwarding()
  {
    hide Covers, Represents, Coherent, Clean;
    CoveredKnown(w, s, n);
    var a := w.m[w.roots.base + s].cap.base;
    assert a in w.who;
    CellKnown(w, a);
    BytesKnown(w.heap, w.who, At(w.heap, w.who[a]), w.m[a]);
  }

  lemma CanCopyCopyable(h: Heap, d: nat, s: nat, n: nat)
    requires CanCopy(h, d, s, n)
    ensures Copyable(h, PlaceOf(Root(h, d), 0), PlaceOf(Root(h, s), 0), n)
  {
  }

  /** Two capabilities have the same base exactly when they lead to the same cell of the same object. */
  lemma SameBase(w: World, r: nat, s: nat)
    requires Inv(w) && r < w.roots.len && s < w.roots.len
    requires Root(w.heap, r).Ref? && Root(w.heap, s).Ref?
    ensures 0 <= w.roots.base + r < |w.m| && 0 <= w.roots.base + s < |w.m|
    ensures (w.m[w.roots.base + r].Base() == w.m[w.roots.base + s].Base()) ==
            (PlaceOf(Root(w.heap, r), 0) == PlaceOf(Root(w.heap, s), 0))
  {
    hide Geometry, Owned, HeadsClean, Remembers, PlacesExist, CellsMatch, RootsMatch, Contiguous, Unique;
    RootKnown(w, r);
    RootKnown(w, s);
    var a, b := w.m[w.roots.base + r].cap.base, w.m[w.roots.base + s].cap.base;
    if w.who[a] == w.who[b] {
      UniqueAt(w.who, a, b);
    }
  }

  method DoSame(gc: Collector, r: nat, s: nat) returns (same: bool)
    requires gc.Valid() && Root(gc.heap, r).Ref? && Root(gc.heap, s).Ref?
    ensures same == (PlaceOf(Root(gc.heap, r), 0) == PlaceOf(Root(gc.heap, s), 0))
  {
    hide Inv, NoDuplicates, Packs, Tiled, TableOk, Bitmap.Valid, RememberedSet.Valid, Represents;
    HeapRoots(gc);
    SameBase(gc.Snapshot(), r, s);
    same := gc.h.mem[gc.h.roots.base + r].Base() == gc.h.mem[gc.h.roots.base + s].Base();
  }

  method DoLook(gc: Collector, r: nat) returns (sight: Sight)
    requires gc.Valid() && Root(gc.heap, r) != Unknown
    ensures var v := Root(gc.heap, r); sight == if v.Number? then SawNumber(v.n) else SawPointer(v.len)
  {
    hide Inv, NoDuplicates, Packs, Tiled, TableOk, Bitmap.Valid, RememberedSet.Valid;
    HeapRoots(gc);
    var c := GetRoot(gc, r);
    sight := if c.Tagged? then SawPointer(c.cap.len) else SawNumber(c.bits);
  }

  /** GC_collect and GC_major_collect: a collection of the young region.  If the old region has room for
      what is in use of the young one, everything is old afterwards; and after a major collection, what
      the old region has in use is what the roots reach. */
  method DoCollect(gc: Collector, major: bool)
    requires gc.Valid()
    modifies gc.Footprint()
    ensures gc.Valid() && gc.heap == old(gc.heap)
    ensures fresh(gc.Footprint() - old(gc.Footprint()))
    ensures gc.young.numCollections == old(gc.young.numCollections) + 1
    ensures NoRoom(old(gc.elder.free.len), |old(gc.young.Objects())|) ==> gc.refusals == old(gc.refusals) + 1
    ensures !NoRoom(old(gc.elder.free.len), |old(gc.young.Objects())|) ==>
              && gc.refusals == old(gc.refusals)
              && gc.young.Objects() == [] && gc.young.remset.Slots() == {}
              && (major ==> NoGarbage(gc.Snapshot()))
              && (!major && HalfFree(old(gc.Snapshot())) ==> Promoted(old(gc.Snapshot()), gc.Snapshot()))
    ensures OldCollections(old(gc.Snapshot()), major, old(gc.elder.numCollections), gc.elder.numCollections)
    ensures OldSized(old(gc.elder.tospace.len), gc.elder.free.len, gc.elder.tospace.len, gc.elder.maxAfter)
    ensures gc.young.tospace == old(gc.young.tospace)
    ensures old(Marked(gc)) ==> Marked(gc)
    ensures old(Safe(gc)) ==> Safe(gc) && gc.refusals == old(gc.refusals)
  {
    hide Inv, NoDuplicates, Packs, Tiled, TableOk, Bitmap.Valid, RememberedSet.Valid, RememberedSet.Slots,
      NoGarbage, Guarded, HalfFree, Promoted, OldCollections, OldSized;
    CollectYoung(gc, major);
  }

  // ---------------------------------------------------------------- the simulation

  /** One operation on the machine does what it does on the heap in which nothing moves, and shows the
      client the same. */
  method Perform(gc: Collector, op: Op) returns (sight: Sight, ghost ok: bool)
    requires gc.Valid() && Do(gc.heap, op, true) != Stuck
    modifies gc.Footprint()
    ensures gc.Valid() && fresh(gc.Footprint() - old(gc.Footprint()))
    ensures Do(old(gc.heap), op, ok) == Next(gc.heap, sight)
    ensures gc.young.maxAfter == 0 ==> sight != Allocated(false)
    ensures gc.young.maxAfter == 0 ==> ok
    ensures gc.young.numCollections == old(gc.young.numCollections) ==> ElderStays(gc)
    ensures old(Marked(gc)) ==> Marked(gc)
    ensures old(Safe(gc)) ==> Safe(gc) && gc.refusals == old(gc.refusals)
  {
    hide Guarded, Collector.Valid, Collector.PartsValid, Collector.Snapshot, WithRoot, WithCell, WithObject,
      PartlyCopied, CanCopy,
      Covers;
    ok, sight := true, Nothing;
    match op
    case PutNumber(r, n) =>
      DoPutNumber(gc, r, n);
    case MoveRoot(r, s) =>
      DoMoveRoot(gc, r, s);
    case Narrow(r, s, off, len) =>
      DoNarrow(gc, r, s, off, len);
    case New(r, bytes) =>
      var success := DoNew(gc, r, bytes);
      ok, sight := success, Allocated(success);
    case Load(r, s, i) =>
      DoLoad(gc, r, s, i);
    case Store(s, i, t) =>
      DoStore(gc, s, i, t);
    case PutData(s, i, n) =>
      DoPutData(gc, s, i, n);
    case CopyCells(d, s, n) =>
      DoCopy(gc, d, s, n);
    case CollectGarbage(major) =>
      DoCollect(gc, major);
    case Look(r) =>
      sight := DoLook(gc, r);
    case Same(r, s) =>
      var same := DoSame(gc, r, s);
      sight := SawSame(same);
  }

  /** A client: what it does next depends on what it has seen. */
  type Program = seq<Sight> -> Op

  /** The client never oversteps in its next n operations.  If allocations may fail, it has to be ready
      for both outcomes. */
  ghost predicate Behaves(h: Heap, client: Program, seen: seq<Sight>, n: nat, mayFail: bool)
    decreases n
  {
    n == 0 ||
    forall ok: bool :: ok || mayFail ==>
      var next := Do(h, client(seen), ok);
      next != Stuck && Behaves(next.heap, client, seen + [next.sight], n - 1, mayFail)
  }

  /** On the heap in which nothing moves, n operations of the client can lead from h, having seen
      `seen`, to h', having seen seen'. */
  ghost predicate CanReach(h: Heap, client: Program, seen: seq<Sight>, n: nat, mayFail: bool, h': Heap,
                           seen': seq<Sight>)
    decreases n
  {
    if n == 0 then h' == h && seen' == seen
    else exists ok: bool ::
      var next := Do(h, client(seen), ok);
      (ok || mayFail) && next != Stuck && CanReach(next.heap, client, seen + [next.sight], n - 1, mayFail, h', seen')
  }

  lemma BehavesStep(h: Heap, client: Program, seen: seq<Sight>, n: nat, mayFail: bool, ok: bool)
    requires Behaves(h, client, seen, n, mayFail) && n > 0 && (ok || mayFail)
    ensures var next := Do(h, client(seen), ok);
            next != Stuck && Behaves(next.heap, client, seen + [next.sight], n - 1, mayFail)
  {
  }

  lemma CanReachStep(h: Heap, client: Program, seen: seq<Sight>, n: nat, mayFail: bool, ok: bool, h': Heap,
                     seen': seq<Sight>)
    requires n > 0 && (ok || mayFail) && Do(h, client(seen), ok) != Stuck
    requires var next := Do(h, client(seen), ok);
             CanReach(next.heap, client, seen + [next.sight], n - 1, mayFail, h', seen')
    ensures CanReach(h, client, seen, n, mayFail, h', seen')
  {
    hide Do;
  }

  /** Whatever a client does, and however the collector collects, promotes, grows and moves objects
      under it, it sees what it could have seen if nothing ever moved or was freed; and the invariant of
      the collector holds throughout.  If the young region may grow without a limit, as it may by
      default, no allocation ever fails, and the client need not be ready for one that does.  Between two
      operations the old region is above the watermark only if its limit leaves no other way.  If the
      collector starts out safe, it stays so: the old region is never above the watermark then, and every
      collection promotes. */
  method Run(gc: Collector, client: Program, seen: seq<Sight>, n: nat) returns (seen': seq<Sight>)
    requires gc.Valid() && Behaves(gc.heap, client, seen, n, gc.young.maxAfter != 0)
    modifies gc.Footprint()
    ensures gc.Valid() && fresh(gc.Footprint() - old(gc.Footprint()))
    ensures CanReach(old(gc.heap), client, seen, n, gc.young.maxAfter != 0, gc.heap, seen')
    ensures gc.young.maxAfter == 0 && Allocated(false) !in seen ==> Allocated(false) !in seen'
    ensures old(Marked(gc)) ==> Marked(gc)
    ensures old(Safe(gc)) ==> Safe(gc) && gc.refusals == old(gc.refusals)
    decreases n
  {
    hide Inv, Collector.Wired, Collector.PartsValid, Collector.Snapshot, Collector.Footprint, Do, Behaves, CanReach,
      Guarded;
    var mayFail := gc.young.maxAfter != 0;
    if n == 0 {
      NothingDone(gc.heap, client, seen, mayFail);
      return seen;
    }
    ghost var h := gc.heap;
    BehavesStep(h, client, seen, n, mayFail, true);
    if mayFail {
      BehavesStep(h, client, seen, n, mayFail, false);
    }
    var sight, ok := Perform(gc, client(seen));
    ghost var between := gc.Footprint();
    label mid:
    seen' := Run(gc, client, seen + [sight], n - 1);
    forall o | o in gc.Footprint() && o !in old(gc.Footprint()) ensures fresh(o) {
      if o in between {
        assert o in between - old(gc.Footprint());
      } else {
        assert o in gc.Footprint() - between;
        assert !old@mid(allocated(o));
      }
    }
    CanReachStep(h, client, seen, n, mayFail, ok, gc.heap, seen');
  }

  lemma NothingDone(h: Heap, client: Program, seen: seq<Sight>, mayFail: bool)
    ensures CanReach(h, client, seen, 0, mayFail, h, seen)
  {
  }
}
