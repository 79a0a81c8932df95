/** The client's stores: the GC_STORE_CAP write barrier (src/inc/gc_low.h:198-211), GC_handle_oy_store
    (src/gc_low.c:303-315), plain data stores, and GC_memcpy (src/gc_memcpy.c). */
module Barrier {
  import opened Cells
  import opened Bitmaps
  import opened RememberedSets
  import opened LowMemory
  import opened Simulation
  import opened Generations
  import opened Worlds
  import opened Mutating
  import opened Collectors

  /** The barrier part of GC_STORE_CAP(*slot, y): a slot in the old region that is about to lead into the
      young one is remembered. */
  method Bar(gc: Collector, slot: int, y: Cell)
    requires gc.Wired() && gc.PartsValid() && (gc.elder.tospace.Contains(slot) ==> slot != 0)
    modifies gc.young.remset, gc.young.remset.roots
    ensures gc.Wired() && gc.PartsValid()
    ensures gc.young.remset.Slots() ==
              if gc.elder.tospace.base <= slot < gc.elder.tospace.base + gc.elder.tospace.len &&
                 gc.young.tospace.base <= y.Base() < gc.young.tospace.base + gc.young.tospace.len
              then old(gc.young.remset.Slots()) + {slot} else old(gc.young.remset.Slots())
    ensures gc.young.remset.roots == old(gc.young.remset.roots) || fresh(gc.young.remset.roots)
    ensures fresh(gc.Footprint() - old(gc.Footprint()))
  {
    hide Inv, NoDuplicates, Packs, Tiled, TableOk, Bitmap.Valid;
    if gc.elder.tospace.Contains(slot) {
      if gc.young.tospace.Contains(y.Base()) {
        gc.young.remset.Add(slot);
      }
    }
  }

  lemma SlotFacts(w: World, slot: int, c: Cell)
    requires Coherent(w) && slot in w.who
    ensures 0 <= slot < |w.m| && (w.elder.space.Contains(slot) ==> slot != 0)
    ensures w.who[slot].id < |w.heap.objs| && w.who[slot].off < |w.heap.objs[w.who[slot].id]|
    ensures var remembered := if w.elder.space.Contains(slot) && w.young.space.Contains(c.Base())
                              then w.remembered + {slot} else w.remembered;
            Barred(w, slot, c, remembered)
    ensures c.Data? ==> Barred(w, slot, c, w.remembered)
  {
    hide Extents, HeadsClean, Simulates, Tiled;
    StoreBounds(w, slot);
    YoungBase(w);
  }

  lemma YoungBase(w: World)
    requires Geometry(w)
    ensures w.elder.space.base > 0 && w.young.space.base >= 0
  {
    hide Tiled;
  }

  /** GC_STORE_CAP on a cell of an object.  Whatever is stored, memory goes on representing the client's
      heap; only a leftover forwarding capability, stored in the first cell of an object, makes that
      object look as if it had been copied. */
  method StoreCap(gc: Collector, slot: int, y: Cell, ghost v: Value)
    requires gc.Accords() && slot in gc.who && Represents(gc.heap, gc.who, v, y)
    modifies gc`heap, gc.h`mem, gc.young.remset, gc.young.remset.roots
    ensures gc.Accords() && gc.who == old(gc.who)
    ensures old(gc.Valid()) ==> (gc.Valid() <==> !(y.IsForwarding() && gc.who[slot].off == 0))
    ensures gc.who[slot].off != 0 ==> gc.Valid() == old(gc.Valid())
    ensures old(gc.who[slot]).id < |old(gc.heap.objs)|
    ensures old(gc.who[slot]).off < |old(gc.heap.objs)[old(gc.who[slot]).id]|
    ensures gc.heap == WithCell(old(gc.heap), old(gc.who[slot]), v)
    ensures 0 <= slot < |old(gc.h.mem)| && gc.h.mem == old(gc.h.mem)[slot := y]
    ensures gc.young.remset.roots == old(gc.young.remset.roots) || fresh(gc.young.remset.roots)
    ensures fresh(gc.Footprint() - old(gc.Footprint()))
  {
    hide Coherent, Clean, NoDuplicates, Packs, Tiled, TableOk, Bitmap.Valid, Represents, Barred;
    ghost var w := gc.Snapshot();
    SlotFacts(w, slot, y);
    Bar(gc, slot, y);
    gc.h.mem := gc.h.mem[slot := y];
    TableStays(gc.h.table, gc.h.roots, w.m, gc.h.mem);
    gc.heap := WithCell(w.heap, w.who[slot], v);
    StoreKeepsCoherent(w, slot, v, y, gc.young.remset.Slots());
    StoreClean(w, slot, y, gc.h.mem);
    assert gc.Snapshot() == AfterStore(w, slot, v, y, gc.young.remset.Slots());
    CleanIs(gc.Snapshot());
  }

  lemma CleanIs(w: World)
    ensures Clean(w) <==> HeadsClean(w.young, w.m) && HeadsClean(w.elder, w.m)
  {
  }

  lemma RootFacts(w: World, r: nat)
    requires Inv(w) && r < w.roots.len
    ensures |w.heap.roots| == w.roots.len && 0 <= w.roots.base && w.roots.End() <= |w.m|
    ensures !w.elder.space.Contains(w.roots.base + r) && w.roots.base + r !in w.who
  {
    hide Extents, HeadsClean, Simulates, Tiled;
    RootBounds(w, r);
    assert w.roots.Contains(w.roots.base + r);
  }

  /** GC_STORE_CAP on a root: the barrier finds that the slot is not old. */
  method StoreRoot(gc: Collector, r: nat, y: Cell, ghost v: Value)
    requires gc.Valid() && r < gc.h.roots.len && Represents(gc.heap, gc.who, v, y)
    modifies gc`heap, gc.h`mem, gc.young.remset, gc.young.remset.roots
    ensures gc.Valid() && gc.who == old(gc.who)
    ensures r < |old(gc.heap.roots)| && gc.heap == WithRoot(old(gc.heap), r, v)
    ensures gc.young.remset.roots == old(gc.young.remset.roots) || fresh(gc.young.remset.roots)
    ensures fresh(gc.Footprint() - old(gc.Footprint()))
  {
    hide Inv, NoDuplicates, Packs, Tiled, TableOk, Bitmap.Valid, Represents;
    ghost var w := gc.Snapshot();
    RootFacts(w, r);
    Bar(gc, gc.h.roots.base + r, y);
    RootKeepsInv(w, r, v, y);
    gc.h.mem := gc.h.mem[gc.h.roots.base + r := y];
    TableStays(gc.h.table, gc.h.roots, w.m, gc.h.mem);
    gc.heap := WithRoot(w.heap, r, v);
    assert gc.Snapshot() == AfterRoot(w, r, v, y);
  }

  /** A plain store of data into a cell of an object, without a barrier.  The client may forget what it
      stored (Unknown). */
  method StoreData(gc: Collector, slot: int, bits: int, ghost v: Value)
    requires gc.Valid() && slot in gc.who && v in {Unknown, Number(bits)}
    modifies gc`heap, gc.h`mem
    ensures gc.Valid() && gc.who == old(gc.who)
    ensures gc.who[slot].id < |old(gc.heap.objs)| && gc.who[slot].off < |old(gc.heap.objs)[gc.who[slot].id]|
    ensures gc.heap == WithCell(old(gc.heap), gc.who[slot], v)
    ensures 0 <= slot < |old(gc.h.mem)| && gc.h.mem == old(gc.h.mem)[slot := Data(bits)]
    ensures gc.Footprint() == old(gc.Footprint())
  {
    hide Inv, NoDuplicates, Packs, Tiled, TableOk, Bitmap.Valid, Barred, RememberedSet.Valid;
    ghost var w := gc.Snapshot();
    InvAccords(w);
    SlotFacts(w, slot, Data(bits));
    StoreKeepsInv(w, slot, v, Data(bits), w.remembered);
    gc.h.mem := gc.h.mem[slot := Data(bits)];
    TableStays(gc.h.table, gc.h.roots, w.m, gc.h.mem);
    gc.heap := WithCell(w.heap, w.who[slot], v);
    assert gc.Snapshot() == AfterStore(w, slot, v, Data(bits), w.remembered);
  }

  // ---------------------------------------------------------------- bulk copies

  /** What the client knows of a cell after its bytes have been copied without the tag. */
  function Bytes(v: Value): Value {
    if v.Number? then v else Unknown
  }

  /** A copy of n cells from s to d in the client's heap, in progress: the first i cells have been copied
      as capabilities or data, the next ones up to k as bytes. */
  function PartlyCopied(h: Heap, d: Place, s: Place, i: nat, k: nat): Heap
    requires d.id < |h.objs|
  {
    Heap(h.objs[d.id := seq(|h.objs[d.id]|, x requires 0 <= x < |h.objs[d.id]| =>
      if d.off <= x < d.off + i then At(h, Place(s.id, s.off + (x - d.off)))
      else if d.off <= x < d.off + k then Bytes(At(h, Place(s.id, s.off + (x - d.off))))
      else h.objs[d.id][x])], h.roots)
  }

  /** n cells from s on can be copied to d on: both lie inside objects and do not overlap. */
  ghost predicate Copyable(h: Heap, d: Place, s: Place, n: nat) {
    && d.id < |h.objs| && s.id < |h.objs|
    && d.off + n <= |h.objs[d.id]| && s.off + n <= |h.objs[s.id]|
    && (d.id == s.id ==> d.off + n <= s.off || s.off + n <= d.off)
  }

  lemma CopyByte(h: Heap, d: Place, s: Place, n: nat, k: nat)
    requires Copyable(h, d, s, n) && k < n
    ensures var h1 := PartlyCopied(h, d, s, 0, k);
            && At(h1, Place(s.id, s.off + k)) == At(h, Place(s.id, s.off + k))
            && |h1.objs[d.id]| == |h.objs[d.id]|
            && WithCell(h1, Place(d.id, d.off + k), Bytes(At(h, Place(s.id, s.off + k)))) ==
                PartlyCopied(h, d, s, 0, k + 1)
  {
    var h1 := PartlyCopied(h, d, s, 0, k);
    var h2 := WithCell(h1, Place(d.id, d.off + k), Bytes(At(h, Place(s.id, s.off + k))));
    assert h2.objs[d.id] == PartlyCopied(h, d, s, 0, k + 1).objs[d.id];
    assert h2.objs == PartlyCopied(h, d, s, 0, k + 1).objs;
  }

  lemma CopyTag(h: Heap, d: Place, s: Place, n: nat, i: nat)
    requires Copyable(h, d, s, n) && i < n
    ensures var h1 := PartlyCopied(h, d, s, i, n);
            var v := At(h, Place(s.id, s.off + i));
            && At(h1, Place(s.id, s.off + i)) == v
            && |h1.objs[d.id]| == |h.objs[d.id]|
            && WithCell(h1, Place(d.id, d.off + i), v) == PartlyCopied(h, d, s, i + 1, n)
            && (!v.Ref? ==> h1 == PartlyCopied(h, d, s, i + 1, n))
  {
    var h1 := PartlyCopied(h, d, s, i, n);
    var v := At(h, Place(s.id, s.off + i));
    var h2 := WithCell(h1, Place(d.id, d.off + i), v);
    assert h2.objs[d.id] == PartlyCopied(h, d, s, i + 1, n).objs[d.id];
    assert h2.objs == PartlyCopied(h, d, s, i + 1, n).objs;
    if !v.Ref? {
      assert h1.objs[d.id][d.off + i] == Bytes(v) == v;
      assert h1.objs[d.id] == PartlyCopied(h, d, s, i + 1, n).objs[d.id];
      assert h1.objs == PartlyCopied(h, d, s, i + 1, n).objs;
    }
  }

  lemma CopyNothing(h: Heap, d: Place, s: Place)
    requires d.id < |h.objs|
    ensures PartlyCopied(h, d, s, 0, 0) == h
  {
    assert PartlyCopied(h, d, s, 0, 0).objs[d.id] == h.objs[d.id];
    assert PartlyCopied(h, d, s, 0, 0).objs == h.objs;
  }

  /** The n addresses from a on are the n places from p on. */
  ghost predicate Spans(who: Places, a: int, p: Place, n: nat) {
    forall x :: a <= x < a + n ==> x in who && who[x] == Place(p.id, p.off + (x - a))
  }

  lemma CellKnown(w: World, a: int)
    requires Coherent(w) && a in w.who
    ensures 0 <= a < |w.m| && Represents(w.heap, w.who, At(w.heap, w.who[a]), w.m[a])
  {
    hide Geometry, Owned, HeadsClean, Remembers, Represents;
  }

  lemma BytesKnown(h: Heap, who: Places, v: Value, c: Cell)
    requires Represents(h, who, v, c)
    ensures Bytes(v) in {Unknown, Number(Untagged(c).bits)}
    ensures v != Unknown ==> (c.Tagged? <==> v.Ref?) && !c.IsForwarding()
  {
  }

  lemma CopyableAt(h: Heap, d: Place, s: Place, n: nat)
    requires Copyable(h, d, s, n)
    ensures d.id < |h.objs|
  {
  }

  /** The first address that is copied from is not copied to. */
  lemma SourceApart(h: Heap, who: Places, dest: int, src: int, n: nat, d: Place, s: Place)
    requires Copyable(h, d, s, n) && Spans(who, dest, d, n) && Spans(who, src, s, n) && n > 0
    ensures !(dest <= src < dest + n)
  {
    assert src in who && who[src] == Place(s.id, s.off);
  }

  lemma AddressInMemory(gc: Collector, a: int, p: Place, n: nat, i: nat)
    requires gc.Accords() && Spans(gc.who, a, p, n) && i < n
    ensures 0 <= a + i < |gc.h.mem|
  {
    hide Coherent, NoDuplicates, Packs, Tiled, TableOk, Bitmap.Valid, RememberedSet.Valid;
    assert a + i in gc.who;
    CellKnown(gc.Snapshot(), a + i);
  }

  lemma ValidAccords(gc: Collector)
    requires gc.Valid()
    ensures gc.Accords()
  {
    hide Coherent, Clean;
  }

  /** The bytes part of GC_memcpy: memcpy, cell by cell.  Copied bytes carry no tag, so a copied
      capability is for the moment nothing the client knows. */
  method CopyBytes(gc: Collector, dest: int, src: int, n: nat, ghost d: Place, ghost s: Place)
    requires gc.Valid() && Copyable(gc.heap, d, s, n) && Spans(gc.who, dest, d, n) && Spans(gc.who, src, s, n)
    modifies gc`heap, gc.h`mem
    ensures gc.Valid() && gc.who == old(gc.who)
    ensures d.id < |old(gc.heap.objs)| && gc.heap == PartlyCopied(old(gc.heap), d, s, 0, n)
    ensures |gc.h.mem| == |old(gc.h.mem)|
    ensures forall a :: 0 <= a < |gc.h.mem| && !(dest <= a < dest + n) ==> gc.h.mem[a] == old(gc.h.mem)[a]
  {
    hide Inv, Coherent, NoDuplicates, Packs, Tiled, TableOk, Bitmap.Valid, RememberedSet.Valid, PartlyCopied,
      Represents,
      WithCell, Copyable, Bytes;
    ghost var h0 := gc.heap;
    CopyableAt(h0, d, s, n);
    CopyNothing(h0, d, s);
    var i := 0;
    while i < n
      invariant 0 <= i <= n
      invariant gc.Valid() && gc.who == old(gc.who) && gc.heap == PartlyCopied(h0, d, s, 0, i)
      invariant |gc.h.mem| == |old(gc.h.mem)|
      invariant forall a :: 0 <= a < |gc.h.mem| && !(dest <= a < dest + i) ==> gc.h.mem[a] == old(gc.h.mem)[a]
    {
      CopyByte(h0, d, s, n, i);
      InvAccords(gc.Snapshot());
      CellKnown(gc.Snapshot(), src + i);
      ghost var v := At(h0, Place(s.id, s.off + i));
      BytesKnown(gc.heap, gc.who, v, gc.h.mem[src + i]);
      StoreData(gc, dest + i, Untagged(gc.h.mem[src + i]).bits, Bytes(v));
      i := i + 1;
    }
  }

  lemma InvAccords(w: World)
    ensures Inv(w) <==> Coherent(w) && Clean(w)
  {
  }

  /** One step of the second part of GC_memcpy: cell i is stored again if it is tagged.  This can spoil
      the start of the destination object only. */
  method RestoreTag(gc: Collector, dest: int, src: int, n: nat, i: nat, ghost h0: Heap, ghost d: Place, ghost s: Place)
    requires gc.Accords() && Copyable(h0, d, s, n) && Spans(gc.who, dest, d, n) && Spans(gc.who, src, s, n)
    requires i < n && d.id < |h0.objs| && gc.heap == PartlyCopied(h0, d, s, i, n)
    requires 0 <= src + i < |gc.h.mem|
    modifies gc`heap, gc.h`mem, gc.young.remset, gc.young.remset.roots
    ensures gc.Accords() && gc.who == old(gc.who) && gc.heap == PartlyCopied(h0, d, s, i + 1, n)
    ensures old(gc.Valid()) ==> (gc.Valid() <==> !(d.off + i == 0 && old(gc.h.mem)[src + i].IsForwarding()))
    ensures d.off + i != 0 ==> gc.Valid() == old(gc.Valid())
    ensures |gc.h.mem| == |old(gc.h.mem)|
    ensures forall a :: 0 <= a < |gc.h.mem| && a != dest + i ==> gc.h.mem[a] == old(gc.h.mem)[a]
    ensures gc.young.remset.roots == old(gc.young.remset.roots) || fresh(gc.young.remset.roots)
    ensures fresh(gc.Footprint() - old(gc.Footprint()))
  {
    hide Inv, Coherent, NoDuplicates, Packs, Tiled, TableOk, Bitmap.Valid, RememberedSet.Valid, PartlyCopied,
      Represents,
      WithCell, Copyable, Bytes;
    CopyTag(h0, d, s, n, i);
    CopyableAt(h0, d, s, n);
    CellKnown(gc.Snapshot(), src + i);
    ghost var v := At(h0, Place(s.id, s.off + i));
    BytesKnown(gc.heap, gc.who, v, gc.h.mem[src + i]);
    if gc.h.mem[src + i].Tagged? {
      StoreCap(gc, dest + i, gc.h.mem[src + i], v);
    }
  }

  /** GC_memcpy on whole cells that do not overlap: the bytes are copied, and then every cell that is
      tagged in the source is stored again through the barrier.  The client's heap is copied, leftovers
      as what they are, and the invariant survives unless the first cell of an object was filled with a
      leftover forwarding capability. */
  method GCMemcpy(gc: Collector, dest: int, src: int, n: nat, ghost d: Place, ghost s: Place)
    requires gc.Valid() && Copyable(gc.heap, d, s, n) && Spans(gc.who, dest, d, n) && Spans(gc.who, src, s, n)
    modifies gc`heap, gc.h`mem, gc.young.remset, gc.young.remset.roots
    ensures gc.Accords() && gc.who == old(gc.who)
    ensures n > 0 ==> 0 <= src < |old(gc.h.mem)|
    ensures gc.Valid() <==> !(n > 0 && d.off == 0 && old(gc.h.mem)[src].IsForwarding())
    ensures d.id < |old(gc.heap.objs)| && gc.heap == PartlyCopied(old(gc.heap), d, s, n, n)
    ensures gc.young.remset.roots == old(gc.young.remset.roots) || fresh(gc.young.remset.roots)
    ensures fresh(gc.Footprint() - old(gc.Footprint()))
  {
    hide Inv, Coherent, NoDuplicates, Packs, Tiled, TableOk, Bitmap.Valid, RememberedSet.Valid, PartlyCopied,
      Represents,
      WithCell, Copyable, Bytes, Spans, Collector.PartsValid, Collector.Snapshot, Collector.Valid;
    ghost var h0, m0 := gc.heap, gc.h.mem;
    CopyableAt(h0, d, s, n);
    ValidAccords(gc);
    if n > 0 {
      SourceApart(h0, gc.who, dest, src, n, d, s);
      AddressInMemory(gc, src, s, n, 0);
    }
    CopyBytes(gc, dest, src, n, d, s);
    ValidAccords(gc);
    ghost var spoilt := n > 0 && d.off == 0 && m0[src].IsForwarding();
    var i := 0;
    while i < n
      invariant 0 <= i <= n
      invariant gc.Accords() && gc.who == old(gc.who) && gc.heap == PartlyCopied(h0, d, s, i, n)
      invariant i == 0 && n > 0 ==> |gc.h.mem| == |m0| && gc.h.mem[src] == m0[src]
      invariant gc.Valid() <==> !(i > 0 && spoilt)
      invariant gc.young.remset == old(gc.young.remset)
      invariant gc.young.remset.roots == old(gc.young.remset.roots) || fresh(gc.young.remset.roots)
    {
      AddressInMemory(gc, src, s, n, i);
      RestoreTag(gc, dest, src, n, i, h0, d, s);
      i := i + 1;
    }
  }

  /** A finished copy, cell by cell. */
  lemma CopyResult(h: Heap, d: Place, s: Place, n: nat)
    requires Copyable(h, d, s, n)
    ensures var h' := PartlyCopied(h, d, s, n, n);
            && |h'.objs| == |h.objs| && h'.roots == h.roots
            && (forall i :: 0 <= i < |h.objs| && i != d.id ==> h'.objs[i] == h.objs[i])
            && |h'.objs[d.id]| == |h.objs[d.id]|
            && (forall x :: d.off <= x < d.off + n ==> h'.objs[d.id][x] == At(h, Place(s.id, s.off + (x - d.off))))
            && (forall x :: 0 <= x < |h.objs[d.id]| && !(d.off <= x < d.off + n) ==>
                h'.objs[d.id][x] == h.objs[d.id][x])
  {
  }
}
