/** The copying collector proper (src/gc_collect.c:150-475): GC_copy_object, GC_copy_child,
    GC_copy_roots, GC_copy_children, GC_copy_remembered_set and GC_copy_region. */
module Copy {
  import opened Cells
  import opened Bitmaps
  import opened RememberedSets
  import opened Regions
  import opened Copying
  import opened LowMemory

  /** The two bitmaps of a region that is being copied within. */
  ghost predicate Bitmapped(r: Region)
    reads r, r.tospaceBitmap, r.tospaceBitmap.bytes, r.fromspaceBitmap
    reads if r.fromspaceBitmap != null then {r.fromspaceBitmap.bytes} else {}
  {
    && r.Valid()
    && r.fromspaceBitmap != null && r.fromspaceBitmap.Valid()
    && r.tospaceBitmap != r.fromspaceBitmap
    && r.tospaceBitmap.bytes != r.fromspaceBitmap.bytes
  }

  /** A collection j is under way in region r and g is the relocation so far. */
  ghost predicate Collecting(h: Machine, r: Region, j: Job, g: Moves)
    reads h, r, r.tospaceBitmap, r.tospaceBitmap.bytes, r.fromspaceBitmap
    reads if r.fromspaceBitmap != null then {r.fromspaceBitmap.bytes} else {}
  {
    && Bitmapped(r)
    && r.fromspace == j.from && r.tospace == j.to && r.fromspaceBitmap.objects == j.objects
    && Consistent(j, g, h.mem, r.Objects(), r.free.base)
  }

  /** GC_copy_object: the copy of the object that cap spans exactly, made now if there is none yet. */
  method CopyObject(h: Machine, r: Region, cap: Capability, ghost j: Job, ghost g: Moves)
    returns (tmp: Capability, ghost g': Moves)
    requires Collecting(h, r, j, g)
    requires j.IsHead(cap.base) && cap.len == j.Size(cap.base) && Reachable(j, cap.base)
    modifies h`mem, r`free, r.tospaceBitmap`used, r.tospaceBitmap`objects, r.tospaceBitmap.bytes
    ensures Collecting(h, r, j, g')
    ensures cap.base in g'.dst && tmp == Capability(g'.dst[cap.base], cap.len, false)
    ensures cap.base in g.dst ==> g' == g && h.mem == old(h.mem) && r.free == old(r.free)
    ensures cap.base !in g.dst ==>
              && g' == CopyOf(j, g, cap.base, old(r.free.base))
              && r.free.base == old(r.free.base) + cap.len
              && CopiedOver(j, old(h.mem), h.mem, cap.base, old(r.free.base))
  {
    hide Consistent, Reachable, CopyOf, Tiled, Packs;
    ReadyToCopy(j, g, h.mem, r.Objects(), cap.base, r.free.base);
    ghost var m0 := h.mem;
    var forwarding := h.mem[cap.base];
    if forwarding.Tagged? {
      if forwarding.IsForwarding() {
        tmp := forwarding.cap.(forwarding := false);
        g' := g;
        return;
      }
    }
    h.CapMemcpy(r.free, Space(cap.base, cap.len));
    tmp := Capability(r.free.base, cap.len, false);
    r.free := Space(r.free.base + cap.len, r.free.len - cap.len);
    r.tospaceBitmap.Allocate(cap.len);
    h.mem := h.mem[cap.base := Tagged(tmp.(forwarding := true))];
    g' := CopyOf(j, g, cap.base, tmp.base);
    CopyOfCells(j, g, cap.base, tmp.base);
    CopyKeepsConsistent(j, g, m0, h.mem, old(r.Objects()), cap.base, tmp.base);
  }

  /** The bitmap lookup in GC_copy_child and GC_copy_roots: whether a capability into the fromspace
      leads into an object that it does not reach past, and which object that is.  A capability to the
      whole object is found as it is, which leaves the offset at -1. */
  method FindObject(r: Region, cap: Capability, ghost j: Job) returns (valid: bool, offset: int, len: nat)
    requires Bitmapped(r) && r.fromspace == j.from && r.fromspaceBitmap.objects == j.objects
    requires j.from.Contains(cap.base)
    ensures valid <==> j.Movable(Tagged(cap))
    ensures valid ==>
              && -1 <= offset
              && (offset == -1 ==> j.IsHead(cap.base) && len == cap.len == j.Size(cap.base))
              && (offset != -1 ==>
                    && j.IsHead(cap.base - offset) && len == j.Size(cap.base - offset)
                    && j.SameObject(cap.base - offset, cap.base))
  {
    hide Packs;
    var pos := cap.base - r.fromspace.base;
    offset := -1;
    len := cap.len;
    var exact := r.fromspaceBitmap.Find(pos, cap.len);
    if !exact {
      var found, relbase;
      found, relbase, len := r.fromspaceBitmap.GetContainer(pos);
      if !found {
        return false, -1, 0;
      }
      if cap.len > len - relbase {
        return false, -1, 0;
      }
      offset := relbase;
      assert j.objects[j.BlockOf(cap.base).lo] == j.BlockOf(cap.base);
    }
    return true, offset, len;
  }

  /** GC_copy_child: redirects the capability in `slot` to the copy of the object it leads to, made
      now if there is none yet.  The slot first becomes a capability to the whole object; the offset
      and the length are put back afterwards. */
  method CopyChild(h: Machine, r: Region, slot: int, ghost j: Job, ghost g: Moves) returns (ghost g': Moves)
    requires Collecting(h, r, j, g)
    requires 0 <= slot < |h.mem| && !j.from.Contains(slot) && !(r.free.base <= slot < j.to.End())
    requires j.Movable(h.mem[slot]) ==> Reachable(j, h.mem[slot].cap.base)
    modifies h`mem, r`free, r.tospaceBitmap`used, r.tospaceBitmap`objects, r.tospaceBitmap.bytes
    ensures Collecting(h, r, j, g')
    ensures Step(j, g, g', old(h.mem), h.mem, slot, old(r.free.base), r.free.base)
    ensures Processed(j, g', h.mem, slot, old(h.mem[slot]))
  {
    hide Consistent, Reachable, CopyOf, CopiedOver, Tiled, Packs, Step, Processed, Job.Movable, Bitmap.Valid,
      Region.Valid;
    g' := g;
    ghost var m, free, copies := h.mem, r.free.base, r.Objects();
    var child := h.mem[slot];
    if child.Tagged? && r.fromspace.Contains(child.cap.base) {
      var valid, offset, len := FindObject(r, child.cap, j);
      if !valid {
        SkipIsStep(j, g, m, copies, slot, free);
        return;
      }
      if offset != -1 {
        h.mem := h.mem[slot := Tagged(child.cap.(base := child.cap.base - offset, len := len))];
        WriteKeepsConsistent(j, g, m, copies, free, slot, h.mem[slot]);
      }
      ghost var m1 := h.mem;
      var cap := h.mem[slot].cap;
      SameObjectReachable(j, child.cap.base, cap.base);
      var tmp;
      tmp, g' := CopyObject(h, r, cap, j, g);
      ghost var m2 := h.mem;
      RedirectIsStep(j, g, g', m, m1, m2, copies, r.Objects(), slot, cap, tmp,
                     child.cap.base - cap.base, free, r.free.base);
      h.mem := h.mem[slot := Tagged(tmp)];
      if offset != -1 {
        h.mem := h.mem[slot := Tagged(tmp.(base := tmp.base + offset, len := child.cap.len))];
      }
      assert h.mem == m2[slot := h.mem[slot]];
    } else {
      OutsideNotMovable(j, child);
      SkipIsStep(j, g, m, copies, slot, free);
    }
  }

  /** One slot of the copy: GC_copy_child on a slot that has not been processed. */
  method CopySlot(h: Machine, r: Region, slot: int, ghost j: Job, ghost g: Moves, ghost done: set<int>)
    returns (ghost g': Moves)
    requires Collecting(h, r, j, g) && Running(j, g, h.mem, r.free.base, done, j.start)
    requires slot in j.slots && slot !in done
    modifies h`mem, r`free, r.tospaceBitmap`used, r.tospaceBitmap`objects, r.tospaceBitmap.bytes
    ensures Collecting(h, r, j, g') && Running(j, g', h.mem, r.free.base, done + {slot}, j.start)
  {
    hide WholeObjects, ForwardingExact, Reachable, Step, Processed, Tiled, Packs, Job.Movable, SlotsDone, Scanned,
      OthersKept, CopiesRecorded;
    ghost var m, free := h.mem, r.free.base;
    SlotReady(j, g, m, free, done, j.start, slot);
    g' := CopyChild(h, r, slot, j, g);
    StepOnSlot(j, g, g', m, h.mem, slot, free, r.free.base, done, j.start);
  }

  /** GC_copy_roots: every cell from start to end is a root. */
  method CopyRoots(h: Machine, r: Region, start: int, end: int, ghost j: Job, ghost g: Moves)
    returns (ghost g': Moves)
    requires Collecting(h, r, j, g) && Running(j, g, h.mem, r.free.base, {}, j.start)
    requires start <= end && Interval(start, end) <= j.slots
    modifies h`mem, r`free, r.tospaceBitmap`used, r.tospaceBitmap`objects, r.tospaceBitmap.bytes
    ensures Collecting(h, r, j, g') && Running(j, g', h.mem, r.free.base, Interval(start, end), j.start)
  {
    hide Collecting, Consistent, Running, Step, Processed, Reachable, Job.Movable;
    g' := g;
    var p := start;
    assert Interval(start, start) == {};
    while p < end
      invariant start <= p <= end
      invariant Collecting(h, r, j, g') && Running(j, g', h.mem, r.free.base, Interval(start, p), j.start)
    {
      g' := CopySlot(h, r, p, j, g', Interval(start, p));
      assert Interval(start, p + 1) == Interval(start, p) + {p};
      p := p + 1;
    }
  }

  /** GC_copy_remembered_set: every remembered slot is a root too; afterwards nothing is remembered. */
  method CopyRememberedSet(h: Machine, r: Region, remset: RememberedSet, ghost j: Job, ghost g: Moves,
                           ghost done: set<int>)
    returns (ghost g': Moves)
    requires Collecting(h, r, j, g) && Running(j, g, h.mem, r.free.base, done, j.start)
    requires remset.Valid() && remset.Slots() <= j.slots && remset.Slots() !! done
    requires remset.roots as object != r.tospaceBitmap.bytes
    modifies h`mem, r`free, r.tospaceBitmap`used, r.tospaceBitmap`objects, r.tospaceBitmap.bytes, remset`nroots
    ensures Collecting(h, r, j, g')
    ensures Running(j, g', h.mem, r.free.base, done + old(remset.Slots()), j.start)
    ensures remset.Valid() && remset.Slots() == {}
  {
    hide Consistent, Running, Bitmap.Valid, Region.Valid;
    g' := g;
    ghost var slots := remset.roots[..remset.nroots];
    ghost var processed: set<int> := {};
    assert done + processed == done;
    var i := 0;
    while i < remset.nroots
      invariant i <= remset.nroots == |slots|
      invariant remset.Valid() && remset.roots[..remset.nroots] == slots
      invariant processed == set a | a in slots[..i]
      invariant Collecting(h, r, j, g') && Running(j, g', h.mem, r.free.base, done + processed, j.start)
    {
      assert slots[i] in remset.Slots();
      assert slots[i] !in slots[..i];
      g' := CopySlot(h, r, remset.roots[i], j, g', done + processed);
      assert slots[..i + 1] == slots[..i] + [slots[i]];
      processed := processed + {slots[i]};
      assert done + processed == done + (processed - {slots[i]}) + {slots[i]};
      i := i + 1;
    }
    assert slots[..i] == slots;
    remset.Clear();
  }

  /** GC_copy_children: every copied cell is scanned, until the scan meets the free end. */
  method CopyChildren(h: Machine, r: Region, ghost j: Job, ghost g: Moves) returns (ghost g': Moves)
    requires Collecting(h, r, j, g) && Running(j, g, h.mem, r.free.base, j.slots, j.start)
    requires r.scan == j.start
    modifies h`mem, r`free, r`scan, r.tospaceBitmap`used, r.tospaceBitmap`objects, r.tospaceBitmap.bytes
    ensures Collecting(h, r, j, g') && Complete(j, g', h.mem, r.Objects(), r.free.base)
    ensures r.scan == r.free.base
  {
    hide WholeObjects, ForwardingExact, Reachable, Step, Processed, Tiled, Packs, Job.Movable, Job.Valid, SlotsDone,
      Scanned, OthersKept, OnlyReachable, Extends;
    g' := g;
    while r.scan < r.free.base
      invariant Collecting(h, r, j, g')
      invariant Running(j, g', h.mem, r.free.base, j.slots, r.scan)
      invariant j.start <= r.scan <= r.free.base
      decreases j.to.End() - r.scan
    {
      ghost var m, free := h.mem, r.free.base;
      CopyReady(j, g', m, r.Objects(), free, j.slots, r.scan);
      ghost var g0 := g';
      g' := CopyChild(h, r, r.scan, j, g');
      StepOnCopy(j, g0, g', m, h.mem, r.scan, free, r.free.base, j.slots);
      r.scan := r.scan + 1;
    }
  }

  /** GC_copy_region: copies what the roots (and, for a promotion, the remembered slots) reach. */
  method CopyRegion(h: Machine, r: Region, roots: Space, isGenerational: bool, ghost j: Job) returns (ghost g: Moves)
    requires j.Valid() && j.m0 == h.mem && j.start == r.free.base && j.kept == r.Objects()
    requires Bitmapped(r)
    requires r.fromspace == j.from && r.tospace == j.to && r.fromspaceBitmap.objects == j.objects
    requires r.scan == r.free.base
    requires isGenerational ==>
               && r.remset != null && r.remset.Valid()
               && r.remset.roots as object != r.tospaceBitmap.bytes
               && j.slots == Interval(roots.base, roots.End()) + r.remset.Slots()
               && Interval(roots.base, roots.End()) !! r.remset.Slots()
    requires !isGenerational ==> j.slots == Interval(roots.base, roots.End())
    modifies h`mem, r`free, r`scan, r.tospaceBitmap`used, r.tospaceBitmap`objects, r.tospaceBitmap.bytes
    modifies (if isGenerational && r.remset != null then {r.remset} else {})`nroots
    ensures Collecting(h, r, j, g) && Complete(j, g, h.mem, r.Objects(), r.free.base)
    ensures r.scan == r.free.base
    ensures isGenerational ==> r.remset.Valid() && r.remset.Slots() == {} && r.remset.roots == old(r.remset.roots)
  {
    hide Consistent, Running, Tiled, Complete, Packs, Job.Valid;
    g := Moves(map[], map[]);
    StartsRunning(j, r.Objects());
    ghost var rootSet := Interval(roots.base, roots.End());
    g := CopyRoots(h, r, roots.base, roots.End(), j, g);
    if isGenerational {
      g := CopyRememberedSet(h, r, r.remset, j, g, rootSet);
    }
    g := CopyChildren(h, r, j, g);
  }
}
