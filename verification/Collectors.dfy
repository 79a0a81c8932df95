/** The whole collector: GC_state_struct (src/inc/gc_init.h) with its two regions, the memory under
    it, and what the memory represents to the client. */
module Collectors {
  import opened Cells
  import opened LowMemory
  import opened Regions
  import opened Simulation
  import opened Generations
  import opened Worlds

  class Collector {
    const h: Machine
    /** GC_state.thread_local_region */
    const young: Region
    /** GC_state.old_generation */
    const elder: Region
    /** The place of the client's objects in memory, and the heap as the client sees it. */
    ghost var who: Places
    ghost var heap: Heap
    /** How often a collection of the young region has found no room in the old one, and has left it as
        it was with a warning. */
    ghost var refusals: nat
    /** The state in which the young region was last collected. */
    ghost var collected: World

    constructor (h: Machine, young: Region, elder: Region)
      ensures this.h == h && this.young == young && this.elder == elder
      ensures who == map[] && heap == Heap([], seq(h.roots.len, _ => Unknown)) && refusals == 0
    {
      this.h, this.young, this.elder := h, young, elder;
      this.who, this.heap, this.refusals := map[], Heap([], seq(h.roots.len, _ => Unknown)), 0;
    }

    /** The structs and buffers of the collector are wired up and do not alias. */
    ghost predicate Wired()
      reads this, h, young, elder
      reads young.tospaceBitmap, elder.tospaceBitmap, elder.fromspaceBitmap, young.remset
    {
      && young.older == elder && elder.older == null && elder.remset == null
      && young.remset != null && elder.fromspaceBitmap != null
      && young.tospaceBitmap != elder.tospaceBitmap && young.tospaceBitmap != elder.fromspaceBitmap
      && elder.tospaceBitmap != elder.fromspaceBitmap
      && young.tospaceBitmap.bytes != elder.tospaceBitmap.bytes
      && young.tospaceBitmap.bytes != elder.fromspaceBitmap.bytes
      && elder.tospaceBitmap.bytes != elder.fromspaceBitmap.bytes
      && young.remset.roots as object != young.tospaceBitmap.bytes
      && young.remset.roots as object != elder.tospaceBitmap.bytes
      && young.remset.roots as object != elder.fromspaceBitmap.bytes
      && h.Valid()
      && Padded(young.tospace) in h.table && Padded(elder.tospace) in h.table && Padded(elder.fromspace) in h.table
    }

    /** The region invariant of both regions, and the other buffers. */
    ghost predicate PartsValid()
      requires Wired()
      reads this, h, young, elder
      reads young.tospaceBitmap, elder.tospaceBitmap, elder.fromspaceBitmap, young.remset
      reads young.tospaceBitmap.bytes, elder.tospaceBitmap.bytes
      reads if elder.fromspaceBitmap != null then {elder.fromspaceBitmap.bytes} else {}
      reads if young.remset != null then {young.remset.roots} else {}
    {
      && young.Valid() && elder.Valid() && young.remset.Valid()
      && elder.fromspaceBitmap.Valid() && elder.fromspaceBitmap.size == elder.fromspace.len
    }

    /** The state as a value. */
    ghost function Snapshot(): World
      requires Wired() && PartsValid()
      reads this, h, young, elder
      reads young.tospaceBitmap, elder.tospaceBitmap, elder.fromspaceBitmap, young.remset
      reads young.tospaceBitmap.bytes, elder.tospaceBitmap.bytes
      reads if elder.fromspaceBitmap != null then {elder.fromspaceBitmap.bytes} else {}
      reads if young.remset != null then {young.remset.roots} else {}
    {
      World(h.mem, h.roots, Gen(young.tospace, young.Objects()), Gen(elder.tospace, elder.Objects()),
                  elder.fromspace, young.remset.Slots(), who, heap)
    }

    ghost predicate Valid()
      reads this, h, young, elder
      reads young.tospaceBitmap, elder.tospaceBitmap, elder.fromspaceBitmap, young.remset
      reads young.tospaceBitmap.bytes, elder.tospaceBitmap.bytes
      reads if elder.fromspaceBitmap != null then {elder.fromspaceBitmap.bytes} else {}
      reads if young.remset != null then {young.remset.roots} else {}
    {
      Wired() && PartsValid() && Inv(Snapshot())
    }

    /** Everything Valid asks for but that no object starts with a forwarding capability. */
    ghost predicate Accords()
      reads this, h, young, elder
      reads young.tospaceBitmap, elder.tospaceBitmap, elder.fromspaceBitmap, young.remset
      reads young.tospaceBitmap.bytes, elder.tospaceBitmap.bytes
      reads if elder.fromspaceBitmap != null then {elder.fromspaceBitmap.bytes} else {}
      reads if young.remset != null then {young.remset.roots} else {}
    {
      Wired() && PartsValid() && Coherent(Snapshot())
    }

    /** What the operations of the collector may change. */
    ghost function Footprint(): set<object>
      requires Wired()
      reads this, h, young, elder
      reads young.tospaceBitmap, elder.tospaceBitmap, elder.fromspaceBitmap, young.remset
    {
      {this, h, young, elder, young.tospaceBitmap, young.tospaceBitmap.bytes,
       elder.tospaceBitmap, elder.tospaceBitmap.bytes, elder.fromspaceBitmap, elder.fromspaceBitmap.bytes,
       young.remset, young.remset.roots}
    }
  }
}
