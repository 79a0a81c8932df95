/** The collector's state: a region (struct GC_region, src/inc/gc_init.h) and the whole of it
    (struct GC_state_struct together with the memory it manages). */
module Regions {
  import opened Cells
  import opened Bitmaps
  import opened RememberedSets

  class Region {
    var tospace: Space
    var fromspace: Space
    /** The unallocated suffix of the tospace. */
    var free: Space
    var scan: int
    var tospaceBitmap: Bitmap
    /** Null in a young region, which has no fromspace of its own. */
    var fromspaceBitmap: Bitmap?
    /** The older generation; null in the old region (GC_is_young). */
    var older: Region?
    /** Null in the old region, except while it receives a promotion. */
    var remset: RememberedSet?
    /** How often the region has been collected. */
    var numCollections: nat
    /** Limits for GC_grow in bytes; 0 means no limit. */
    const maxBefore: nat
    const maxAfter: nat

    constructor (tospace: Space, fromspace: Space, tospaceBitmap: Bitmap, fromspaceBitmap: Bitmap?,
                 older: Region?, remset: RememberedSet?, maxBefore: nat, maxAfter: nat)
      ensures this.tospace == tospace && this.fromspace == fromspace && free == tospace
      ensures this.tospaceBitmap == tospaceBitmap && this.fromspaceBitmap == fromspaceBitmap
      ensures this.older == older && this.remset == remset
      ensures this.maxBefore == maxBefore && this.maxAfter == maxAfter && numCollections == 0
    {
      this.tospace, this.fromspace, this.free, this.scan := tospace, fromspace, tospace, 0;
      this.tospaceBitmap, this.fromspaceBitmap := tospaceBitmap, fromspaceBitmap;
      this.older, this.remset := older, remset;
      this.maxBefore, this.maxAfter, this.numCollections := maxBefore, maxAfter, 0;
    }

    /** The region invariant: used cells and free cells make up the tospace, and the bitmap covers
        the tospace and records exactly the used cells. */
    ghost predicate Valid()
      reads this, tospaceBitmap, tospaceBitmap.bytes
    {
      && tospaceBitmap.Valid()
      && tospaceBitmap.size == tospace.len
      && tospace.base + |tospaceBitmap.objects| == free.base
      && free.End() == tospace.End()
    }

    /** The allocated prefix of the tospace. */
    ghost function Objects(): Layout
      reads this, tospaceBitmap
    {
      tospaceBitmap.objects
    }
  }
}
