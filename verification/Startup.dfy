/** Initialisation (src/gc_init.c:31-57, 123-292): the two regions are set up and the collector's
    invariant holds, whatever the stack, the registers and the static data contain. */
module Startup {
  import opened Cells
  import opened Bitmaps
  import opened RememberedSets
  import opened LowMemory
  import opened Regions
  import opened Simulation
  import opened Worlds
  import opened Collectors
  import opened Collect

  /** GC_init_old_region: two separate blocks of the same size, each with a bitmap. */
  method InitOldRegion(h: Machine, semispaceSize: nat, maxBefore: nat, maxAfter: nat) returns (r: Region)
    requires h.Valid()
    modifies h`mem, h`table
    ensures h.Valid() && h.table == old(h.table) + [Padded(r.tospace), Padded(r.fromspace)]
    ensures fresh(r) && r.Valid() && r.Objects() == [] && r.older == null && r.remset == null
    ensures fresh(r.tospaceBitmap) && fresh(r.tospaceBitmap.bytes)
    ensures r.fromspaceBitmap != null && fresh(r.fromspaceBitmap) && fresh(r.fromspaceBitmap.bytes)
    ensures r.fromspaceBitmap.Valid() && r.fromspaceBitmap != r.tospaceBitmap
    ensures r.fromspaceBitmap.bytes != r.tospaceBitmap.bytes
    ensures 32 * r.tospace.len == Align32(semispaceSize)
    ensures r.tospace.len == r.fromspace.len == r.fromspaceBitmap.size
    ensures r.maxBefore == Align32(maxBefore) && r.maxAfter == Align32(maxAfter)
  {
    hide Packs, Tiled;
    var n := Align32(semispaceSize) / 32;
    var to := h.LowMalloc(n + 1);
    var from := h.LowMalloc(n + 1);
    var toBitmap := new Bitmap(n);
    var fromBitmap := new Bitmap(n);
    r := new Region(Space(to, n), Space(from, n), toBitmap, fromBitmap, null, null,
                    Align32(maxBefore), Align32(maxAfter));
  }

  /** GC_init_young_region: one block with a bitmap, and an empty remembered set. */
  method InitYoungRegion(h: Machine, older: Region, size: nat, maxBefore: nat, maxAfter: nat) returns (r: Region)
    requires h.Valid()
    modifies h`mem, h`table
    ensures h.Valid() && h.table == old(h.table) + [Padded(r.tospace)]
    ensures fresh(r) && r.Valid() && r.Objects() == [] && r.older == older
    ensures fresh(r.tospaceBitmap) && fresh(r.tospaceBitmap.bytes)
    ensures r.remset != null && fresh(r.remset) && fresh(r.remset.roots) && r.remset.Valid() && r.remset.Slots() == {}
    ensures r.remset.roots as object != r.tospaceBitmap.bytes
    ensures 32 * r.tospace.len == Align32(size)
    ensures r.maxBefore == Align32(maxBefore) && r.maxAfter == Align32(maxAfter)
  {
    hide Packs, Tiled, NoDuplicates;
    var n := Align32(size) / 32;
    var to := h.LowMalloc(n + 1);
    var bitmap := new Bitmap(n);
    var remset := new RememberedSet();
    r := new Region(Space(to, n), Space(0, 0), bitmap, null, older, remset, Align32(maxBefore), Align32(maxAfter));
  }

  /** Two empty generations in apart blocks satisfy the invariant; the client knows nothing about the
      roots. */
  lemma EmptyWorld(w: World, table: seq<Space>)
    requires TableOk(table, w.roots, w.m) && 3 <= |table|
    requires table[|table| - 3] == Padded(w.elder.space) && table[|table| - 2] == Padded(w.spare)
    requires table[|table| - 1] == Padded(w.young.space)
    requires w.young.objects == [] && w.elder.objects == [] && w.remembered == {}
    requires w.who == map[] && w.heap == Heap([], seq(w.roots.len, _ => Unknown))
    requires w.spare.len == w.elder.space.len
    ensures Inv(w)
  {
  }

  /** GC_init2, up to the two regions. */
  method Init(h: Machine, youngSize: nat, oldSize: nat, youngMaxBefore: nat, youngMaxAfter: nat,
              oldMaxBefore: nat, oldMaxAfter: nat) returns (gc: Collector)
    requires h.Valid()
    modifies h`mem, h`table
    ensures gc.h == h && fresh(gc) && gc.Valid() && fresh(gc.Footprint() - {h})
    ensures gc.heap == Heap([], seq(h.roots.len, _ => Unknown))
    ensures gc.young.free == gc.young.tospace && gc.elder.free == gc.elder.tospace && gc.refusals == 0
    ensures 32 * gc.young.tospace.len == Align32(youngSize) && 32 * gc.elder.tospace.len == Align32(oldSize)
    ensures gc.young.maxBefore == Align32(youngMaxBefore) && gc.young.maxAfter == Align32(youngMaxAfter)
    ensures gc.elder.maxBefore == Align32(oldMaxBefore) && gc.elder.maxAfter == Align32(oldMaxAfter)
  {
    hide Packs, Tiled, NoDuplicates, Inv, TableOk, Bitmap.Valid;
    var elder := InitOldRegion(h, oldSize, oldMaxBefore, oldMaxAfter);
    var young := InitYoungRegion(h, elder, youngSize, youngMaxBefore, youngMaxAfter);
    gc := new Collector(h, young, elder);
    EmptyWorld(gc.Snapshot(), h.table);
  }

  /** With sizes and limits of the young region of at most half the old one, and none on the old one, the
      collector starts out safe. */
  lemma StartsSafe(gc: Collector, youngSize: nat, oldSize: nat, youngMaxBefore: nat, youngMaxAfter: nat)
    requires gc.elder.free == gc.elder.tospace && gc.elder.maxAfter == 0
    requires 32 * gc.young.tospace.len == Align32(youngSize) && 32 * gc.elder.tospace.len == Align32(oldSize)
    requires gc.young.maxBefore == Align32(youngMaxBefore) && gc.young.maxAfter == Align32(youngMaxAfter)
    ensures Safe(gc) <==>
            && youngMaxBefore > 0 && youngMaxAfter > 0
            && 2 * Align32(youngSize) <= Align32(oldSize)
            && 2 * Align32(youngMaxBefore) <= Align32(oldSize) && 2 * Align32(youngMaxAfter) <= Align32(oldSize)
  {
    AlignTwice(youngMaxBefore);
    AlignTwice(youngMaxAfter);
  }

  /** Whatever its limit, the old region starts out within its mark. */
  lemma StartsMarked(gc: Collector)
    requires gc.elder.free == gc.elder.tospace
    ensures Marked(gc)
  {
  }

  lemma AlignTwice(bytes: nat)
    ensures Align32(Align32(bytes)) == Align32(bytes) && (Align32(bytes) == 0 <==> bytes == 0)
  {
  }
}
