/** Growing a region (GC_grow, src/gc_low.c:335-517) and rebasing what pointed into its old block
    (GC_region_rebase and GC_rebase, src/gc_collect.c:669-851). */
module Grow {
  import opened Cells
  import opened Bitmaps
  import opened RememberedSets
  import opened LowMemory
  import opened Regions
  import opened Simulation
  import opened Generations
  import opened Worlds
  import opened Relocating
  import opened Collectors

  function Max(a: nat, b: nat): nat { if a > b then a else b }
  function Min(a: nat, b: nat): nat { if a < b then a else b }

  /** The size GC_grow goes for, in bytes: double, or enough for the hint if that is more, and at most
      the limit unless the limit is 0; rounded up to whole cells. */
  function GrowSize(oldSize: nat, hint: nat, maxSize: nat): nat {
    var want := Max(2 * oldSize, oldSize + hint);
    Align32(if maxSize != 0 then Min(want, maxSize) else want)
  }

  /** GC_grow leaves a region of len cells alone if it is as large as the limit. */
  predicate AtLimit(len: nat, maxSize: nat) {
    maxSize != 0 && 32 * len >= maxSize
  }

  /** The number of cells of a region after GC_grow. */
  function GrownLen(len: nat, hint: nat, maxSize: nat): nat {
    if AtLimit(len, maxSize) then len else GrowSize(32 * len, Align32(hint), maxSize) / 32
  }

  /** The limit lets a region of len cells grow by the whole hint. */
  predicate Meets(len: nat, hint: nat, maxSize: nat) {
    !AtLimit(len, maxSize) && (maxSize == 0 || 32 * len + Align32(hint) <= Align32(maxSize))
  }

  /** n bytes are whole cells, at least double the old size and enough for the hint. */
  predicate Serves(n: nat, oldSize: nat, hint: nat) {
    n % 32 == 0 && n >= 2 * oldSize && n >= oldSize + hint
  }

  /** n is the least size that serves, or the rounded limit where that is less. */
  ghost predicate LeastServing(n: nat, oldSize: nat, hint: nat, maxSize: nat) {
    && n % 32 == 0
    && (forall m: nat :: Serves(m, oldSize, hint) ==> n <= m)
    && (maxSize != 0 ==> n <= Align32(maxSize))
    && (Serves(n, oldSize, hint) || (maxSize != 0 && n == Align32(maxSize)))
  }

  /** Below its limit a region really grows, unless it is empty and nothing is asked for, by whole cells,
      and not beyond the rounded limit; the growth covers the hint unless the limit stands in the way. */
  lemma GrowSizeBounds(oldSize: nat, hint: nat, maxSize: nat)
    requires oldSize % 32 == 0 && hint % 32 == 0
    requires maxSize == 0 || oldSize < maxSize
    ensures var n := GrowSize(oldSize, hint, maxSize);
            && n % 32 == 0 && n >= oldSize && (n > oldSize <==> oldSize + hint > 0)
            && (maxSize != 0 ==> n <= Align32(maxSize))
            && (n >= oldSize + hint <==> maxSize == 0 || oldSize + hint <= Align32(maxSize))
            && (n >= 2 * oldSize <==> maxSize == 0 || 2 * oldSize <= Align32(maxSize))
            && LeastServing(n, oldSize, hint, maxSize)
  {
    hide LeastServing;
    GrowSizeIsLeast(oldSize, hint, maxSize);
  }

  lemma GrowSizeIsLeast(oldSize: nat, hint: nat, maxSize: nat)
    requires oldSize % 32 == 0 && hint % 32 == 0
    ensures LeastServing(GrowSize(oldSize, hint, maxSize), oldSize, hint, maxSize)
  {
    hide Align32;
    var want := Max(2 * oldSize, oldSize + hint);
    assert Serves(want, oldSize, hint);
    AlignsTo(want, want);
    forall m: nat | Serves(m, oldSize, hint)
      ensures GrowSize(oldSize, hint, maxSize) <= m
    {
      AlignsTo(if maxSize != 0 then Min(want, maxSize) else want, m);
    }
    if maxSize != 0 {
      AlignsTo(Min(want, maxSize), Align32(maxSize));
    }
  }

  /** Align32 is the least multiple. */
  lemma AlignsTo(x: nat, m: nat)
    requires m % 32 == 0 && m >= x
    ensures m >= Align32(x)
  {
  }

  /** The number of cells after GC_grow: unchanged at the limit, and below it the least that serves. */
  lemma GrownLenIsLeast(len: nat, hint: nat, maxSize: nat)
    ensures maxSize != 0 && 32 * len >= maxSize ==> GrownLen(len, hint, maxSize) == len
    ensures maxSize == 0 || 32 * len < maxSize ==>
              LeastServing(32 * GrownLen(len, hint, maxSize), 32 * len, Align32(hint), maxSize)
  {
    hide GrowSize, Align32, LeastServing;
    if !AtLimit(len, maxSize) {
      GrowSizeBounds(32 * len, Align32(hint), maxSize);
    }
  }

  /** For instance a full region of 4 cells without a limit, asked for 5 more, gets 9. */
  lemma GrownForALargeRequest()
    ensures GrownLen(4, 160, 0) == 9 && GrownLen(4, 32, 0) == 8 && GrownLen(4, 160, 224) == 7
  {
  }

  /** GC_rebase on the cells from start to end. */
  method Rebase(h: Machine, start: int, end: int, oldBase: int, oldSize: nat, newBase: int)
    requires 0 <= start <= end <= |h.mem|
    modifies h`mem
    ensures |h.mem| == |old(h.mem)|
    ensures forall a :: start <= a < end ==> h.mem[a] == Rebased(old(h.mem)[a], oldBase, oldSize, newBase)
    ensures forall a :: 0 <= a < |h.mem| && !(start <= a < end) ==> h.mem[a] == old(h.mem)[a]
  {
    var p := start;
    while p < end
      invariant start <= p <= end && |h.mem| == |old(h.mem)|
      invariant forall a :: start <= a < p ==> h.mem[a] == Rebased(old(h.mem)[a], oldBase, oldSize, newBase)
      invariant forall a :: 0 <= a < |h.mem| && !(start <= a < p) ==> h.mem[a] == old(h.mem)[a]
    {
      if h.mem[p].Tagged? {
        var base := h.mem[p].cap.base;
        if base >= oldBase && base <= oldBase + oldSize {
          h.mem := h.mem[p := Tagged(h.mem[p].cap.(base := base - oldBase + newBase))];
        }
      }
      p := p + 1;
    }
  }

  /** The remembered slots' part of GC_region_rebase: each is rebased once, because none occurs twice. */
  method RebaseRemembered(h: Machine, remset: RememberedSet, oldBase: int, oldSize: nat, newBase: int)
    requires remset.Valid() && forall a :: a in remset.Slots() ==> 0 <= a < |h.mem|
    modifies h`mem
    ensures |h.mem| == |old(h.mem)|
    ensures forall a :: a in remset.Slots() ==> h.mem[a] == Rebased(old(h.mem)[a], oldBase, oldSize, newBase)
    ensures forall a :: 0 <= a < |h.mem| && a !in remset.Slots() ==> h.mem[a] == old(h.mem)[a]
  {
    ghost var slots := remset.roots[..remset.nroots];
    assert forall a :: a in remset.Slots() <==> a in slots;
    var i := 0;
    while i < remset.nroots
      invariant i <= remset.nroots == |slots| && |h.mem| == |old(h.mem)|
      invariant forall a :: a in slots[..i] ==>
                  0 <= a < |h.mem| && h.mem[a] == Rebased(old(h.mem)[a], oldBase, oldSize, newBase)
      invariant forall a :: 0 <= a < |h.mem| && a !in slots[..i] ==> h.mem[a] == old(h.mem)[a]
    {
      var root := remset.roots[i];
      assert root == slots[i] && root in remset.Slots() && root !in slots[..i];
      if h.mem[root].Tagged? {
        var base := h.mem[root].cap.base;
        if base >= oldBase && base <= oldBase + oldSize {
          h.mem := h.mem[root := Tagged(h.mem[root].cap.(base := base - oldBase + newBase))];
        }
      }
      assert slots[..i + 1] == slots[..i] + [root];
      i := i + 1;
    }
    assert slots[..i] == slots;
  }

  /** GC_region_rebase: r has just moved from oldBase to its present tospace. */
  method RegionRebase(h: Machine, r: Region, oldBase: int, oldSize: nat)
    requires 0 <= h.roots.base && h.roots.End() <= |h.mem| && 0 <= r.tospace.base && r.tospace.End() <= |h.mem|
    requires Apart(h.roots, r.tospace)
    requires r.remset != null ==>
               && r.remset.Valid()
               && forall a :: a in r.remset.Slots() ==>
                    0 <= a < |h.mem| && !h.roots.Contains(a) && !r.tospace.Contains(a)
    modifies h`mem, r`free, r`scan
    ensures |h.mem| == |old(h.mem)|
    ensures forall a :: 0 <= a < |h.mem| ==>
              h.mem[a] == if h.roots.Contains(a) || r.tospace.Contains(a) || (r.remset != null && a in r.remset.Slots())
                          then Rebased(old(h.mem)[a], oldBase, oldSize, r.tospace.base)
                          else old(h.mem)[a]
    ensures r.free == old(r.free).(base := old(r.free.base) - oldBase + r.tospace.base)
    ensures r.scan == old(r.scan) - oldBase + r.tospace.base
  {
    hide Rebased, NoDuplicates;
    var newBase := r.tospace.base;
    Rebase(h, h.roots.base, h.roots.End(), oldBase, oldSize, newBase);
    Rebase(h, newBase, r.tospace.End(), oldBase, oldSize, newBase);
    if r.remset != null {
      RebaseRemembered(h, r.remset, oldBase, oldSize, newBase);
    }
    r.scan := r.scan - oldBase + newBase;
    r.free := r.free.(base := r.free.base - oldBase + newBase);
  }

  /** The semispaces of r are blocks of the low-level allocator, and the remembered slots lie in
      another block. */
  ghost predicate Growable(h: Machine, r: Region, others: Space)
    reads h, r, r.tospaceBitmap, r.tospaceBitmap.bytes, r.fromspaceBitmap, r.remset
    reads if r.fromspaceBitmap != null then {r.fromspaceBitmap.bytes} else {}
    reads if r.remset != null then {r.remset.roots} else {}
  {
    && h.Valid() && r.Valid() && Padded(r.tospace) in h.table
    && (r.older == null ==>
          && Padded(r.fromspace) in h.table && Padded(r.fromspace) != Padded(r.tospace)
          && r.fromspaceBitmap != null && r.fromspaceBitmap.Valid() && r.fromspaceBitmap != r.tospaceBitmap
          && r.fromspaceBitmap.bytes != r.tospaceBitmap.bytes
          && r.fromspace.len == r.fromspaceBitmap.size == r.tospace.len)
    && (r.remset != null ==>
          && r.remset.Valid()
          && others in h.table && others != Padded(r.tospace)
          && (r.older == null ==> others != Padded(r.fromspace))
          && forall a :: a in r.remset.Slots() ==> others.Contains(a))
  }

  /** The blocks of a grown region: to0 and from0 before, to1 and from1 now.  A region with an older
      one (`young`) has no fromspace. */
  ghost predicate NewBlocks(table0: seq<Space>, table1: seq<Space>, roots: Space, m1: Memory,
                            to0: Space, to1: Space, from0: Space, from1: Space, young: bool) {
    && 0 < to1.base && Within(Padded(to1), m1) && Padded(to1) in table1
    && Apart(Padded(to1), roots) && Apart(Padded(to1), Padded(to0))
    && (forall b :: b in table0 && (young || b != Padded(from0)) ==> Apart(Padded(to1), b))
    && (forall b :: b in table0 && (young || b != Padded(from0)) && b != Padded(to0) ==> b in table1)
    && (!young ==>
          && 0 < from1.base && Within(Padded(from1), m1) && Padded(from1) in table1
          && Apart(Padded(from1), roots) && Apart(Padded(from1), Padded(to1))
          && forall b :: b in table0 ==> Apart(Padded(from1), b))
  }

  /** Cell a lies in one of the new blocks. */
  predicate InNewBlocks(a: int, to1: Space, from1: Space, young: bool) {
    Padded(to1).Contains(a) || (!young && Padded(from1).Contains(a))
  }

  /** A call of GC_low_realloc for a block that is in use: it is found. */
  method Realloc(h: Machine, block: Space, n: nat) returns (p: int)
    requires h.Valid() && block in h.table && block.len <= n
    modifies h`mem, h`table
    ensures h.Valid() && |old(h.mem)| <= |h.mem|
    ensures 0 < p && p + n <= |h.mem| && Apart(Space(p, n), h.roots)
    ensures forall b :: b in old(h.table) ==> Apart(Space(p, n), b)
    ensures Space(p, n) in h.table && forall b :: b in old(h.table) && b != block ==> b in h.table
    ensures forall a :: p <= a < p + block.len ==> h.mem[a] == old(h.mem)[block.base + (a - p)]
    ensures forall a :: 0 <= a < |old(h.mem)| && !(p <= a < p + n) ==> h.mem[a] == old(h.mem)[a]
  {
    OneBlockAt(h, block);
    var ok;
    ok, p := h.LowRealloc(block.base, n, block);
  }

  lemma OneBlockAt(h: Machine, block: Space)
    requires h.Valid() && block in h.table
    ensures block.base > 0 && block.len > 0 && forall b :: b in h.table && b.base == block.base ==> b == block
  {
    var i :| 0 <= i < |h.table| && h.table[i] == block;
    forall b | b in h.table && b.base == block.base
      ensures b == block
    {
      var k :| 0 <= k < |h.table| && h.table[k] == b;
    }
  }

  /** The part of GC_grow that moves the semispaces into new blocks. */
  method Move(h: Machine, r: Region, n: nat, ghost others: Space) returns (newFrom: int, newTo: int)
    requires Growable(h, r, others) && n >= r.tospace.len
    modifies h`mem, h`table
    ensures h.Valid() && |old(h.mem)| <= |h.mem|
    ensures NewBlocks(old(h.table), h.table, h.roots, h.mem, r.tospace, Space(newTo, n), r.fromspace, Space(newFrom, n),
                      r.older != null)
    ensures forall a :: r.tospace.Contains(a) ==> h.mem[a - r.tospace.base + newTo] == old(h.mem)[a]
    ensures forall a ::
              0 <= a < |old(h.mem)| && !InNewBlocks(a, Space(newTo, n), Space(newFrom, n), r.older != null) ==>
                h.mem[a] == old(h.mem)[a]
  {
    hide NoDuplicates, Packs, Tiled;
    newFrom := 0;
    var fromspaceExists := r.older == null;
    assert h.Valid() && Within(Padded(r.tospace), h.mem);
    if fromspaceExists {
      newFrom := Realloc(h, Padded(r.fromspace), n + 1);
    }
    newTo := Realloc(h, Padded(r.tospace), n + 1);
    forall a | r.tospace.Contains(a) ensures h.mem[a - r.tospace.base + newTo] == old(h.mem)[a] {
      assert newTo <= a - r.tospace.base + newTo < newTo + r.tospace.len;
    }
  }

  /** The part of GC_grow that records the new blocks in the region.  `free` still names its old
      address; GC_region_rebase moves it. */
  method Resize(r: Region, newFrom: int, newTo: int, n: nat)
    requires r.Valid() && n >= r.tospace.len
    requires r.older == null ==>
               && r.fromspaceBitmap != null && r.fromspaceBitmap.Valid() && r.fromspaceBitmap != r.tospaceBitmap
               && r.fromspaceBitmap.bytes != r.tospaceBitmap.bytes
               && r.fromspaceBitmap.size == r.tospace.len
    modifies r`fromspace, r`tospace, r`free, r.tospaceBitmap`bytes, r.tospaceBitmap`size
    modifies (if r.older == null && r.fromspaceBitmap != null then {r.fromspaceBitmap} else {})`bytes,
             (if r.older == null && r.fromspaceBitmap != null then {r.fromspaceBitmap} else {})`size
    ensures r.fromspace == Space(newFrom, n) && r.tospace == Space(newTo, n)
    ensures r.free == Space(old(r.free.base), old(r.free.len) + n - old(r.tospace.len))
    ensures r.tospaceBitmap.Valid() && r.tospaceBitmap.size == n && r.Objects() == old(r.Objects())
    ensures fresh(r.tospaceBitmap.bytes)
    ensures r.older == null ==>
              && r.fromspaceBitmap.Valid() && r.fromspaceBitmap.size == n && fresh(r.fromspaceBitmap.bytes)
              && r.fromspaceBitmap.bytes != r.tospaceBitmap.bytes
  {
    hide Packs, Tiled;
    var oldSize := r.tospace.len;
    r.fromspace := Space(newFrom, n);
    r.tospace := Space(newTo, n);
    r.tospaceBitmap.Grow(n);
    if r.older == null {
      r.fromspaceBitmap.Grow(n);
    }
    r.free := Space(r.free.base, r.free.len + n - oldSize);
  }

  /** The effect of growth on memory: what a region's move and the rebasing leave. */
  ghost predicate GrownCells(m0: Memory, m1: Memory, roots: Space, slots: set<int>,
                             to0: Space, to1: Space, from1: Space, young: bool) {
    && |m0| <= |m1| && Within(roots, m0) && Within(to0, m0) && Within(to1, m1) && to0.len <= to1.len
    && (forall a :: roots.Contains(a) || a in slots ==>
          0 <= a < |m0| && m1[a] == Rebased(m0[a], to0.base, to0.len, to1.base))
    && (forall a :: to0.Contains(a) ==> m1[a - to0.base + to1.base] == Rebased(m0[a], to0.base, to0.len, to1.base))
    && (forall a :: 0 <= a < |m0| && !roots.Contains(a) && a !in slots && !InNewBlocks(a, to1, from1, young) ==>
          m1[a] == m0[a])
  }

  /** The new blocks overlap neither the roots, nor the old tospace, nor the remembered slots. */
  lemma NewBlocksApart(table0: seq<Space>, table1: seq<Space>, roots: Space, m0: Memory, m1: Memory,
                       to0: Space, to1: Space, from0: Space, from1: Space, young: bool,
                       others: Space, slots: set<int>)
    requires TableOk(table0, roots, m0) && |m0| <= |m1| && Padded(to0) in table0
    requires NewBlocks(table0, table1, roots, m1, to0, to1, from0, from1, young)
    requires slots != {} ==> others in table0 && others != Padded(to0) && (young || others != Padded(from0))
    requires forall a :: a in slots ==> others.Contains(a)
    ensures Within(roots, m0) && Within(to0, m0) && Within(to1, m1) && Apart(roots, to1)
    ensures forall a :: a in slots ==>
              0 <= a < |m0| && !roots.Contains(a) && !to1.Contains(a) && !InNewBlocks(a, to1, from1, young)
    ensures forall a :: roots.Contains(a) || to0.Contains(a) ==> !InNewBlocks(a, to1, from1, young)
  {
    var i :| 0 <= i < |table0| && table0[i] == Padded(to0);
    if slots != {} {
      var k :| 0 <= k < |table0| && table0[k] == others;
      assert Apart(others, roots);
    }
  }

  /** The system never gives out a block that is still in use, so the tospace really moves. */
  lemma NewBlocksMoved(table0: seq<Space>, table1: seq<Space>, roots: Space, m1: Memory,
                       to0: Space, to1: Space, from0: Space, from1: Space, young: bool)
    requires NewBlocks(table0, table1, roots, m1, to0, to1, from0, from1, young)
    ensures to1.base != to0.base
  {
  }

  lemma NewBlocksStay(table0: seq<Space>, table1: seq<Space>, roots: Space, m1: Memory, m2: Memory,
                      to0: Space, to1: Space, from0: Space, from1: Space, young: bool)
    requires NewBlocks(table0, table1, roots, m1, to0, to1, from0, from1, young) && |m1| == |m2|
    ensures NewBlocks(table0, table1, roots, m2, to0, to1, from0, from1, young)
  {
  }

  lemma MovedAndRebased(m0: Memory, m1: Memory, m2: Memory, roots: Space, slots: set<int>,
                        to0: Space, to1: Space, from1: Space, young: bool)
    requires |m0| <= |m1| == |m2| && Within(roots, m0) && Within(to0, m0) && Within(to1, m1) && to0.len <= to1.len
    requires Apart(roots, to1)
    requires forall a :: a in slots ==>
               0 <= a < |m0| && !roots.Contains(a) && !to1.Contains(a) && !InNewBlocks(a, to1, from1, young)
    requires forall a :: roots.Contains(a) || to0.Contains(a) ==> !InNewBlocks(a, to1, from1, young)
    requires forall a :: to0.Contains(a) ==> m1[a - to0.base + to1.base] == m0[a]
    requires forall a :: 0 <= a < |m0| && !InNewBlocks(a, to1, from1, young) ==> m1[a] == m0[a]
    requires forall a :: 0 <= a < |m1| ==>
               m2[a] == if roots.Contains(a) || to1.Contains(a) || a in slots
                        then Rebased(m1[a], to0.base, to0.len, to1.base) else m1[a]
    ensures GrownCells(m0, m2, roots, slots, to0, to1, from1, young)
  {
    hide Rebased;
    forall a | to0.Contains(a)
      ensures m2[a - to0.base + to1.base] == Rebased(m0[a], to0.base, to0.len, to1.base)
    {
      assert to1.Contains(a - to0.base + to1.base);
    }
  }

  ghost function SlotsOf(r: Region): set<int>
    requires r.remset != null ==> r.remset.nroots <= r.remset.roots.Length
    reads r`remset, r.remset
    reads if r.remset != null then {r.remset.roots} else {}
  {
    if r.remset != null then r.remset.Slots() else {}
  }

  /** Move, with what its blocks being new means for the roots and the remembered slots. */
  method MoveApart(h: Machine, r: Region, n: nat, ghost others: Space, ghost slots: set<int>)
    returns (newFrom: int, newTo: int)
    requires Growable(h, r, others) && n >= r.tospace.len && slots == SlotsOf(r)
    modifies h`mem, h`table
    ensures h.Valid() && |old(h.mem)| <= |h.mem| && newTo != r.tospace.base
    ensures NewBlocks(old(h.table), h.table, h.roots, h.mem, r.tospace, Space(newTo, n), r.fromspace, Space(newFrom, n),
                      r.older != null)
    ensures Within(h.roots, old(h.mem)) && Within(r.tospace, old(h.mem)) && Within(Space(newTo, n), h.mem)
    ensures Apart(h.roots, Space(newTo, n))
    ensures forall a :: a in slots ==>
              0 <= a < |old(h.mem)| && !h.roots.Contains(a) && !Space(newTo, n).Contains(a) &&
              !InNewBlocks(a, Space(newTo, n), Space(newFrom, n), r.older != null)
    ensures forall a :: h.roots.Contains(a) || r.tospace.Contains(a) ==>
              !InNewBlocks(a, Space(newTo, n), Space(newFrom, n), r.older != null)
    ensures forall a :: r.tospace.Contains(a) ==> h.mem[a - r.tospace.base + newTo] == old(h.mem)[a]
    ensures forall a ::
              0 <= a < |old(h.mem)| && !InNewBlocks(a, Space(newTo, n), Space(newFrom, n), r.older != null) ==>
                h.mem[a] == old(h.mem)[a]
  {
    hide NoDuplicates, Packs, Tiled, NewBlocks, Bitmap.Valid, TableOk, InNewBlocks;
    newFrom, newTo := Move(h, r, n, others);
    NewBlocksApart(old(h.table), h.table, h.roots, old(h.mem), h.mem, r.tospace, Space(newTo, n),
                   r.fromspace, Space(newFrom, n), r.older != null, others, slots);
    NewBlocksMoved(old(h.table), h.table, h.roots, h.mem, r.tospace, Space(newTo, n),
                   r.fromspace, Space(newFrom, n), r.older != null);
  }

  /** The part of GC_grow after the size has been chosen: the region moves, and every capability into
      the old tospace that is in a root, in the tospace itself or in a remembered slot is shifted. */
  method Enlarge(h: Machine, r: Region, n: nat, ghost others: Space)
    requires Growable(h, r, others) && n >= r.tospace.len
    modifies h`mem, h`table, r`fromspace, r`tospace, r`free, r`scan, r.tospaceBitmap`bytes, r.tospaceBitmap`size
    modifies (if r.older == null && r.fromspaceBitmap != null then {r.fromspaceBitmap} else {})`bytes,
             (if r.older == null && r.fromspaceBitmap != null then {r.fromspaceBitmap} else {})`size
    ensures h.Valid() && r.Valid() && r.Objects() == old(r.Objects()) && r.tospace.len == n
    ensures fresh(r.tospaceBitmap.bytes)
    ensures r.older == null ==>
              && r.fromspaceBitmap.Valid() && r.fromspaceBitmap.size == r.fromspace.len == n
              && fresh(r.fromspaceBitmap.bytes) && r.fromspaceBitmap.bytes != r.tospaceBitmap.bytes
    ensures r.remset != null ==> r.remset.Valid()
    ensures NewBlocks(old(h.table), h.table, h.roots, h.mem, old(r.tospace), r.tospace, old(r.fromspace), r.fromspace,
                      r.older != null)
    ensures GrownCells(old(h.mem), h.mem, h.roots, SlotsOf(r), old(r.tospace), r.tospace, r.fromspace, r.older != null)
  {
    hide NoDuplicates, Packs, Tiled, Rebased, NewBlocks, Bitmap.Valid, TableOk, GrownCells, InNewBlocks;
    ghost var slots := SlotsOf(r);
    var oldBase, oldLen := r.tospace.base, r.tospace.len;
    var newFrom, newTo := MoveApart(h, r, n, others, slots);
    ghost var m1 := h.mem;
    Resize(r, newFrom, newTo, n);
    assert r.remset != null ==> r.remset.Slots() == slots;
    if newTo != oldBase {
      RegionRebase(h, r, oldBase, oldLen);
    }
    TableStays(h.table, h.roots, m1, h.mem);
    NewBlocksStay(old(h.table), h.table, h.roots, m1, h.mem, old(r.tospace), r.tospace,
                  old(r.fromspace), r.fromspace, r.older != null);
    MovedAndRebased(old(h.mem), m1, h.mem, h.roots, slots, old(r.tospace), r.tospace, r.fromspace, r.older != null);
  }

  /** GC_grow, assuming that the system has memory to give.  Unless the region is at its limit already,
      it moves into blocks of the size the policy gives; the result says whether the hint has been met. */
  method GrowRegion(h: Machine, r: Region, hint: nat, maxSize: nat, ghost others: Space) returns (ok: bool)
    requires Growable(h, r, others)
    modifies h`mem, h`table, r`fromspace, r`tospace, r`free, r`scan, r.tospaceBitmap`bytes, r.tospaceBitmap`size
    modifies (if r.older == null && r.fromspaceBitmap != null then {r.fromspaceBitmap} else {})`bytes,
             (if r.older == null && r.fromspaceBitmap != null then {r.fromspaceBitmap} else {})`size
    ensures h.Valid() && r.Valid() && r.Objects() == old(r.Objects())
    ensures r.remset != null ==> r.remset.Valid()
    ensures r.tospace.len == GrownLen(old(r.tospace.len), hint, maxSize)
    ensures ok == Meets(old(r.tospace.len), hint, maxSize)
    ensures maxSize == 0 || 32 * old(r.tospace.len) < maxSize ==>
              && LeastServing(32 * r.tospace.len, 32 * old(r.tospace.len), Align32(hint), maxSize)
              && ok == (32 * r.tospace.len >= 32 * old(r.tospace.len) + Align32(hint))
    ensures maxSize != 0 && 32 * old(r.tospace.len) >= maxSize ==> !ok && r.tospace.len == old(r.tospace.len)
    ensures AtLimit(old(r.tospace.len), maxSize) ==>
              && h.mem == old(h.mem) && h.table == old(h.table) && r.tospaceBitmap.bytes == old(r.tospaceBitmap.bytes)
              && r.tospace == old(r.tospace) && r.fromspace == old(r.fromspace) && r.free == old(r.free)
              && (r.older == null ==>
                    && r.fromspaceBitmap.Valid() && r.fromspaceBitmap.size == r.fromspace.len
                    && r.fromspaceBitmap.bytes == old(r.fromspaceBitmap.bytes))
    ensures !AtLimit(old(r.tospace.len), maxSize) ==>
              && r.tospace.len >= old(r.tospace.len)
              && (r.tospace.len > old(r.tospace.len) <==> old(r.tospace.len) > 0 || hint > 0)
              && fresh(r.tospaceBitmap.bytes)
              && (r.older == null ==>
                    && r.fromspaceBitmap.Valid() && r.fromspaceBitmap.size == r.fromspace.len == r.tospace.len
                    && fresh(r.fromspaceBitmap.bytes) && r.fromspaceBitmap.bytes != r.tospaceBitmap.bytes)
              && NewBlocks(old(h.table), h.table, h.roots, h.mem, old(r.tospace), r.tospace, old(r.fromspace),
                  r.fromspace,
                           r.older != null)
              && GrownCells(old(h.mem), h.mem, h.roots, SlotsOf(r), old(r.tospace), r.tospace, r.fromspace,
                  r.older != null)
  {
    hide NoDuplicates, Packs, Tiled, NewBlocks, Bitmap.Valid, TableOk, GrownCells, GrowSize, Align32,
      LeastServing;
    ok := false;
    var rounded := Align32(hint);
    var oldSize := 32 * r.tospace.len;
    if maxSize != 0 && oldSize >= maxSize {
      return;
    }
    GrowSizeBounds(oldSize, rounded, maxSize);
    var newSize := GrowSize(oldSize, rounded, maxSize);
    Enlarge(h, r, newSize / 32, others);
    ok := newSize >= oldSize + rounded;
  }

  // ---------------------------------------------------------------- in the collector

  lemma YoungMemoryGrown(w: World, table0: seq<Space>, table1: seq<Space>, m': Memory, to1: Space, from0: Space,
                         from1: Space)
    requires Inv(w)
    requires Padded(w.young.space) in table0 && Padded(w.elder.space) in table0 && Padded(w.spare) in table0
    requires NewBlocks(table0, table1, w.roots, m', w.young.space, to1, from0, from1, true)
    requires GrownCells(w.m, m', w.roots, w.remembered, w.young.space, to1, from1, true)
    ensures FreshBlock(w, to1, m') && Apart(Padded(to1), Padded(w.spare))
    ensures GrownMemory(w, w.young, to1.base, m')
    ensures forall a :: w.elder.Allocated(a) && a !in w.remembered ==> 0 <= a < |w.m| && m'[a] == w.m[a]
    ensures Padded(to1) in table1 && Padded(w.elder.space) in table1 && Padded(w.spare) in table1
  {
    hide Simulates, Owned, HeadsClean, Tiled, Rebased;
  }

  /** GC_grow on the young region keeps the invariant and is invisible to the client. */
  method GrowYoung(gc: Collector, hint: nat, maxSize: nat) returns (ok: bool)
    requires gc.Valid()
    modifies gc`who, gc.h`mem, gc.h`table, gc.young`fromspace, gc.young`tospace, gc.young`free, gc.young`scan,
             gc.young.tospaceBitmap`bytes, gc.young.tospaceBitmap`size
    ensures gc.Valid() && gc.heap == old(gc.heap)
    ensures gc.young.Objects() == old(gc.young.Objects())
    ensures fresh(gc.young.tospaceBitmap.bytes) || gc.young.tospaceBitmap.bytes == old(gc.young.tospaceBitmap.bytes)
    ensures fresh(gc.Footprint() - old(gc.Footprint()))
    ensures gc.young.free.len - old(gc.young.free.len) == gc.young.tospace.len - old(gc.young.tospace.len) >= 0
    ensures gc.young.tospace.len == GrownLen(old(gc.young.tospace.len), hint, maxSize)
    ensures ok == Meets(old(gc.young.tospace.len), hint, maxSize)
    ensures AtLimit(old(gc.young.tospace.len), maxSize) ==>
              gc.young.tospace == old(gc.young.tospace) && gc.Snapshot() == old(gc.Snapshot())
    ensures !AtLimit(old(gc.young.tospace.len), maxSize) ==>
              && gc.Snapshot() == AfterYoungGrowth(old(gc.Snapshot()), gc.young.tospace, gc.h.mem)
              && GrownMemory(old(gc.Snapshot()), old(gc.Snapshot()).young, gc.young.tospace.base, gc.h.mem)
  {
    hide Inv, NoDuplicates, Packs, Tiled, NewBlocks, Bitmap.Valid, TableOk, GrownCells, GrownLen, Meets, Slide, Moved,
      GrownMemory, FreshBlock;
    ghost var w := gc.Snapshot();
    ghost var table0, from0 := gc.h.table, gc.young.fromspace;
    YoungGrowable(gc);
    ok := GrowRegion(gc.h, gc.young, hint, maxSize, Padded(gc.elder.tospace));
    if !AtLimit(w.young.space.len, maxSize) {
      YoungMemoryGrown(w, table0, gc.h.table, gc.h.mem, gc.young.tospace, from0, gc.young.fromspace);
      gc.who := AfterYoungGrowth(w, gc.young.tospace, gc.h.mem).who;
      YoungGrowthKeepsInv(w, gc.young.tospace, gc.h.mem);
      assert gc.Snapshot() == AfterYoungGrowth(w, gc.young.tospace, gc.h.mem);
    }
  }

  lemma YoungGrowable(gc: Collector)
    requires gc.Valid()
    ensures Growable(gc.h, gc.young, Padded(gc.elder.tospace))
  {
    hide Simulates, Owned, HeadsClean, Tiled, Packs, NoDuplicates;
  }

  lemma OldMemoryGrown(w: World, table0: seq<Space>, table1: seq<Space>, m': Memory, to1: Space, from1: Space)
    requires Inv(w) && w.remembered == {}
    requires Padded(w.young.space) in table0 && Padded(w.elder.space) in table0 && Padded(w.spare) in table0
    requires NewBlocks(table0, table1, w.roots, m', w.elder.space, to1, w.spare, from1, false)
    requires GrownCells(w.m, m', w.roots, {}, w.elder.space, to1, from1, false)
    ensures FreshBlock(w, to1, m') && FreshBlock(w, from1, m') && Apart(Padded(to1), Padded(from1))
    ensures GrownMemory(w, w.elder, to1.base, m')
    ensures Padded(to1) in table1 && Padded(w.young.space) in table1 && Padded(from1) in table1
  {
    hide Simulates, Owned, HeadsClean, Tiled, Rebased;
  }

  /** GC_grow on the old region keeps the invariant and is invisible to the client, provided nothing is
      young or remembered: its callers only grow it then. */
  method GrowOld(gc: Collector, hint: nat, maxSize: nat) returns (ok: bool)
    requires gc.Valid() && gc.young.Objects() == [] && gc.young.remset.Slots() == {}
    modifies gc`who, gc.h`mem, gc.h`table, gc.elder`fromspace, gc.elder`tospace, gc.elder`free, gc.elder`scan,
             gc.elder.tospaceBitmap`bytes, gc.elder.tospaceBitmap`size,
             gc.elder.fromspaceBitmap`bytes, gc.elder.fromspaceBitmap`size
    ensures gc.Valid() && gc.heap == old(gc.heap)
    ensures gc.elder.Objects() == old(gc.elder.Objects())
    ensures fresh(gc.elder.tospaceBitmap.bytes) || gc.elder.tospaceBitmap.bytes == old(gc.elder.tospaceBitmap.bytes)
    ensures fresh(gc.elder.fromspaceBitmap.bytes) ||
            gc.elder.fromspaceBitmap.bytes == old(gc.elder.fromspaceBitmap.bytes)
    ensures gc.elder.free.len - old(gc.elder.free.len) == gc.elder.tospace.len - old(gc.elder.tospace.len) >= 0
    ensures gc.elder.tospace.len == GrownLen(old(gc.elder.tospace.len), hint, maxSize)
    ensures ok == Meets(old(gc.elder.tospace.len), hint, maxSize)
    ensures AtLimit(old(gc.elder.tospace.len), maxSize) ==>
              gc.elder.tospace == old(gc.elder.tospace) && gc.Snapshot() == old(gc.Snapshot())
    ensures !AtLimit(old(gc.elder.tospace.len), maxSize) ==>
              && gc.Snapshot() == AfterOldGrowth(old(gc.Snapshot()), gc.elder.tospace, gc.elder.fromspace, gc.h.mem)
              && GrownMemory(old(gc.Snapshot()), old(gc.Snapshot()).elder, gc.elder.tospace.base, gc.h.mem)
  {
    hide Inv, NoDuplicates, Packs, Tiled, NewBlocks, Bitmap.Valid, TableOk, GrownCells, GrownLen, Meets, Slide, Moved,
      GrownMemory, FreshBlock;
    ghost var w := gc.Snapshot();
    ghost var table0 := gc.h.table;
    OldGrowable(gc);
    ok := GrowRegion(gc.h, gc.elder, hint, maxSize, Padded(gc.young.tospace));
    if !AtLimit(w.elder.space.len, maxSize) {
      OldMemoryGrown(w, table0, gc.h.table, gc.h.mem, gc.elder.tospace, gc.elder.fromspace);
      gc.who := AfterOldGrowth(w, gc.elder.tospace, gc.elder.fromspace, gc.h.mem).who;
      OldGrowthKeepsInv(w, gc.elder.tospace, gc.elder.fromspace, gc.h.mem);
      assert gc.Snapshot() == AfterOldGrowth(w, gc.elder.tospace, gc.elder.fromspace, gc.h.mem);
    }
  }

  lemma OldGrowable(gc: Collector)
    requires gc.Valid()
    ensures Growable(gc.h, gc.elder, Padded(gc.young.tospace))
  {
    hide Simulates, Owned, HeadsClean, Tiled, Packs, NoDuplicates;
  }
}
