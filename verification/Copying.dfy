/** What a copying collection does to memory, stated on values: the relocation it has built so far,
    and why every step of the copy extends it (src/gc_collect.c). */
module Copying {
  import opened Cells

  /** One run of GC_copy_region: memory as it found it, the fromspace with its objects, the tospace
      with the objects it already holds and the address where copying starts, and the slots it starts
      from (the roots and, for a promotion, the remembered slots). */
  datatype Job = Job(m0: Memory, from: Space, objects: Layout, to: Space, kept: Layout, start: int,
                     slots: set<int>) {

    /** x is a cell of some allocated fromspace object. */
    predicate Allocated(x: int) {
      from.base <= x < from.base + |objects|
    }

    function BlockOf(x: int): Block
      requires Allocated(x)
    {
      objects[x - from.base]
    }

    /** The number of cells of the object that x belongs to. */
    function Size(x: int): nat
      requires Allocated(x)
    {
      if BlockOf(x).lo < BlockOf(x).hi then BlockOf(x).hi - BlockOf(x).lo else 0
    }

    /** x is the first cell of a fromspace object. */
    predicate IsHead(x: int) {
      Allocated(x) && from.base + BlockOf(x).lo == x
    }

    predicate SameObject(x: int, y: int) {
      Allocated(x) && Allocated(y) && BlockOf(x) == BlockOf(y)
    }

    /** A capability into one fromspace object that does not reach past the object's end.  These are
        the ones the collector moves; it leaves every other cell as it is. */
    predicate Movable(c: Cell) {
      c.Tagged? && from.Contains(c.cap.base) && Allocated(c.cap.base) &&
      c.cap.base + c.cap.len <= from.base + BlockOf(c.cap.base).hi
    }

    ghost predicate Valid() {
      && Tiled(objects) && |objects| <= from.len
      && Within(from, m0) && Within(to, m0) && Apart(from, to)
      && to.base + |kept| == start && start + |objects| <= to.End()
      && (forall x :: IsHead(x) ==> !m0[x].IsForwarding())
      && (forall a :: a in slots ==> 0 <= a < |m0| && !from.Contains(a) && !(start <= a < to.End()))
    }
  }

  /** The relocation built so far, cell by cell and in both directions. */
  datatype Moves = Moves(dst: map<int, int>, src: map<int, int>)

  /** What a processed slot holds: a movable capability now points at the same place in the copy. */
  function Forward(j: Job, g: Moves, c: Cell): Cell {
    if j.Movable(c) && c.cap.base in g.dst
    then Tagged(Capability(g.dst[c.cap.base], c.cap.len, false))
    else c
  }

  /** The object a cell points into has been copied. */
  predicate Settled(j: Job, g: Moves, c: Cell) {
    j.Movable(c) ==> c.cap.base in g.dst
  }

  /** dst and src are inverse to each other; dst comes from allocated fromspace cells and src covers
      exactly the newly filled part of the tospace. */
  ghost predicate Bijection(j: Job, g: Moves, free: int) {
    && (forall x :: x in g.dst ==> j.Allocated(x) && g.dst[x] in g.src && g.src[g.dst[x]] == x)
    && (forall a :: a in g.src <==> j.start <= a < free)
    && (forall a :: a in g.src ==> g.src[a] in g.dst && g.dst[g.src[a]] == a)
    && |g.dst| == free - j.start
  }

  /** Objects are copied whole and keep the order of their cells. */
  ghost predicate WholeObjects(j: Job, g: Moves) {
    forall x, y :: x in g.dst && j.SameObject(x, y) ==> y in g.dst && g.dst[y] - g.dst[x] == y - x
  }

  /** The objects recorded for the tospace are the ones that were there and the copies. */
  ghost predicate CopiesRecorded(j: Job, g: Moves, copies: Layout, free: int) {
    && Tiled(copies) && j.to.base + |copies| == free <= j.to.End() && j.to.base <= j.start
    && |j.kept| <= |copies| && (forall i :: 0 <= i < |j.kept| ==> copies[i] == j.kept[i])
    && forall a :: a in g.src ==> SameExtent(j, copies, a, g.src[a])
  }

  /** The first cell of a fromspace object holds a forwarding capability exactly when the object has
      been copied, and then it names the copy; everything not yet copied is as it was. */
  ghost predicate ForwardingExact(j: Job, g: Moves, m: Memory)
    requires j.Valid() && |m| == |j.m0|
  {
    && (forall x :: x in g.dst && j.IsHead(x) ==>
          m[x] == Tagged(Capability(g.dst[x], j.Size(x), true)))
    && (forall x :: j.Allocated(x) && x !in g.dst ==> m[x] == j.m0[x])
  }

  /** One capability in cell a leads to the object cell s belongs to. */
  predicate PointsInto(j: Job, a: int, s: int) {
    0 <= a < |j.m0| && j.Movable(j.m0[a]) && j.SameObject(j.m0[a].cap.base, s)
  }

  /** Cell s belongs to an object that can be reached from the slots over at most n objects. */
  ghost predicate ReachedIn(j: Job, s: int, n: nat)
    decreases n
  {
    || (exists a :: a in j.slots && PointsInto(j, a, s))
    || (n > 0 && exists a :: j.Allocated(a) && PointsInto(j, a, s) && ReachedIn(j, a, n - 1))
  }

  ghost predicate Reachable(j: Job, s: int) {
    exists n: nat :: ReachedIn(j, s, n)
  }

  ghost predicate OnlyReachable(j: Job, g: Moves) {
    forall x :: x in g.dst ==> Reachable(j, x)
  }

  /** Everything a step of the copy keeps. */
  ghost predicate Consistent(j: Job, g: Moves, m: Memory, copies: Layout, free: int) {
    && j.Valid()
    && |m| == |j.m0|
    && Bijection(j, g, free)
    && WholeObjects(j, g)
    && CopiesRecorded(j, g, copies, free)
    && ForwardingExact(j, g, m)
    && OnlyReachable(j, g)
  }

  // ---------------------------------------------------------------- counting

  predicate Between(lo: int, x: int, hi: int) {
    lo <= x < hi
  }

  function Interval(lo: int, hi: int): set<int> {
    set x {:trigger Between(lo, x, hi)} | lo <= x < hi && Between(lo, x, hi)
  }

  lemma {:induction false} IntervalSize(lo: int, hi: int)
    requires lo <= hi
    ensures |Interval(lo, hi)| == hi - lo
    decreases hi - lo
  {
    if lo < hi {
      IntervalSize(lo, hi - 1);
      assert Interval(lo, hi) == Interval(lo, hi - 1) + {hi - 1};
    } else {
      assert Interval(lo, hi) == {};
    }
  }

  /** A set of cells and an interval beside it, both within a larger interval, fit into it together. */
  lemma DisjointFit(s: set<int>, lo: int, hi: int, base: int, end: int)
    requires base <= lo <= hi <= end
    requires forall x :: x in s ==> base <= x < end && !(lo <= x < hi)
    ensures |s| + (hi - lo) <= end - base
  {
    IntervalSize(lo, hi);
    IntervalSize(base, end);
    var t := s + Interval(lo, hi);
    assert |t| == |s| + |Interval(lo, hi)|;
    assert Interval(base, end) == t + (Interval(base, end) - t);
  }

  /** The cells lo, lo+1, ... mapped to the cells to, to+1, ... */
  function Shift(lo: int, n: nat, to: int): map<int, int> {
    map x {:trigger Between(lo, x, lo + n)} | lo <= x < lo + n && Between(lo, x, lo + n) :: to + (x - lo)
  }

  lemma ShiftSize(lo: int, n: nat, to: int)
    ensures |Shift(lo, n, to)| == n
  {
    IntervalSize(lo, lo + n);
    assert Shift(lo, n, to).Keys == Interval(lo, lo + n);
  }

  // ---------------------------------------------------------------- copying one object

  /** Copying the object whose first cell is x to the free end of the tospace. */
  function CopyOf(j: Job, g: Moves, x: int, free: int): (g': Moves)
    requires j.Allocated(x)
  {
    Moves(g.dst + Shift(x, j.Size(x), free), g.src + Shift(free, j.Size(x), x))
  }

  lemma NotCopiedYet(j: Job, g: Moves, x: int)
    requires j.Valid() && WholeObjects(j, g)
    requires j.IsHead(x) && x !in g.dst
    ensures forall y :: x <= y < x + j.Size(x) ==> y !in g.dst
  {
    forall y | x <= y < x + j.Size(x) ensures y !in g.dst {
      assert j.objects[y - j.from.base] == j.objects[x - j.from.base];
      assert j.SameObject(y, x);
    }
  }

  /** There is room for an object that has not been copied yet: everything copied so far and the
      object itself are disjoint parts of the allocated fromspace. */
  lemma RoomForCopy(j: Job, g: Moves, x: int, free: int)
    requires j.Valid() && Bijection(j, g, free) && WholeObjects(j, g)
    requires j.IsHead(x) && x !in g.dst
    ensures free + j.Size(x) <= j.start + |j.objects| <= j.to.End()
  {
    NotCopiedYet(j, g, x);
    DisjointFit(g.dst.Keys, x, x + j.Size(x), j.from.base, j.from.base + |j.objects|);
    assert |g.dst.Keys| == |g.dst|;
  }

  /** Memory after copying the object at x to `free` and leaving the forwarding capability in x. */
  ghost predicate CopiedOver(j: Job, m: Memory, m': Memory, x: int, free: int)
    requires j.IsHead(x)
  {
    && |m'| == |m|
    && 0 <= x < |m| && m'[x] == Tagged(Capability(free, j.Size(x), true))
    && 0 <= free && free + j.Size(x) <= |m|
    && (forall a :: 0 <= a < |m| && a != x && !(free <= a < free + j.Size(x)) ==> m'[a] == m[a])
    && (forall a :: free <= a < free + j.Size(x) ==>
          0 <= x + (a - free) < |m| && m'[a] == m[x + (a - free)])
  }

  /** The new relocation, cell by cell. */
  lemma CopyOfCells(j: Job, g: Moves, x: int, free: int)
    requires j.Allocated(x)
    ensures var g' := CopyOf(j, g, x, free);
            && (forall y :: y in g'.dst <==> y in g.dst || x <= y < x + j.Size(x))
            && (forall y :: y in g'.dst ==>
                  g'.dst[y] == if x <= y < x + j.Size(x) then free + (y - x) else g.dst[y])
            && (forall a :: a in g'.src <==> a in g.src || free <= a < free + j.Size(x))
            && (forall a :: a in g'.src ==>
                  g'.src[a] == if free <= a < free + j.Size(x) then x + (a - free) else g.src[a])
  {
  }

  lemma CopySize(j: Job, g: Moves, x: int, free: int)
    requires j.Allocated(x)
    requires forall y :: x <= y < x + j.Size(x) ==> y !in g.dst
    ensures |CopyOf(j, g, x, free).dst| == |g.dst| + j.Size(x)
  {
    var d := Shift(x, j.Size(x), free);
    ShiftSize(x, j.Size(x), free);
    var d' := CopyOf(j, g, x, free).dst;
    assert d'.Keys == g.dst.Keys + d.Keys;
    assert g.dst.Keys !! d.Keys;
    assert |d'.Keys| == |g.dst.Keys| + |d.Keys|;
  }

  lemma CopyKeepsBijection(j: Job, g: Moves, x: int, free: int)
    requires j.Valid() && Bijection(j, g, free) && WholeObjects(j, g)
    requires j.IsHead(x) && x !in g.dst && j.start <= free
    ensures Bijection(j, CopyOf(j, g, x, free), free + j.Size(x))
  {
    hide CopyOf, WholeObjects, Job.Valid;
    NotCopiedYet(j, g, x);
    HeadFits(j, x);
    CopyOfCells(j, g, x, free);
    CopySize(j, g, x, free);
  }

  lemma HeadFits(j: Job, x: int)
    requires j.Valid() && j.IsHead(x)
    ensures j.Size(x) > 0 && x + j.Size(x) <= j.from.base + |j.objects|
    ensures forall y :: x <= y < x + j.Size(x) ==> j.BlockOf(y) == j.BlockOf(x)
  {
  }

  lemma CopyKeepsWholeObjects(j: Job, g: Moves, x: int, free: int)
    requires j.Valid() && WholeObjects(j, g)
    requires j.IsHead(x) && x !in g.dst
    ensures WholeObjects(j, CopyOf(j, g, x, free))
  {
    NotCopiedYet(j, g, x);
    var g' := CopyOf(j, g, x, free);
    forall y, z | y in g'.dst && j.SameObject(y, z)
      ensures z in g'.dst && g'.dst[z] - g'.dst[y] == z - y
    {
      if y in g.dst {
        assert z in g.dst;
      } else {
        assert j.BlockOf(y) == j.BlockOf(x);
      }
    }
  }

  /** The object recorded for tospace cell a is the object of the cell it was copied from. */
  predicate SameExtent(j: Job, copies: Layout, a: int, x: int) {
    && j.Allocated(x) && 0 <= a - j.to.base < |copies|
    && var b := j.BlockOf(x);
       var b' := copies[a - j.to.base];
       b'.lo - b.lo == b'.hi - b.hi == (a - j.to.base) - (x - j.from.base)
  }

  lemma CopyKeepsRecord(j: Job, g: Moves, copies: Layout, x: int, free: int)
    requires j.Valid() && Bijection(j, g, free) && WholeObjects(j, g) && CopiesRecorded(j, g, copies, free)
    requires j.IsHead(x) && x !in g.dst
    ensures CopiesRecorded(j, CopyOf(j, g, x, free), Append(copies, j.Size(x)), free + j.Size(x))
  {
    hide Tiled, CopyOf, WholeObjects, Job.Valid, Bijection;
    AppendTiled(copies, j.Size(x));
    RoomForCopy(j, g, x, free);
    HeadFits(j, x);
    CopyOfCells(j, g, x, free);
  }

  lemma CopyKeepsForwarding(j: Job, g: Moves, m: Memory, m': Memory, x: int, free: int)
    requires j.Valid() && |m| == |j.m0| && WholeObjects(j, g) && ForwardingExact(j, g, m)
    requires j.IsHead(x) && x !in g.dst && CopiedOver(j, m, m', x, free)
    requires j.start <= free && free + j.Size(x) <= j.to.End()
    ensures ForwardingExact(j, CopyOf(j, g, x, free), m')
  {
    NotCopiedYet(j, g, x);
    var g' := CopyOf(j, g, x, free);
    forall y | y in g'.dst && j.IsHead(y)
      ensures m'[y] == Tagged(Capability(g'.dst[y], j.Size(y), true))
    {
      if y !in g.dst {
        assert j.BlockOf(y) == j.BlockOf(x);
      }
    }
  }

  lemma CopyKeepsReachable(j: Job, g: Moves, x: int, free: int)
    requires j.Valid() && j.IsHead(x) && Reachable(j, x) && OnlyReachable(j, g)
    ensures OnlyReachable(j, CopyOf(j, g, x, free))
  {
    hide CopyOf, Reachable, Job.Valid;
    HeadFits(j, x);
    CopyOfCells(j, g, x, free);
    var g' := CopyOf(j, g, x, free);
    forall y | y in g'.dst
      ensures Reachable(j, y)
    {
      if x <= y < x + j.Size(x) {
        SameObjectReachable(j, x, y);
      }
    }
  }

  /** What GC_copy_object finds: the first cell tells whether the object has been copied, and if not,
      there is room for it. */
  lemma ReadyToCopy(j: Job, g: Moves, m: Memory, copies: Layout, x: int, free: int)
    requires Consistent(j, g, m, copies, free) && j.IsHead(x)
    ensures 0 <= x && x + j.Size(x) <= |m| && j.Size(x) > 0 && j.start <= free && 0 <= j.to.base
    ensures j.to.base + |copies| == free && j.to.End() <= |m|
    ensures x in g.dst ==> m[x] == Tagged(Capability(g.dst[x], j.Size(x), true))
    ensures x !in g.dst ==>
              && !m[x].IsForwarding()
              && free + j.Size(x) <= j.to.End()
              && Apart(Space(free, j.Size(x)), Space(x, j.Size(x)))
  {
    hide WholeObjects, OnlyReachable, Tiled;
    HeadFits(j, x);
    if x !in g.dst {
      RoomForCopy(j, g, x, free);
    }
  }

  /** Copying an object that has not been copied keeps everything a step has to keep. */
  lemma CopyKeepsConsistent(j: Job, g: Moves, m: Memory, m': Memory, copies: Layout, x: int, free: int)
    requires Consistent(j, g, m, copies, free)
    requires j.IsHead(x) && x !in g.dst && CopiedOver(j, m, m', x, free) && Reachable(j, x)
    requires j.start <= free
    ensures Consistent(j, CopyOf(j, g, x, free), m', Append(copies, j.Size(x)), free + j.Size(x))
  {
    hide Tiled, CopyOf, Bijection, WholeObjects, CopiesRecorded, ForwardingExact, OnlyReachable, Reachable;
    RoomForCopy(j, g, x, free);
    CopyKeepsBijection(j, g, x, free);
    CopyKeepsWholeObjects(j, g, x, free);
    CopyKeepsRecord(j, g, copies, x, free);
    CopyKeepsForwarding(j, g, m, m', x, free);
    CopyKeepsReachable(j, g, x, free);
  }

  lemma SameObjectReachable(j: Job, x: int, y: int)
    requires Reachable(j, x) && j.SameObject(x, y)
    ensures Reachable(j, y)
  {
    var n: nat :| ReachedIn(j, x, n);
    if a :| a in j.slots && PointsInto(j, a, x) {
      assert PointsInto(j, a, y);
      assert ReachedIn(j, y, 0);
    } else {
      var a :| j.Allocated(a) && PointsInto(j, a, x) && ReachedIn(j, a, n - 1);
      assert PointsInto(j, a, y);
      assert ReachedIn(j, y, n);
    }
  }

  // ---------------------------------------------------------------- processing slots

  ghost predicate Extends(g: Moves, g': Moves) {
    && (forall x :: x in g.dst ==> x in g'.dst && g'.dst[x] == g.dst[x])
    && (forall a :: a in g.src ==> a in g'.src && g'.src[a] == g.src[a])
  }

  /** Cell a, which held c at the start, has been processed. */
  ghost predicate Processed(j: Job, g: Moves, m: Memory, a: int, c: Cell)
    requires 0 <= a < |m|
  {
    m[a] == Forward(j, g, c) && Settled(j, g, c)
  }

  /** The slots in `done` have been processed and the others have not. */
  ghost predicate SlotsDone(j: Job, g: Moves, m: Memory, done: set<int>)
    requires j.Valid() && |m| == |j.m0|
  {
    forall a :: a in j.slots ==>
      if a in done then Processed(j, g, m, a, j.m0[a]) else m[a] == j.m0[a]
  }

  /** The copied cells below `scan` have been processed; the others are still as they were copied. */
  ghost predicate Scanned(j: Job, g: Moves, m: Memory, free: int, scan: int)
    requires j.Valid() && |m| == |j.m0| && Bijection(j, g, free) && free <= j.to.End()
  {
    forall a :: j.start <= a < free ==>
      if a < scan then Processed(j, g, m, a, j.m0[g.src[a]]) else m[a] == j.m0[g.src[a]]
  }

  /** Nothing else in memory has changed. */
  ghost predicate OthersKept(j: Job, m: Memory)
    requires |m| == |j.m0|
  {
    forall a :: 0 <= a < |m| && a !in j.slots && !j.from.Contains(a) && !(j.start <= a < j.to.End()) ==>
      m[a] == j.m0[a]
  }

  /** The state of the collection between two steps. */
  ghost predicate Running(j: Job, g: Moves, m: Memory, free: int, done: set<int>, scan: int) {
    && j.Valid() && |m| == |j.m0| && Bijection(j, g, free) && free <= j.to.End()
    && SlotsDone(j, g, m, done)
    && Scanned(j, g, m, free, scan)
    && OthersKept(j, m)
  }

  /** Processing one slot: the slot is written, new copies are appended, and apart from the
      fromspace nothing else changes. */
  ghost predicate Step(j: Job, g: Moves, g': Moves, m: Memory, m': Memory, slot: int, free: int, free': int)
    requires j.Valid() && |m| == |j.m0|
  {
    && |m'| == |m| && free <= free' <= j.to.End() && j.start <= free
    && Extends(g, g')
    && (forall a :: 0 <= a < |m| && a != slot && !j.from.Contains(a) && !(free <= a < free') ==> m'[a] == m[a])
    && (forall a :: free <= a < free' ==>
          a in g'.src && j.Allocated(g'.src[a]) && m'[a] == j.m0[g'.src[a]])
  }

  lemma OutsideNotMovable(j: Job, c: Cell)
    requires !c.Tagged? || !j.from.Contains(c.cap.base)
    ensures !j.Movable(c)
  {
  }

  /** A cell the collector leaves alone. */
  lemma SkipIsStep(j: Job, g: Moves, m: Memory, copies: Layout, slot: int, free: int)
    requires Consistent(j, g, m, copies, free) && 0 <= slot < |m| && !j.Movable(m[slot])
    ensures Step(j, g, g, m, m, slot, free, free) && Processed(j, g, m, slot, m[slot])
  {
    hide WholeObjects, ForwardingExact, OnlyReachable, Tiled;
  }

  /** A cell that leads into an object that has been copied is settled. */
  lemma SettledWhole(j: Job, g: Moves, c: Cell, x: int)
    requires j.Movable(c) ==> j.SameObject(x, c.cap.base)
    requires WholeObjects(j, g) && x in g.dst
    ensures Settled(j, g, c)
  {
  }

  /** Processing a slot that leads to an object that has its copy already. */
  lemma NoCopyIsStep(j: Job, g: Moves, m: Memory, m': Memory, copies: Layout, slot: int, free: int)
    requires Consistent(j, g, m, copies, free) && 0 <= slot < |m| && |m'| == |m|
    requires forall a :: 0 <= a < |m| && a != slot ==> m'[a] == m[a]
    ensures Step(j, g, g, m, m', slot, free, free)
  {
    hide WholeObjects, ForwardingExact, OnlyReachable, Tiled;
  }

  /** Processing a slot that leads to an object that is copied for it. */
  lemma CopyIsStep(j: Job, g: Moves, m: Memory, m': Memory, copies: Layout, slot: int, x: int, free: int)
    requires Consistent(j, g, m, copies, free) && 0 <= slot < |m| && |m'| == |m|
    requires j.IsHead(x) && x !in g.dst && free + j.Size(x) <= j.to.End()
    requires forall a :: 0 <= a < |m| && a != slot && a != x && !(free <= a < free + j.Size(x)) ==> m'[a] == m[a]
    requires forall a :: free <= a < free + j.Size(x) ==> 0 <= x + (a - free) < |m| && m'[a] == m[x + (a - free)]
    ensures Step(j, g, CopyOf(j, g, x, free), m, m', slot, free, free + j.Size(x))
  {
    hide Bijection, WholeObjects, ForwardingExact, OnlyReachable, CopiesRecorded, Tiled, CopyOf, Extends;
    BijectionRange(j, g, m, copies, free);
    HeadFits(j, x);
    CopyExtends(j, g, m, copies, x, free);
    CopyOfCells(j, g, x, free);
    NotYetMoved(j, g, m, copies, x, free);
  }

  lemma CopyExtends(j: Job, g: Moves, m: Memory, copies: Layout, x: int, free: int)
    requires Consistent(j, g, m, copies, free) && j.IsHead(x) && x !in g.dst
    ensures Extends(g, CopyOf(j, g, x, free))
  {
    hide ForwardingExact, OnlyReachable, CopiesRecorded, Tiled, CopyOf;
    CopyOfCells(j, g, x, free);
    NotCopiedYet(j, g, x);
  }

  /** An object that has not been copied is as it was at the start. */
  lemma NotYetMoved(j: Job, g: Moves, m: Memory, copies: Layout, x: int, free: int)
    requires Consistent(j, g, m, copies, free) && j.IsHead(x) && x !in g.dst
    ensures forall y :: x <= y < x + j.Size(x) ==> j.Allocated(y) && 0 <= y < |m| && m[y] == j.m0[y]
  {
    hide Bijection, OnlyReachable, CopiesRecorded, Tiled;
    NotCopiedYet(j, g, x);
    HeadFits(j, x);
  }

  lemma BijectionRange(j: Job, g: Moves, m: Memory, copies: Layout, free: int)
    requires Consistent(j, g, m, copies, free)
    ensures j.start <= free
  {
    hide OnlyReachable, Tiled, CopiesRecorded, WholeObjects, ForwardingExact;
  }

  /** Redirecting the cell in `slot` once GC_copy_object has returned tmp for the object that holds
      its target at the given offset. */
  lemma RedirectIsStep(j: Job, g: Moves, g': Moves, m: Memory, m1: Memory, m2: Memory,
                       copies: Layout, copies': Layout, slot: int, cap: Capability, tmp: Capability,
                       offset: nat, free: int, free': int)
    requires Consistent(j, g, m, copies, free) && 0 <= slot < |m|
    requires !j.from.Contains(slot) && !(free <= slot < j.to.End())
    requires j.Movable(m[slot]) && j.IsHead(cap.base) && cap.len == j.Size(cap.base)
    requires cap.base + offset == m[slot].cap.base && j.SameObject(cap.base, m[slot].cap.base)
    requires |m1| == |m| && m1 == m[slot := m1[slot]]
    requires Consistent(j, g', m2, copies', free')
    requires cap.base in g'.dst && tmp == Capability(g'.dst[cap.base], cap.len, false)
    requires cap.base in g.dst ==> g' == g && m2 == m1 && free' == free
    requires cap.base !in g.dst ==>
               && g' == CopyOf(j, g, cap.base, free)
               && free' == free + cap.len
               && CopiedOver(j, m1, m2, cap.base, free)
    ensures |m2| == |m|
    ensures var m3 := m2[slot := Tagged(Capability(tmp.base + offset, m[slot].cap.len, false))];
            && Consistent(j, g', m3, copies', free')
            && Step(j, g, g', m, m3, slot, free, free')
            && Processed(j, g', m3, slot, m[slot])
  {
    hide Bijection, CopiesRecorded, ForwardingExact, OnlyReachable, Tiled, CopyOf, Step;
    var c := Tagged(Capability(tmp.base + offset, m[slot].cap.len, false));
    var m3 := m2[slot := c];
    WriteKeepsConsistent(j, g', m2, copies', free', slot, c);
    SettledWhole(j, g', m[slot], cap.base);
    assert g'.dst[m[slot].cap.base] == tmp.base + offset;
    if cap.base in g.dst {
      NoCopyIsStep(j, g, m, m3, copies, slot, free);
    } else {
      ReadyToCopy(j, g, m, copies, cap.base, free);
      HeadFits(j, cap.base);
      assert forall a :: free <= a < free' ==> m3[a] == m[cap.base + (a - free)];
      CopyIsStep(j, g, m, m3, copies, slot, cap.base, free);
    }
  }

  /** A cell that has been processed stays right while more objects are copied. */
  lemma ForwardStable(j: Job, g: Moves, g': Moves, c: Cell)
    requires Extends(g, g') && Settled(j, g, c)
    ensures Forward(j, g', c) == Forward(j, g, c) && Settled(j, g', c)
  {
  }

  lemma StepOnSlot(j: Job, g: Moves, g': Moves, m: Memory, m': Memory, slot: int,
                   free: int, free': int, done: set<int>, scan: int)
    requires Running(j, g, m, free, done, scan) && j.start <= scan <= free
    requires Step(j, g, g', m, m', slot, free, free') && Bijection(j, g', free')
    requires slot in j.slots && Processed(j, g', m', slot, j.m0[slot])
    ensures Running(j, g', m', free', done + {slot}, scan)
  {
    hide Forward, Settled, Bijection;
    StepKeepsSlots(j, g, g', m, m', slot, free, free', done);
    assert Scanned(j, g', m', free', scan) by {
      StepKeepsScanned(j, g, g', m, m', slot, free, free', done, scan);
    }
  }

  lemma StepKeepsSlots(j: Job, g: Moves, g': Moves, m: Memory, m': Memory, slot: int,
                       free: int, free': int, done: set<int>)
    requires j.Valid() && |m| == |j.m0| && SlotsDone(j, g, m, done)
    requires Step(j, g, g', m, m', slot, free, free')
    requires slot in j.slots ==> Processed(j, g', m', slot, j.m0[slot])
    ensures SlotsDone(j, g', m', if slot in j.slots then done + {slot} else done)
  {
    hide Forward, Settled;
    forall a | a in j.slots && a != slot
      ensures if a in done then Processed(j, g', m', a, j.m0[a]) else m'[a] == j.m0[a]
    {
      assert m'[a] == m[a];
      if a in done {
        ForwardStable(j, g, g', j.m0[a]);
      }
    }
  }

  lemma StepKeepsScanned(j: Job, g: Moves, g': Moves, m: Memory, m': Memory, slot: int,
                         free: int, free': int, done: set<int>, scan: int)
    requires j.Valid() && |m| == |j.m0| && Bijection(j, g, free) && Bijection(j, g', free')
    requires free <= j.to.End() && Scanned(j, g, m, free, scan)
    requires Step(j, g, g', m, m', slot, free, free')
    requires j.start <= scan <= free
    requires slot !in j.slots ==> slot == scan < free && Processed(j, g', m', slot, j.m0[g.src[slot]])
    ensures Scanned(j, g', m', free', if slot in j.slots then scan else scan + 1)
  {
    hide Forward, Settled, Job.Movable;
    var scan' := if slot in j.slots then scan else scan + 1;
    forall a | j.start <= a < free'
      ensures if a < scan' then Processed(j, g', m', a, j.m0[g'.src[a]]) else m'[a] == j.m0[g'.src[a]]
    {
      if a < free {
        assert a in g.src && g'.src[a] == g.src[a];
        if a < scan {
          ForwardStable(j, g, g', j.m0[g.src[a]]);
        }
      }
    }
  }

  lemma StepOnCopy(j: Job, g: Moves, g': Moves, m: Memory, m': Memory, scan: int,
                   free: int, free': int, done: set<int>)
    requires Running(j, g, m, free, done, scan) && j.start <= scan < free && scan !in j.slots
    requires Step(j, g, g', m, m', scan, free, free') && Bijection(j, g', free')
    requires Processed(j, g', m', scan, j.m0[g.src[scan]])
    ensures Running(j, g', m', free', done, scan + 1) && scan + 1 <= free' <= j.to.End()
  {
    hide Forward, Settled, Bijection;
    StepKeepsSlots(j, g, g', m, m', scan, free, free', done);
    StepKeepsScanned(j, g, g', m, m', scan, free, free', done, scan);
  }

  /** A write outside the fromspace does not disturb the forwarding capabilities. */
  lemma WriteKeepsConsistent(j: Job, g: Moves, m: Memory, copies: Layout, free: int, a: int, c: Cell)
    requires Consistent(j, g, m, copies, free) && 0 <= a < |m| && !j.from.Contains(a)
    ensures Consistent(j, g, m[a := c], copies, free)
  {
    hide Bijection, WholeObjects, CopiesRecorded, OnlyReachable, Tiled;
  }

  lemma SlotReaches(j: Job, a: int)
    requires j.Valid() && a in j.slots && j.Movable(j.m0[a])
    ensures Reachable(j, j.m0[a].cap.base)
  {
    assert PointsInto(j, a, j.m0[a].cap.base);
    assert ReachedIn(j, j.m0[a].cap.base, 0);
  }

  lemma ObjectReaches(j: Job, a: int)
    requires j.Valid() && Reachable(j, a) && j.Allocated(a) && j.Movable(j.m0[a])
    ensures Reachable(j, j.m0[a].cap.base)
  {
    var n: nat :| ReachedIn(j, a, n);
    assert PointsInto(j, a, j.m0[a].cap.base);
    assert ReachedIn(j, j.m0[a].cap.base, n + 1);
  }

  /** What GC_copy_child may assume about a slot that has not been processed. */
  lemma SlotReady(j: Job, g: Moves, m: Memory, free: int, done: set<int>, scan: int, slot: int)
    requires Running(j, g, m, free, done, scan) && slot in j.slots && slot !in done
    ensures 0 <= slot < |m| && !j.from.Contains(slot) && !(free <= slot < j.to.End())
    ensures m[slot] == j.m0[slot]
    ensures j.Movable(m[slot]) ==> Reachable(j, m[slot].cap.base)
  {
    hide Scanned, OthersKept, Processed, Tiled, Reachable;
    if j.Movable(m[slot]) {
      SlotReaches(j, slot);
    }
  }

  /** What GC_copy_child may assume about a copied cell that has not been scanned. */
  lemma CopyReady(j: Job, g: Moves, m: Memory, copies: Layout, free: int, done: set<int>, scan: int)
    requires Consistent(j, g, m, copies, free)
    requires Running(j, g, m, free, done, scan) && j.start <= scan < free
    ensures 0 <= scan < |m| && !j.from.Contains(scan) && scan !in j.slots
    ensures scan in g.src && 0 <= g.src[scan] < |m| && m[scan] == j.m0[g.src[scan]]
    ensures j.Movable(m[scan]) ==> Reachable(j, m[scan].cap.base)
  {
    hide SlotsDone, OthersKept, Processed, Tiled, Reachable, ForwardingExact, CopiesRecorded, WholeObjects;
    if j.Movable(m[scan]) {
      ObjectReaches(j, g.src[scan]);
    }
  }

  /** The state in which a collection starts. */
  lemma StartsRunning(j: Job, copies: Layout)
    requires j.Valid() && Tiled(copies) && copies == j.kept
    ensures Consistent(j, Moves(map[], map[]), j.m0, copies, j.start)
    ensures Running(j, Moves(map[], map[]), j.m0, j.start, {}, j.start)
  {
    hide Tiled, ReachedIn;
  }

  // ---------------------------------------------------------------- the result

  /** A finished copy: every slot and every copied cell has been processed. */
  ghost predicate Complete(j: Job, g: Moves, m: Memory, copies: Layout, free: int) {
    && Consistent(j, g, m, copies, free)
    && Running(j, g, m, free, j.slots, free)
  }

  /** Everything that can be reached has been copied. */
  lemma {:induction false} ReachedIsCopied(j: Job, g: Moves, m: Memory, copies: Layout, free: int, s: int, n: nat)
    requires Complete(j, g, m, copies, free) && ReachedIn(j, s, n)
    ensures s in g.dst
    decreases n
  {
    hide Tiled, CopiesRecorded, ForwardingExact, OnlyReachable, OthersKept;
    if a :| a in j.slots && PointsInto(j, a, s) {
      assert Processed(j, g, m, a, j.m0[a]);
    } else {
      var a :| j.Allocated(a) && PointsInto(j, a, s) && ReachedIn(j, a, n - 1);
      ReachedIsCopied(j, g, m, copies, free, a, n - 1);
      assert Processed(j, g, m, g.dst[a], j.m0[a]);
    }
  }

  /** The copy is exact: it holds the reachable objects and nothing else, so the space it takes is
      the number of cells in reachable objects. */
  lemma CopyIsExact(j: Job, g: Moves, m: Memory, copies: Layout, free: int)
    requires Complete(j, g, m, copies, free)
    ensures forall s :: s in g.dst <==> Reachable(j, s)
    ensures free - j.start == |set s | s in Interval(j.from.base, j.from.base + |j.objects|) && Reachable(j, s)|
  {
    hide Tiled, CopiesRecorded, ForwardingExact, Running, ReachedIn;
    forall s | Reachable(j, s) ensures s in g.dst {
      var n: nat :| ReachedIn(j, s, n);
      ReachedIsCopied(j, g, m, copies, free, s, n);
    }
    assert g.dst.Keys == set s | s in Interval(j.from.base, j.from.base + |j.objects|) && Reachable(j, s);
    assert |g.dst.Keys| == |g.dst|;
  }

  /** The copied graph is isomorphic to the graph that was reachable: each object has one copy, the
      copy of cell x holds what x held with every capability moved to the same place in the copy of
      the object it led to, and the slots agree. */
  lemma CopyIsIsomorphic(j: Job, g: Moves, m: Memory, copies: Layout, free: int)
    requires Complete(j, g, m, copies, free)
    ensures forall x, y :: x in g.dst && y in g.dst && g.dst[x] == g.dst[y] ==> x == y
    ensures forall x :: x in g.dst ==>
              j.start <= g.dst[x] < free && Processed(j, g, m, g.dst[x], j.m0[x]) &&
              SameExtent(j, copies, g.dst[x], x)
    ensures forall a :: a in j.slots ==> Processed(j, g, m, a, j.m0[a])
    ensures forall a :: a in j.slots || j.start <= a < free ==> !j.Movable(m[a])
  {
    hide Tiled, ForwardingExact, OnlyReachable;
    forall a | a in j.slots || j.start <= a < free
      ensures !j.Movable(m[a])
    {
      var c := if a in j.slots then j.m0[a] else j.m0[g.src[a]];
      assert Processed(j, g, m, a, c);
    }
  }

  /** Capability cap into a fromspace object has become c: it starts as many cells into the object's
      copy, and has the same length. */
  ghost predicate LedIntoCopy(j: Job, g: Moves, copies: Layout, cap: Capability, c: Cell) {
    && j.Allocated(cap.base)
    && var head := j.from.base + j.BlockOf(cap.base).lo;
       && j.IsHead(head) && head in g.dst
       && c == Tagged(Capability(g.dst[head] + (cap.base - head), cap.len, false))
       && 0 <= g.dst[head] - j.to.base < |copies|
       && var copy := copies[g.dst[head] - j.to.base];
          copy.lo == g.dst[head] - j.to.base && copy.hi == copy.lo + j.Size(head)
  }

  /** Capabilities into the middle of an object, and shortened ones, survive in the slots and inside the
      copied objects, whichever alias of the object was processed first. */
  lemma InteriorSurvives(j: Job, g: Moves, m: Memory, copies: Layout, free: int, a: int, s: int)
    requires Complete(j, g, m, copies, free) && PointsInto(j, a, s)
    ensures |m| == |j.m0|
    ensures a in j.slots ==> LedIntoCopy(j, g, copies, j.m0[a].cap, m[a])
    ensures a in g.dst ==> 0 <= g.dst[a] < |m| && LedIntoCopy(j, g, copies, j.m0[a].cap, m[g.dst[a]])
  {
    hide ForwardingExact, OnlyReachable, OthersKept, Tiled, Forward, Settled, LedIntoCopy;
    if a in j.slots {
      assert Processed(j, g, m, a, j.m0[a]);
      ForwardLeads(j, g, m, copies, free, j.m0[a], s);
    }
    if a in g.dst {
      assert Processed(j, g, m, g.dst[a], j.m0[a]);
      ForwardLeads(j, g, m, copies, free, j.m0[a], s);
    }
  }

  lemma ForwardLeads(j: Job, g: Moves, m: Memory, copies: Layout, free: int, c: Cell, s: int)
    requires Complete(j, g, m, copies, free)
    requires j.Movable(c) && j.SameObject(c.cap.base, s) && Settled(j, g, c)
    ensures LedIntoCopy(j, g, copies, c.cap, Forward(j, g, c))
  {
    hide ForwardingExact, OnlyReachable, Running;
    var head := j.from.base + j.BlockOf(c.cap.base).lo;
    assert j.SameObject(c.cap.base, head);
    assert SameExtent(j, copies, g.dst[head], head);
  }
}
