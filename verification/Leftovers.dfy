/** What goes wrong when storage that was never set is copied to the start of an object.  GC_malloc clears
    only the first cell of a new object (src/gc_malloc.c:204-210), so the others may still hold forwarding
    capabilities of objects that lay there before the last collection; and GC_memcpy copies whatever is
    tagged (src/gc_memcpy.c:24-30). */
module Leftovers {
  import opened Cells
  import opened Simulation
  import opened Generations
  import opened Worlds
  import opened Mutating

  /** What the promotion of an earlier object left in its first cell: its copy was made in cell 7, and has
      been reclaimed since. */
  const Leftover := Tagged(Capability(7, 1, true))

  /** Two roots in cells 0 and 1 lead to A in cells 2 and 3, and to B in cell 4.  The second cell of A, where
      the earlier object started, has never been set and holds the leftover. */
  function Before(): World {
    World([Tagged(Capability(2, 2, false)), Tagged(Capability(4, 1, false)),
           Data(0), Leftover, Data(0), Data(0),
           Data(0), Data(0), Data(0), Data(0), Data(0), Data(0)],
          Space(0, 2),
          Gen(Space(2, 3), [Block(0, 2), Block(0, 2), Block(2, 3)]),
          Gen(Space(6, 2), []),
          Space(9, 2),
          {},
          map[2 := Place(1, 0), 3 := Place(1, 1), 4 := Place(2, 0)],
          Heap([[Number(0)], [Number(0), Unknown], [Number(0)]], [Ref(1, 0, 2), Ref(2, 0, 1)]))
  }

  /** Copying the second cell of A into B. */
  ghost function After(): World {
    AfterStore(Before(), 4, Unknown, Leftover, {})
  }

  lemma BeforeSimulates()
    ensures Simulates(Before().heap, Before().who, Before().m, Before().roots)
  {
    hide PlacesExist, Contiguous, Unique, CellsMatch, RootsMatch, Before;
    BeforeCells();
    BeforeRoots();
    BeforePlaces();
  }

  /** The places, as a function of the address. */
  lemma BeforePlaces()
    ensures Contiguous(Before().heap, Before().who) && Unique(Before().who)
  {
    var h, who := Before().heap, Before().who;
    assert |h.objs| == 3 && |h.objs[1]| == 2 && |h.objs[2]| == 1;
    assert forall a :: a in who <==> 2 <= a < 5;
    assert who[2] == Place(1, 0) && who[3] == Place(1, 1) && who[4] == Place(2, 0);
    assert forall a :: a in who ==> who[a] == if a < 4 then Place(1, a - 2) else Place(2, 0);
    SegmentsContiguous(h, who);
  }

  lemma SegmentsContiguous(h: Heap, who: Places)
    requires |h.objs| == 3 && |h.objs[1]| == 2 && |h.objs[2]| == 1
    requires forall a :: a in who <==> 2 <= a < 5
    requires forall a :: a in who ==> who[a] == if a < 4 then Place(1, a - 2) else Place(2, 0)
    ensures Contiguous(h, who) && Unique(who)
  {
  }

  lemma BeforeCells()
    ensures PlacesExist(Before().heap, Before().who, Before().m) && CellsMatch(Before().heap, Before().who, Before().m)
  {
  }

  lemma BeforeRoots()
    ensures RootsMatch(Before().heap, Before().who, Before().m, Before().roots)
  {
    var w := Before();
    assert Represents(w.heap, w.who, w.heap.roots[0], w.m[0]);
    assert Represents(w.heap, w.who, w.heap.roots[1], w.m[1]);
  }

  lemma BeforeGeometry()
    ensures Geometry(Before())
  {
  }

  lemma BeforeOwned()
    ensures Owned(Before()) && Clean(Before()) && Remembers(Before())
  {
  }

  lemma BeforeHolds()
    ensures Inv(Before())
  {
    hide Geometry, Simulates, Owned, Remembers, Clean, Before;
    BeforeGeometry();
    BeforeSimulates();
    BeforeOwned();
  }

  /** The invariant holds before and is lost: B, which has not been copied, starts with a forwarding
      capability.  The next promotion cannot start as it has to, with no object that looks copied. */
  lemma CopyingALeftoverSpoils()
    ensures Inv(Before()) && Represents(Before().heap, Before().who, Unknown, Leftover)
    ensures Barred(Before(), 4, Leftover, {})
    ensures Coherent(After()) && !Inv(After())
    ensures After().m[4] == Leftover && After().m[4].IsForwarding()
    ensures PromotionJob(After()).IsHead(4) && !PromotionJob(After()).Valid()
  {
    hide Inv, Coherent;
    BeforeHolds();
    InvIsCoherent(Before());
    StoreKeepsInv(Before(), 4, Unknown, Leftover, {});
    StoreKeepsCoherent(Before(), 4, Unknown, Leftover, {});
  }

  lemma InvIsCoherent(w: World)
    requires Inv(w)
    ensures Coherent(w)
  {
  }
}
