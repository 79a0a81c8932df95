/** The client's view of the heap, in which objects never move and are never freed, and what it means
    for the machine's memory to represent it. */
module Simulation {
  import opened Cells
  import opened Copying

  /** What the client knows of a cell: nothing yet (fresh storage is not cleared), a datum, or a
      capability for `len` cells starting `off` cells into an object. */
  datatype Value = Unknown | Number(n: int) | Ref(id: nat, off: nat, len: nat)

  /** Objects in order of allocation, and the root cells. */
  datatype Heap = Heap(objs: seq<seq<Value>>, roots: seq<Value>) {
    /** A reference stays inside its object. */
    ghost predicate InBounds(v: Value) {
      v.Ref? ==> v.id < |objs| && v.off < |objs[v.id]| && v.off + v.len <= |objs[v.id]|
    }
  }

  /** Which cell of which object an address holds. */
  datatype Place = Place(id: nat, off: nat)

  type Places = map<int, Place>

  /** Cell c is what the machine stores for v. */
  ghost predicate Represents(h: Heap, who: Places, v: Value, c: Cell) {
    match v
    case Unknown => true
    case Number(n) => c == Data(n)
    case Ref(id, off, len) =>
      && h.InBounds(v)
      && c.Tagged? && c.cap.len == len && !c.cap.forwarding
      && c.cap.base in who && who[c.cap.base] == Place(id, off)
  }

  function At(h: Heap, p: Place): Value {
    if p.id < |h.objs| && p.off < |h.objs[p.id]| then h.objs[p.id][p.off] else Unknown
  }

  /** Every address in `who` is a cell of an object. */
  ghost predicate PlacesExist(h: Heap, who: Places, m: Memory) {
    forall a :: a in who ==> 0 <= a < |m| && who[a].id < |h.objs| && who[a].off < |h.objs[who[a].id]|
  }

  /** The cells of an object lie side by side in order. */
  ghost predicate Contiguous(h: Heap, who: Places) {
    forall a, b :: a in who && who[a].id < |h.objs| && 0 <= b - a + who[a].off < |h.objs[who[a].id]| ==>
      b in who && who[b] == Place(who[a].id, b - a + who[a].off)
  }

  ghost predicate Unique(who: Places) {
    forall a, b :: a in who && b in who && who[a] == who[b] ==> a == b
  }

  ghost predicate CellsMatch(h: Heap, who: Places, m: Memory) {
    forall a :: a in who ==> 0 <= a < |m| && Represents(h, who, At(h, who[a]), m[a])
  }

  ghost predicate RootsMatch(h: Heap, who: Places, m: Memory, roots: Space) {
    && Within(roots, m) && |h.roots| == roots.len
    && forall a :: roots.Contains(a) ==> Represents(h, who, h.roots[a - roots.base], m[a])
  }

  /** Memory represents the client's heap: some of its objects (those that have not been reclaimed)
      are in memory, together with everything they refer to. */
  ghost predicate Simulates(h: Heap, who: Places, m: Memory, roots: Space) {
    && PlacesExist(h, who, m)
    && Contiguous(h, who)
    && Unique(who)
    && CellsMatch(h, who, m)
    && RootsMatch(h, who, m, roots)
  }

  // ---------------------------------------------------------------- moving objects

  /** A move of whole objects, all at once: dst takes each surviving cell to its new address. */
  ghost predicate Relocation(h: Heap, who: Places, g: Moves, m': Memory) {
    && (forall a :: a in g.dst ==> a in who && g.dst[a] in g.src && g.src[g.dst[a]] == a)
    && (forall b :: b in g.src ==> 0 <= b < |m'| && g.src[b] in g.dst && g.dst[g.src[b]] == b)
    && (forall a, b :: a in g.dst && b in who && who[a].id == who[b].id ==>
          b in g.dst && g.dst[b] - g.dst[a] == who[b].off - who[a].off)
  }

  /** The new content c' of a cell that held c: a known capability has followed its object. */
  ghost predicate Follows(g: Moves, v: Value, c: Cell, c': Cell) {
    match v
    case Unknown => true
    case Number(_) => c' == c
    case Ref(_, _, _) =>
      c.Tagged? && c.cap.base in g.dst && c' == Tagged(c.cap.(base := g.dst[c.cap.base]))
  }

  ghost predicate CellsFollow(h: Heap, who: Places, g: Moves, m: Memory, m': Memory) {
    forall a :: a in g.dst ==>
      a in who && 0 <= a < |m| && 0 <= g.dst[a] < |m'| && Follows(g, At(h, who[a]), m[a], m'[g.dst[a]])
  }

  ghost predicate RootsFollow(h: Heap, g: Moves, m: Memory, m': Memory, roots: Space) {
    && Within(roots, m) && Within(roots, m') && |h.roots| == roots.len
    && forall a :: roots.Contains(a) ==> Follows(g, h.roots[a - roots.base], m[a], m'[a])
  }

  ghost function Moved(who: Places, g: Moves): Places {
    map b | b in g.src && g.src[b] in who :: who[g.src[b]]
  }

  /** Moving objects is invisible to the client. */
  lemma RelocationSimulates(h: Heap, who: Places, m: Memory, roots: Space, g: Moves, m': Memory)
    requires Simulates(h, who, m, roots) && Relocation(h, who, g, m')
    requires CellsFollow(h, who, g, m, m') && RootsFollow(h, g, m, m', roots)
    ensures Simulates(h, Moved(who, g), m', roots)
  {
    hide Follows, Represents, Contiguous, Unique;
    var who' := Moved(who, g);
    forall b | b in who'
      ensures 0 <= b < |m'| && who'[b].id < |h.objs| && who'[b].off < |h.objs[who'[b].id]|
    {
      var a := g.src[b];
      assert a in who && who'[b] == who[a];
      assert who[a].id < |h.objs|;
    }
    RelocationKeepsContiguous(h, who, g, m');
    RelocationKeepsUnique(h, who, g, m');
    forall b | b in who'
      ensures 0 <= b < |m'| && Represents(h, who', At(h, who'[b]), m'[b])
    {
      FollowingRepresents(h, who, g, m', At(h, who'[b]), m[g.src[b]], m'[b]);
    }
    forall a | roots.Contains(a)
      ensures Represents(h, who', h.roots[a - roots.base], m'[a])
    {
      FollowingRepresents(h, who, g, m', h.roots[a - roots.base], m[a], m'[a]);
    }
  }

  lemma FollowingRepresents(h: Heap, who: Places, g: Moves, m': Memory, v: Value, c: Cell, c': Cell)
    requires Relocation(h, who, g, m') && Represents(h, who, v, c) && Follows(g, v, c, c')
    ensures Represents(h, Moved(who, g), v, c')
  {
  }

  lemma RelocationKeepsContiguous(h: Heap, who: Places, g: Moves, m': Memory)
    requires Contiguous(h, who) && Relocation(h, who, g, m')
    ensures Contiguous(h, Moved(who, g))
  {
    hide Contiguous;
    var who' := Moved(who, g);
    forall a, b | a in who' && who'[a].id < |h.objs| && 0 <= b - a + who'[a].off < |h.objs[who'[a].id]|
      ensures b in who' && who'[b] == Place(who'[a].id, b - a + who'[a].off)
    {
      NeighbourMoves(h, who, g, m', a, b);
    }
    ContiguousIf(h, who');
  }

  lemma ContiguousIf(h: Heap, who: Places)
    requires forall a, b :: a in who && who[a].id < |h.objs| && 0 <= b - a + who[a].off < |h.objs[who[a].id]| ==>
               b in who && who[b] == Place(who[a].id, b - a + who[a].off)
    ensures Contiguous(h, who)
  {
  }

  lemma ContiguousAt(h: Heap, who: Places, a: int, b: int)
    requires Contiguous(h, who)
    requires a in who && who[a].id < |h.objs| && 0 <= b - a + who[a].off < |h.objs[who[a].id]|
    ensures b in who && who[b] == Place(who[a].id, b - a + who[a].off)
  {
  }

  lemma NeighbourMoves(h: Heap, who: Places, g: Moves, m': Memory, a: int, b: int)
    requires Contiguous(h, who) && Relocation(h, who, g, m')
    requires a in Moved(who, g)
    requires who[g.src[a]].id < |h.objs| && 0 <= b - a + who[g.src[a]].off < |h.objs[who[g.src[a]].id]|
    ensures b in Moved(who, g) && who[g.src[b]] == Place(who[g.src[a]].id, b - a + who[g.src[a]].off)
  {
    hide Contiguous;
    var x := g.src[a];
    var y := x + (b - a);
    ContiguousAt(h, who, x, y);
    assert g.dst[y] - g.dst[x] == y - x;
  }

  lemma RelocationKeepsUnique(h: Heap, who: Places, g: Moves, m': Memory)
    requires Unique(who) && Relocation(h, who, g, m')
    ensures Unique(Moved(who, g))
  {
    var who' := Moved(who, g);
    forall a, b | a in who' && b in who' && who'[a] == who'[b]
      ensures a == b
    {
      assert g.src[a] in who && g.src[b] in who && who[g.src[a]] == who[g.src[b]];
      assert g.src[a] == g.src[b];
      assert g.dst[g.src[a]] == g.dst[g.src[b]];
    }
  }
}
