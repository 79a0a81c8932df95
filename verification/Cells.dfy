/** The machine the collector runs on, counted in 32-byte cells.

    Every capability the collector looks at is 32-byte aligned, so an address is the index of a cell
    and a length is a number of cells (byte lengths rounded up by GC_ALIGN_32).  Memory outside the
    blocks handed out by the low-level allocator holds arbitrary cells. */
module Cells {

  /** What a tagged cell holds.  `forwarding` is true when the forwarding permission is *missing*
      (GC_IS_FORWARDING_ADDRESS). */
  datatype Capability = Capability(base: int, len: nat, forwarding: bool)

  /** An untagged cell is plain data; `bits` is also what GC_cheri_getbase would read out of it. */
  datatype Cell = Data(bits: int) | Tagged(cap: Capability) {
    function Base(): int {
      if Tagged? then cap.base else bits
    }

    predicate IsForwarding() {
      Tagged? && cap.forwarding
    }
  }

  type Memory = seq<Cell>

  /** An interval of addresses: a semispace, or the unallocated suffix of one. */
  datatype Space = Space(base: int, len: nat) {
    /** GC_IN */
    predicate Contains(a: int) {
      base <= a < base + len
    }

    function End(): int {
      base + len
    }
  }

  /** One malloc block; every semispace sits in a block that is one cell longer than itself. */
  function Padded(s: Space): Space {
    Space(s.base, s.len + 1)
  }

  ghost predicate Apart(s: Space, t: Space) {
    s.End() <= t.base || t.End() <= s.base
  }

  ghost predicate Within(s: Space, m: Memory) {
    0 <= s.base && s.End() <= |m|
  }

  /** The extent of the object that a cell belongs to, as offsets from the start of its space. */
  datatype Block = Block(lo: nat, hi: nat)

  /** The allocated prefix of a space, one entry per cell: entry x is the object cell x belongs to. */
  type Layout = seq<Block>

  /** The objects are disjoint, non-empty and cover the allocated prefix without gaps. */
  ghost predicate Tiled(l: Layout) {
    && (forall x :: 0 <= x < |l| ==> l[x].lo <= x < l[x].hi <= |l|)
    && (forall x, y :: 0 <= x < |l| && l[x].lo <= y < l[x].hi ==> l[y] == l[x])
  }

  /** Objects lie one after the other: the next one starts where this one ends, and not before. */
  lemma NextObject(l: Layout, x: nat)
    requires Tiled(l) && x < |l|
    ensures l[x].hi < |l| ==> l[l[x].hi].lo == l[x].hi
    ensures forall y :: x < y < l[x].hi ==> l[y].lo != y
  {
    assert l[l[x].hi - 1] == l[x];
  }

  /** Appending an object of n cells at the end of the allocated prefix. */
  ghost function Append(l: Layout, n: nat): (r: Layout)
    ensures |r| == |l| + n
  {
    l + seq(n, _ => Block(|l|, |l| + n))
  }

  lemma AppendTiled(l: Layout, n: nat)
    requires Tiled(l)
    ensures Tiled(Append(l, n))
  {
    var l' := Append(l, n);
    forall x, y | 0 <= x < |l'| && l'[x].lo <= y < l'[x].hi
      ensures l'[y] == l'[x]
    {
      if x < |l| {
        assert l'[x] == l[x];
      }
    }
  }

  /** GC_ALIGN_32 on a size. */
  function Align32(bytes: nat): (r: nat)
    ensures r % 32 == 0 && bytes <= r < bytes + 32
  {
    (bytes + 31) / 32 * 32
  }
}
