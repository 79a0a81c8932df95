/** Memory and the low-level allocator under the collector (src/gc_low.c:9-135, 238-279). */
module LowMemory {
  import opened Cells

  /** What memcpy leaves of a cell: the bytes without the tag. */
  function Untagged(c: Cell): Cell {
    Data(c.Base())
  }

  /** The blocks handed out do not overlap each other or the roots. */
  ghost predicate TableOk(table: seq<Space>, roots: Space, m: Memory) {
    && Within(roots, m)
    && (forall i :: 0 <= i < |table| ==>
          0 < table[i].base && 0 < table[i].len && Within(table[i], m) && Apart(table[i], roots))
    && (forall i, k :: 0 <= i < k < |table| ==> Apart(table[i], table[k]))
  }

  /** Only the size of memory matters to the table. */
  lemma TableStays(table: seq<Space>, roots: Space, m: Memory, m': Memory)
    requires TableOk(table, roots, m) && |m| <= |m'|
    ensures TableOk(table, roots, m')
  {
  }

  class Machine {
    var mem: Memory
    /** GC_alloc_table: the blocks in use. */
    var table: seq<Space>
    /** Stack, registers and static data, as one array. */
    const roots: Space

    constructor (mem: Memory, roots: Space)
      ensures this.mem == mem && this.table == [] && this.roots == roots
    {
      this.mem, this.table, this.roots := mem, [], roots;
    }

    ghost predicate Valid()
      reads this
    {
      TableOk(table, roots, mem)
    }

    /** The block [p, p+n) could be handed out. */
    predicate IsFree(p: int, n: nat)
      reads this
    {
      && 0 < p && p + n <= |mem|
      && (p + n <= roots.base || roots.End() <= p)
      && forall i :: 0 <= i < |table| ==> p + n <= table[i].base || table[i].End() <= p
    }

    /** malloc: some block that is not in use, wherever the system puts it, with arbitrary contents. */
    method SystemMalloc(n: nat) returns (p: int)
      requires Valid()
      modifies this`mem
      ensures Valid() && IsFree(p, n) && |old(mem)| <= |mem|
      ensures forall a :: 0 <= a < |old(mem)| ==> mem[a] == old(mem)[a]
    {
      p := *;
      if !IsFree(p, n) {
        p := |mem| + 1;
        var junk: seq<Cell> := *;
        if |junk| != n + 1 {
          junk := seq(n + 1, _ => Data(0));
        }
        mem := mem + junk;
      }
    }

    /** GC_low_malloc */
    method LowMalloc(n: nat) returns (p: int)
      requires Valid() && n > 0
      modifies this`mem, this`table
      ensures Valid() && table == old(table) + [Space(p, n)] && |old(mem)| <= |mem|
      ensures forall a :: 0 <= a < |old(mem)| ==> mem[a] == old(mem)[a]
    {
      p := SystemMalloc(n);
      table := table + [Space(p, n)];
    }

    /** memcpy between blocks that do not overlap. */
    method Memcpy(dest: int, src: int, n: nat)
      requires Within(Space(dest, n), mem) && Within(Space(src, n), mem) && Apart(Space(dest, n), Space(src, n))
      modifies this`mem
      ensures |mem| == |old(mem)|
      ensures forall a :: dest <= a < dest + n ==> mem[a] == Untagged(old(mem)[src + (a - dest)])
      ensures forall a :: 0 <= a < |mem| && !(dest <= a < dest + n) ==> mem[a] == old(mem)[a]
    {
      var i := 0;
      while i < n
        invariant i <= n && |mem| == |old(mem)|
        invariant forall a :: dest <= a < dest + i ==> mem[a] == Untagged(old(mem)[src + (a - dest)])
        invariant forall a :: 0 <= a < |mem| && !(dest <= a < dest + i) ==> mem[a] == old(mem)[a]
      {
        mem := mem[dest + i := Untagged(mem[src + i])];
        i := i + 1;
      }
    }

    /** GC_cap_memcpy: the bytes are copied first, which loses the tags, and then every tagged cell is
        copied again as a capability. */
    method CapMemcpy(dest: Space, src: Space)
      requires dest.len >= src.len && Within(dest, mem) && Within(src, mem)
      requires Apart(Space(dest.base, src.len), src)
      modifies this`mem
      ensures |mem| == |old(mem)|
      ensures forall a :: dest.base <= a < dest.base + src.len ==> mem[a] == old(mem)[src.base + (a - dest.base)]
      ensures forall a :: 0 <= a < |mem| && !(dest.base <= a < dest.base + src.len) ==> mem[a] == old(mem)[a]
    {
      Memcpy(dest.base, src.base, src.len);
      label copied:
      var i := 0;
      while i < src.len
        invariant i <= src.len && |mem| == |old(mem)|
        invariant forall a :: dest.base <= a < dest.base + i ==> mem[a] == old(mem)[src.base + (a - dest.base)]
        invariant forall a :: 0 <= a < |mem| && !(dest.base <= a < dest.base + i) ==> mem[a] == old@copied(mem)[a]
      {
        if mem[src.base + i].Tagged? {
          mem := mem[dest.base + i := mem[src.base + i]];
        }
        i := i + 1;
      }
    }

    /** The search of GC_alloc_table by GC_low_realloc, up to its end if there is no such pointer. */
    method FindEntry(ptr: int) returns (i: nat)
      ensures i <= |table| && (i < |table| ==> table[i].base == ptr)
      ensures forall k :: 0 <= k < i ==> table[k].base != ptr
    {
      i := 0;
      while i < |table|
        invariant i <= |table|
        invariant forall k :: 0 <= k < i ==> table[k].base != ptr
      {
        if table[i].base == ptr { break; }
        i := i + 1;
      }
    }

    /** A block in use is found by its address. */
    lemma EntryFound(block: Space, i: nat)
      requires Valid() && block in table && i <= |table|
      requires i < |table| ==> table[i].base == block.base
      requires forall k :: 0 <= k < i ==> table[k].base != block.base
      ensures i < |table| && table[i] == block
    {
      var k :| 0 <= k < |table| && table[k] == block;
    }

    /** The part of GC_low_realloc after entry i has been found: a new block is allocated while the old one
        is still in use, the contents are copied, and the entry is changed to the new block, which frees
        the old one. */
    method Reallocate(i: nat, n: nat) returns (p: int)
      requires Valid() && i < |table| && 0 < table[i].len <= n
      modifies this`mem, this`table
      ensures Valid() && |old(mem)| <= |mem|
      ensures 0 < p && p + n <= |mem| && Apart(Space(p, n), roots)
      ensures forall b :: b in old(table) ==> Apart(Space(p, n), b)
      ensures Space(p, n) in table && forall b :: b in old(table) && b != old(table[i]) ==> b in table
      ensures forall a :: p <= a < p + old(table[i]).len ==> mem[a] == old(mem)[old(table[i]).base + (a - p)]
      ensures forall a :: 0 <= a < |old(mem)| && !(p <= a < p + n) ==> mem[a] == old(mem)[a]
    {
      hide TableOk;
      ghost var before := table;
      EntryBounds(i);
      p := SystemMalloc(n);
      FreeIsApart(Space(p, n), i);
      ghost var m1 := mem;
      CapMemcpy(Space(p, n), table[i]);
      TableStays(before, roots, m1, mem);
      table := table[i := Space(p, n)];
      EntryReplaced(before, i, Space(p, n));
    }

    lemma FreeIsApart(block: Space, i: nat)
      requires Valid() && block.len > 0 && IsFree(block.base, block.len) && i < |table|
      ensures 0 < block.base && Within(block, mem) && Within(table[i], mem) && Apart(block, roots)
      ensures forall b :: b in table ==> Apart(block, b) && 0 < b.len
    {
    }

    lemma EntryReplaced(before: seq<Space>, i: nat, block: Space)
      requires TableOk(before, roots, mem) && i < |before| && table == before[i := block]
      requires 0 < block.base && 0 < block.len && Within(block, mem) && Apart(block, roots)
      requires forall b :: b in before ==> Apart(block, b)
      ensures Valid() && block in table && forall b :: b in before && b != before[i] ==> b in table
    {
      assert table[i] == block;
      forall k, l | 0 <= k < l < |table| ensures Apart(table[k], table[l]) {
        assert before[k] in before && before[l] in before;
      }
      forall b | b in before && b != before[i] ensures b in table {
        var k :| 0 <= k < |before| && before[k] == b;
        assert table[k] == b;
      }
    }

    /** The block at an address, if there is one, is not longer than n. */
    ghost predicate AtMost(ptr: int, n: nat)
      reads this
    {
      forall b :: b in table && b.base == ptr ==> b.len <= n
    }

    /** GC_low_realloc for a block that stores capabilities: without a block it allocates one, a block that
        is in use moves with its contents, and any other address is an error. */
    method LowRealloc(ptr: int, n: nat, ghost block: Space) returns (ok: bool, p: int)
      requires Valid() && n > 0 && AtMost(ptr, n)
      modifies this`mem, this`table
      ensures ok <==> ptr == 0 || exists i :: 0 <= i < |old(table)| && old(table)[i].base == ptr
      ensures !ok ==> mem == old(mem) && table == old(table)
      ensures ok ==>
                && Valid() && |old(mem)| <= |mem|
                && 0 < p && p + n <= |mem| && Apart(Space(p, n), roots)
                && Space(p, n) in table
                && (forall b :: b in old(table) ==> Apart(Space(p, n), b))
                && (forall b :: b in old(table) && b.base != ptr ==> b in table)
                && (forall a :: 0 <= a < |old(mem)| && !(p <= a < p + n) ==> mem[a] == old(mem)[a])
      ensures block in old(table) && block.base == ptr ==>
                && ok && forall a :: p <= a < p + block.len ==> mem[a] == old(mem)[block.base + (a - p)]
    {
      hide TableOk;
      if ptr == 0 {
        NoBlockAtNull();
        p := LowMalloc(n);
        LastApart(table[..|table| - 1], Space(p, n));
        return true, p;
      }
      var i := FindEntry(ptr);
      if i == |table| {
        return false, 0;
      }
      if block in table && block.base == ptr {
        EntryFound(block, i);
      }
      EntryBounds(i);
      p := Reallocate(i, n);
      ok := true;
    }

    lemma LastApart(before: seq<Space>, block: Space)
      requires Valid() && table == before + [block]
      ensures 0 < block.base && block.End() <= |mem| && Apart(block, roots) && block in table
      ensures forall b :: b in before ==> Apart(block, b) && b in table
    {
      assert table[|before|] == block;
      forall b | b in before ensures Apart(block, b) && b in table {
        var k :| 0 <= k < |before| && before[k] == b;
        assert table[k] == b;
      }
    }

    lemma EntryBounds(i: nat)
      requires Valid() && i < |table|
      ensures 0 < table[i].len && Within(table[i], mem)
    {
    }

    lemma NoBlockAtNull()
      requires Valid()
      ensures forall b :: b in table ==> b.base != 0
    {
    }
  }
}
