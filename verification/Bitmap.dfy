/** The start-of-object bitmap (src/gc_bitmap.c, src/inc/gc_bitmap.h): one bit per cell of a
    semispace, packed eight to a byte, set where an object starts. */
module Bitmaps {
  import opened Cells

  /** GC_BITMAP_BITS_TO_BYTES */
  function BitsToBytes(bits: nat): nat {
    (bits + 7) / 8
  }

  /** GC_BITMAP_GET */
  predicate Bit(bytes: seq<bv8>, index: nat)
    requires index / 8 < |bytes|
  {
    (bytes[index / 8] >> (index % 8)) & 1 == 1
  }

  /** Setting bit a of a byte changes bit a and no other. */
  lemma OrSetsOneBit(byte: bv8, a: nat, b: nat)
    requires a < 8 && b < 8
    ensures ((byte | (1 << a)) >> b) & 1 == 1 <==> a == b || (byte >> b) & 1 == 1
  {
  }

  /** GC_BITMAP_SET on the packed bytes sets exactly the one bit. */
  lemma SetBit(before: seq<bv8>, after: seq<bv8>, index: nat)
    requires index / 8 < |before|
    requires after == before[index / 8 := before[index / 8] | (1 << (index % 8))]
    ensures forall k: nat :: k / 8 < |before| ==> (Bit(after, k) <==> k == index || Bit(before, k))
  {
    forall k: nat | k / 8 < |before|
      ensures Bit(after, k) <==> k == index || Bit(before, k)
    {
      if k / 8 == index / 8 {
        OrSetsOneBit(before[index / 8], index % 8, k % 8);
        assert k % 8 == index % 8 ==> k == index;
      }
    }
  }

  /** The bits are the starts of the objects of the layout, and every other bit is clear, except that the
      one at the free end, where the next object will start, may have been set already. */
  ghost predicate Packs(bytes: seq<bv8>, objects: Layout) {
    && |objects| <= 8 * |bytes|
    && forall k: nat :: k < 8 * |bytes| && k != |objects| ==> (Bit(bytes, k) <==> k < |objects| && objects[k].lo == k)
  }

  class Bitmap {
    var bytes: array<bv8>
    var size: nat
    var used: nat
    /** The objects the bitmap stands for. */
    ghost var objects: Layout

    ghost predicate Valid()
      reads this, bytes
    {
      && bytes.Length == BitsToBytes(size)
      && used == |objects| <= size
      && Tiled(objects)
      && Packs(bytes[..], objects)
    }

    /** GC_init_bitmap */
    constructor (size: nat)
      ensures Valid() && fresh(bytes)
      ensures this.size == size && objects == []
    {
      this.size := size;
      this.used := 0;
      this.bytes := new bv8[BitsToBytes(size)];
      this.objects := [];
      new;
      Clear();
    }

    /** GC_bitmap_clr */
    method Clear()
      requires bytes.Length == BitsToBytes(size)
      modifies this`used, this`objects, bytes
      ensures Valid() && objects == []
    {
      forall i | 0 <= i < bytes.Length {
        bytes[i] := 0;
      }
      used := 0;
      objects := [];
      forall k: nat | k < 8 * bytes.Length ensures !Bit(bytes[..], k) {
        ZeroByte(k % 8);
      }
    }

    /** GC_bitmap_allocate.  Nothing is allocated if the length is 0, but the bit at the free end is set,
        and so there has to be one. */
    method Allocate(len: nat)
      requires Valid() && used + len <= size && used / 8 < bytes.Length
      modifies this`used, this`objects, bytes
      ensures Valid() && objects == Append(old(objects), len)
    {
      ghost var before := bytes[..];
      bytes[used / 8] := bytes[used / 8] | (1 << (used % 8));
      SetBit(before, bytes[..], used);
      AppendTiled(objects, len);
      objects := Append(objects, len);
      used := used + len;
    }

    /** GC_bitmap_find: is [pos, pos+len) exactly one object? */
    method Find(pos: nat, len: nat) returns (found: bool)
      requires Valid()
      ensures found <==> pos < |objects| && objects[pos] == Block(pos, pos + len)
    {
      if pos < |objects| {
        NextObject(objects, pos);
      }
      if len == 0 { return false; }
      if pos + len > used { return false; }
      if !Bit(bytes[..], pos) { return false; }
      if pos + len != used && !Bit(bytes[..], pos + len) { return false; }
      var i := 1;
      while i < len
        invariant 1 <= i <= len
        invariant objects[pos].hi >= pos + i
      {
        if Bit(bytes[..], pos + i) { return false; }
        i := i + 1;
      }
      return true;
    }

    /** GC_bitmap_get_container: the object holding pos, by the offset of pos in it and its length. */
    method GetContainer(pos: nat) returns (found: bool, relbase: nat, len: nat)
      requires Valid()
      ensures found <==> pos < |objects|
      ensures found ==> relbase == pos - objects[pos].lo && len == objects[pos].hi - objects[pos].lo
    {
      relbase, len := 0, 0;
      if pos >= used { return false, 0, 0; }
      NextObject(objects, pos);
      var p := pos;
      while true
        invariant objects[pos].lo <= p <= pos
        decreases p
      {
        if Bit(bytes[..], p) {
          relbase := pos - p;
          len := 1;
          p := p + 1;
          while p != used && !Bit(bytes[..], p)
            invariant objects[pos].lo + len == p <= objects[pos].hi
            decreases used - p
          {
            len := len + 1;
            p := p + 1;
          }
          return true, relbase, len;
        }
        if p == 0 { break; }
        p := p - 1;
      }
      found := false;
    }

    /** GC_grow_bitmap: the packed bytes move to a longer array and the new tail is cleared. */
    method Grow(newSize: nat)
      requires Valid() && newSize >= size
      modifies this`bytes, this`size
      ensures Valid() && objects == old(objects) && size == newSize && fresh(bytes)
    {
      var tmp := new bv8[BitsToBytes(newSize)];
      forall i | 0 <= i < bytes.Length {
        tmp[i] := bytes[i];
      }
      forall i | bytes.Length <= i < tmp.Length {
        tmp[i] := 0;
      }
      forall k: nat | k < 8 * tmp.Length && k != |objects|
        ensures Bit(tmp[..], k) <==> k < |objects| && objects[k].lo == k
      {
        if k / 8 < bytes.Length {
          assert Bit(tmp[..], k) == Bit(bytes[..], k);
        } else {
          ZeroByte(k % 8);
        }
      }
      bytes := tmp;
      size := newSize;
    }
  }

  lemma ZeroByte(b: nat)
    requires b < 8
    ensures (0 as bv8 >> b) & 1 == 0
  {
  }
}
