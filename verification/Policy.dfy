/** What the collector's policies achieve, and exactly where they fall short: the high watermark of the
    old generation and the limits of growth. */
module Policy {
  import opened Cells
  import opened Grow

  // ---------------------------------------------------------------- the high watermark

  /** The high-watermark test after a promotion, with GC_OLD_GENERATION_HIGH_WATERMARK at 0.5: less
      than half of the old region, in bytes, is free. */
  predicate AboveWatermark(freeLen: nat, len: nat) {
    32 * freeLen < 32 * len / 2
  }

  /** GC_gen_promote's space check fails: the old region has less room than the young one has in use. */
  predicate NoRoom(room: nat, used: nat) {
    room < used
  }

  /** A young region of at most half the size of the old one. */
  predicate HalfSized(youngLen: nat, len: nat) {
    2 * youngLen <= len
  }

  /** Below the watermark there is room for every young region of at most half the size of the old one;
      above it there is too, only if rounding down makes no difference. */
  lemma RoomForHalf(free: nat, len: nat)
    ensures (forall used: nat :: HalfSized(used, len) ==> !NoRoom(free, used)) <==> 2 * (free + 1) > len
    ensures AboveWatermark(free, len) <==> 2 * free < len
  {
    if 2 * (free + 1) <= len {
      assert HalfSized(free + 1, len) && NoRoom(free, free + 1);
    }
  }

  /** The old region is not above the watermark, and the young one is, and by its limits stays, at most
      half its size. */
  predicate Guarded(youngLen: nat, free: nat, len: nat, before: nat, after: nat) {
    && !AboveWatermark(free, len)
    && HalfSized(youngLen, len)
    && before != 0 && 2 * Align32(before) <= 32 * len
    && after != 0 && 2 * Align32(after) <= 32 * len
  }

  lemma GuardedHasRoom(youngLen: nat, free: nat, len: nat, before: nat, after: nat, used: nat)
    requires Guarded(youngLen, free, len, before, after) && used <= youngLen
    ensures !NoRoom(free, used)
  {
  }

  /** Growing the young region keeps within its limits. */
  lemma GuardedYoungGrows(youngLen: nat, free: nat, len: nat, before: nat, after: nat, hint: nat, limit: nat)
    requires Guarded(youngLen, free, len, before, after) && (limit == before || limit == after)
    ensures Guarded(GrownLen(youngLen, hint, limit), free, len, before, after)
  {
    if !AtLimit(youngLen, limit) {
      AlignMonotone(Min(Max(2 * (32 * youngLen), 32 * youngLen + Align32(hint)), limit), limit);
    }
  }

  lemma AlignMonotone(a: nat, b: nat)
    requires a <= b
    ensures Align32(a) <= Align32(b)
  {
  }

  /** The limit lets the old region become twice as large as what is in use. */
  predicate RoomToHalve(used: nat, maxSize: nat) {
    maxSize == 0 || Align32(maxSize) >= 2 * (32 * used)
  }

  /** The old region is above the watermark only if its limit does not let it become twice as large as
      what is in use. */
  predicate WithinMark(free: nat, len: nat, maxSize: nat) {
    free <= len && (AboveWatermark(free, len) ==> !RoomToHalve(len - free, maxSize))
  }

  /** The growth at the end of a promotion, which asks for as much as is free, brings the old region back
      below the watermark exactly when its limit is at least twice what is in use. */
  lemma GrowthMeetsWatermark(free: nat, len: nat, maxSize: nat)
    requires free <= len && AboveWatermark(free, len)
    ensures len > 0
    ensures var grown := GrownLen(len, 32 * free, maxSize);
            && grown >= len
            && (!AboveWatermark(free + (grown - len), grown) <==> RoomToHalve(len - free, maxSize))
  {
    hide Align32;
    GrowsToDouble(free, len, maxSize);
  }

  /** With a hint of no more than its own size, a region doubles or goes to its limit. */
  lemma GrowsToDouble(free: nat, len: nat, maxSize: nat)
    requires free <= len && len > 0
    ensures !AtLimit(len, maxSize) ==>
              32 * GrownLen(len, 32 * free, maxSize) ==
              if maxSize == 0 || Align32(maxSize) >= 2 * (32 * len) then 2 * (32 * len) else Align32(maxSize)
    ensures AtLimit(len, maxSize) ==> 0 < Align32(maxSize) <= 32 * len
  {
    assert Align32(32 * free) == 32 * free;
    assert Align32(2 * (32 * len)) == 2 * (32 * len);
  }

  /** That growth can be reported as a success and still leave the region above the watermark, so that
      the next promotion can fail; it does so exactly when the limit is too low for the watermark but
      high enough for the hint. */
  lemma SuccessAboveWatermark(free: nat, len: nat, maxSize: nat)
    requires free <= len && AboveWatermark(free, len)
    ensures var grown := GrownLen(len, 32 * free, maxSize);
            && grown >= len
            && (Meets(len, 32 * free, maxSize) && AboveWatermark(free + (grown - len), grown) <==>
                32 * len < maxSize && 32 * (len + free) <= Align32(maxSize) < 2 * (32 * (len - free)))
  {
    GrowthMeetsWatermark(free, len, maxSize);
  }

  /** For instance 10 cells of which 1 is free, and a limit of 11 cells: 11 cells of which 2 are free have
      no room for a young region of 5 cells, although that is less than half of 11. */
  lemma SuccessAboveWatermarkHappens()
    ensures var grown := GrownLen(10, 32, 352);
            AboveWatermark(1, 10) && Meets(10, 32, 352) && grown == 11 && AboveWatermark(1 + (grown - 10), grown)
    ensures HalfSized(5, 11) && NoRoom(2, 5)
  {
  }

  // ---------------------------------------------------------------- the allocator's growth

  /** When growth is tried for a request that does not fit, the request fits afterwards exactly when the
      limit allows what is in use together with the request ... */
  lemma FitsAfterGrowth(free: nat, len: nat, sz: nat, maxSize: nat)
    requires free <= len && sz % 32 == 0 && sz > 32 * free
    ensures var grown := GrownLen(len, sz, maxSize);
            && grown >= len
            && (sz <= 32 * (free + (grown - len)) <==> maxSize == 0 || 32 * (len - free) + sz <= Align32(maxSize))
            && (Meets(len, sz, maxSize) ==> sz <= 32 * (free + (grown - len)))
  {
    if !AtLimit(len, maxSize) {
      GrowSizeBounds(32 * len, sz, maxSize);
    }
  }

  /** ... but GC_grow only reports success if the whole request has been added to the region.  So it
      reports a failure although the request fits exactly when the limit allows the request together with
      what is in use, but not together with the whole region. */
  lemma FailureWithRoom(free: nat, len: nat, sz: nat, maxSize: nat)
    requires free <= len && sz % 32 == 0 && sz > 32 * free
    ensures var grown := GrownLen(len, sz, maxSize);
            && grown >= len
            && (!Meets(len, sz, maxSize) && sz <= 32 * (free + (grown - len)) <==>
                maxSize != 0 && 32 * (len - free) + sz <= Align32(maxSize) < 32 * len + sz)
  {
    FitsAfterGrowth(free, len, sz, maxSize);
  }

  /** GC_malloc_region collects: sz bytes do not fit, and the limit for growth before a collection does
      not allow all of them. */
  predicate Collects(len: nat, free: nat, sz: nat, before: nat) {
    sz > 32 * free && !Meets(len, sz, before)
  }

  /** Collecting, in numbers: the request neither fits nor may be added to the region before a collection. */
  lemma CollectsExactly(len: nat, free: nat, sz: nat, before: nat)
    requires sz % 32 == 0
    ensures !Collects(len, free, sz, before) <==>
            sz <= 32 * free || before == 0 || (32 * len < before && 32 * len + sz <= Align32(before))
  {
  }

  /** The decision of GC_malloc_region to give up on sz bytes.  The young region has `len` cells of which
      `free` are free, `room` is what is free in the old region, and the limits are those for growth
      before and after a collection. */
  predicate GivesUp(len: nat, free: nat, room: nat, sz: nat, before: nat, after: nat)
    requires free <= len
  {
    && Collects(len, free, sz, before)
    && var len1 := GrownLen(len, sz, before);
       && sz > 32 * FreeThen(len, free, room, len1)
       && !Meets(len1, sz, after)
  }

  /** Giving up, in numbers. */
  lemma GivesUpExactly(len: nat, free: nat, room: nat, sz: nat, before: nat, after: nat)
    requires free <= len && sz % 32 == 0
    ensures GivesUp(len, free, room, sz, before, after) <==>
            && sz > 32 * free
            && before != 0 && (32 * len >= before || 32 * len + sz > Align32(before))
            && var len1 := GrownLen(len, sz, before);
               && sz > 32 * (if len - free <= room then len1 else free + len1 - len)
               && after != 0 && (32 * len1 >= after || 32 * len1 + sz > Align32(after))
  {
    hide GrownLen;
    AlignedSize(sz);
  }

  lemma AlignedSize(sz: nat)
    requires sz % 32 == 0
    ensures Align32(sz) == sz
  {
  }

  /** The size of the young region after GC_malloc_region: as it was if the request fits at once; as it is
      after the first growth if that, or the collection after it, makes it fit; and otherwise as it is
      after the last growth. */
  function FinalLen(len: nat, free: nat, room: nat, sz: nat, before: nat, after: nat): nat
    requires free <= len
  {
    var len1 := GrownLen(len, sz, before);
    if sz <= 32 * free then len
    else if before == 0 || (32 * len < before && 32 * len + sz <= Align32(before)) then len1
    else if sz <= 32 * (if len - free <= room then len1 else free + len1 - len) then len1
    else GrownLen(len1, sz, after)
  }

  /** What is free of the young region after it has grown to len1 cells and then been collected: all of
      it if the old region had room for what was in use. */
  function FreeThen(len: nat, free: nat, room: nat, len1: nat): int
    requires free <= len
  {
    if len - free <= room then len1 else free + (len1 - len)
  }

  /** The allocator does not give up if its final limit allows the request beside the whole region as it
      is after the first growth; so with no limit it never does, and neither does it if the old region
      has room and the request fits into an empty young region. */
  lemma WhenItServes(len: nat, free: nat, room: nat, sz: nat, before: nat, after: nat)
    requires free <= len
    ensures sz <= 32 * free ==> !GivesUp(len, free, room, sz, before, after)
    ensures after == 0 ==> !GivesUp(len, free, room, sz, before, after)
    ensures len - free <= room && sz <= 32 * len && sz % 32 == 0 ==>
              !GivesUp(len, free, room, sz, before, after)
  {
    if sz % 32 == 0 && sz > 32 * free {
      FitsAfterGrowth(free, len, sz, before);
    }
  }

  /** What is free of the young region when GC_malloc_region gives up, after its last growth. */
  function FreeWhenGivenUp(len: nat, free: nat, room: nat, sz: nat, before: nat, after: nat): int
    requires free <= len
  {
    var len1 := GrownLen(len, sz, before);
    FreeThen(len, free, room, len1) + GrownLen(len1, sz, after) - len1
  }

  /** The allocator gives up on a request although it would fit exactly when the request has come to the
      last growth, and the final limit allows it together with what is then in use, but not together with
      the whole region. */
  lemma RefusedWithRoom(len: nat, free: nat, room: nat, sz: nat, before: nat, after: nat)
    requires free <= len && sz % 32 == 0
    ensures var len1 := GrownLen(len, sz, before);
            var free1 := FreeThen(len, free, room, len1);
            (GivesUp(len, free, room, sz, before, after) &&
                sz <= 32 * FreeWhenGivenUp(len, free, room, sz, before, after)) <==>
            (&& Collects(len, free, sz, before) && sz > 32 * free1
             && after != 0 && 32 * (len1 - free1) + sz <= Align32(after) < 32 * len1 + sz)
  {
    hide Align32, Meets, GrownLen;
    var len1 := GrownLen(len, sz, before);
    if sz > 32 * free {
      FitsAfterGrowth(free, len, sz, before);
      var free1 := FreeThen(len, free, room, len1);
      if sz > 32 * free1 {
        FailureWithRoom(free1, len1, sz, after);
      }
    }
  }

  /** For instance an empty young region of 4 cells with limits of 4 and 6: a request for 5 cells is
      refused, although the region has then grown to 6 free cells. */
  lemma RefusedWithRoomHappens()
    ensures GivesUp(4, 4, 0, 160, 128, 192) && FreeWhenGivenUp(4, 4, 0, 160, 128, 192) == 6
  {
  }

  /** Right after the first growth, too, GC_grow's failure need not mean that the request does not fit: 4
      cells of which 3 are free, 4 are asked for, and the limit is 5. */
  lemma FailureWithRoomHappens()
    ensures !Meets(4, 128, 160) && GrownLen(4, 128, 160) == 5 && 128 <= 32 * (3 + (5 - 4))
  {
  }
}
