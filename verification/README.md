# A verified model of a capability garbage collector and the interpreter that runs on it

The repository has two halves, and this project models the core of both.

**The collector** (`src/`) is a precise, generational copying collector for a CHERI machine.  New objects are
bumped off a young region; when it is full they are promoted, by a Cheney copy, into an old region, which has two
semispaces and is collected by copying from one to the other.  Capabilities are found by their tags.  A forwarding
capability in an object's first cell says where its copy is; a bitmap of object starts resolves capabilities that
point into the middle of objects; stores go through a barrier that remembers old slots leading into the young
region; and both regions can grow, which moves them and shifts every capability into them.

The main result is `Client.Run`.  It takes an arbitrary client - a function from what it has seen so far to what it
does next: allocate, load, store, narrow a capability, copy memory, collect - and says that the client sees nothing
it could not have seen on a heap where objects never move and are never freed.  The invariant it carries
(`Worlds.Inv`) ties memory to such a heap: every allocated cell holds a place of some object, all data agree, every
capability leads to the place its abstract reference names, and every old slot that leads into the young region is
remembered.

**The interpreter** (`ml/`) is a small ML: a maximal-munch lexer, a parser with eight levels of precedence, and an
evaluator with closures over linked environments.  The main results are that evaluation agrees with call by value by
substitution (`MlEval.ClosedProgramsAgree`), that the parser accepts exactly the forms of the grammar, as what they mean
(`MlForms.ParserExact`), and that every such form, with parentheses and white space wherever the writer puts them, is
lexed and parsed back from its text (`MlSource.FormRoundTrip`).

## How it is built

| files | what they hold |
|---|---|
| `Cells`, `Bitmap`, `RememberedSet`, `LowMemory`, `Regions`, `Collectors` | memory in 32-byte cells, the bit-packed bitmap, the remembered set, the low-level allocator, regions, and the whole state as classes |
| `Copying`, `Exactness`, `Reclaiming` | the copying collection as a theory on values: the relocation built so far, what every step keeps, what a finished copy has achieved, and what it has reclaimed in the client's terms |
| `Copy` | the collector's copying loops, proved to be runs of that theory |
| `Simulation`, `Generations`, `Worlds`, `Relocating`, `Mutating` | the client's heap, the invariant, and why collection, growth, allocation and stores keep it |
| `Grow`, `Collect`, `Allocator`, `Barrier`, `Startup`, `Policy` | the operations as methods on the state, and what their policies achieve |
| `Client`, `Leftovers` | runs of a client, and what a client must not do with leftovers |
| `MlSyntax`, `MlLexer`, `MlGrammar`, `MlParser`, `MlEval` | the interpreter |
| `MlForms`, `MlPrinter`, `MlSource`, `MlCharacters` | the concrete syntax it accepts, ways to write expressions down, their text, and its characters |

The code's imperative parts are methods on classes with the source's fields.  What they compute is stated with ghost
values (`Job`, `Moves`, `World`), about which the theory files prove the hard properties.  `hide` at the head of a
proof names the definitions it does not need.

The machine is counted in cells of 32 bytes: every address is a cell's index, and lengths are rounded up as
GC_ALIGN_32 does.  An untagged cell is data.  A capability is its base, its length and the forwarding flag.  Blocks
from the system are placed anywhere that is free, with arbitrary contents, and the stack, the registers and the
static data are one array of root cells.  The configuration is the shipped one (`src/inc/gc_config.h`): generational,
bitmap on, manual barrier, remembered set, both heaps growable, watermark 0.5.

What the client has to do, and `Client.Do` calls stuck if it does not: ask for more than zero bytes; start
capabilities inside an object and not reach past its end; store capabilities through the barrier; not look at cells it
has never set; and not store what it has from such cells at the start of an object (the first finding below).  It need
*not* initialise a new object before the next collection: fresh cells, and root cells not yet set, may hold any leftover
bits, forwarding capabilities included, may be loaded, and may be copied anywhere else.

Whatever the limits, `Client.Run` shows that between any two operations the old region is above the high watermark only
if its limit does not let it become twice as large as what is in use.  If the old region may grow without a limit, and the
young region is, and by its limits stays, at most half its size, then no promotion ever finds the old region too small, and
the old region is never above the watermark between operations.  The shipped limits (`src/inc/gc_config.h:14-19`) are
others: there the young region may grow without a limit, and so no allocation ever fails.

## Findings

The following hold of the code as it is; the first three are proved as exact conditions, each with an instance.

- GC_malloc clears only the first cell of an object, and GC_memcpy and GC_STORE_CAP copy whatever is tagged.  A leftover
  forwarding capability from a cell that was never set, copied to the start of an object, makes that object look as if
  it had been copied already.  A store keeps the invariant if and only if it does not do that
  (`Mutating.StoreKeepsInv`, `Barrier.GCMemcpy`; an instance: `Leftovers.CopyingALeftoverSpoils`).
- GC_grow can report success and leave the old region above the high watermark, so that the next promotion may find
  no room: exactly when the limit is too low to halve the residency but high enough for the hint
  (`Policy.SuccessAboveWatermark`; in the instance, 11 cells of which 2 are free have no room for 5).
- The allocator can refuse a request that would fit after the growth it has just made, because GC_grow reports
  success only when the whole request has been added: exactly when the request has come to the last growth and the final
  limit covers it with what is in use but not with the whole region (`Policy.RefusedWithRoom`).  Then the assertion at
  `src/gc_malloc.c:168` is false.  The one at `:126` is false under the corresponding condition on the first growth
  (`Policy.FailureWithRoom`), where the allocator goes on to collect.
- The header comment of `src/inc/gc_low.h:115-190` describes a barrier that reads age bits; the macro that is
  compiled compares addresses instead, and the model follows the macro.
- In the ML grammar `+` binds looser than `-`, and `*` looser than `/`, so `x - y + z` reads as usual but `x * y / z` is
  `x * (y / z)` (`MlPrinter.PlusAndTimesAreLooser`); `::` parses but evaluates to 0 (`MlEval.ArithMeans`).

## Model

| member | source | states |
|---|---|---|
| Cells.Align32 | src/inc/gc_low.h:391-392 | the next multiple of 32 at or above a size |
| Cells.NextObject | src/inc/gc_bitmap.h:40-47 | objects lie one after the other: the next one starts exactly where this one ends, and none starts within it |
| Cells.AppendTiled | src/gc_bitmap.c:35-42 | an object appended at the free end keeps the objects disjoint, non-empty and without gaps |
| Bitmaps.OrSetsOneBit | src/inc/gc_bitmap.h:54-60 | setting a bit of a packed byte changes that bit and no other |
| Bitmaps.SetBit | src/inc/gc_bitmap.h:54-60 | GC_BITMAP_SET on the packed bytes sets exactly the one bit of the whole map |
| Bitmaps.Bitmap.constructor | src/gc_bitmap.c:8-18 | a new bitmap is valid and holds no object |
| Bitmaps.Bitmap.Clear | src/gc_bitmap.c:44-49 | afterwards the bitmap holds no object |
| Bitmaps.Bitmap.Allocate | src/gc_bitmap.c:35-42 | the objects are those from before and, unless the length is 0, one of that length after them; the packed bytes still mark exactly the starts, but for the bit at the free end |
| Bitmaps.Bitmap.Find | src/gc_bitmap.c:51-64 | true if and only if the interval is exactly one allocated object |
| Bitmaps.Bitmap.GetContainer | src/gc_bitmap.c:66-92 | fails if and only if the position is not allocated, and otherwise gives the offset in and the length of the one object that holds it |
| Bitmaps.Bitmap.Grow | src/gc_bitmap.c:20-33 | the packed bytes move to a longer array and the objects, so all answers, stay the same |
| RememberedSets.RememberedSet.constructor | src/gc_remset.c:6-20 | a new remembered set is empty |
| RememberedSets.RememberedSet.Add | src/gc_remset.c:22-58 | the set gains exactly the address, at the end and without a duplicate; the array doubles exactly when it is full and the address new |
| RememberedSets.RememberedSet.Clear | src/gc_remset.c:60-65 | afterwards nothing is remembered |
| LowMemory.Machine.LowMalloc | src/gc_low.c:80-85 | a block that overlaps neither the roots nor a block in use is added to the table; no cell that was there changes |
| LowMemory.Machine.Memcpy | src/gc_low.c:243 | the bytes arrive without their tags and nothing else changes |
| LowMemory.Machine.CapMemcpy | src/gc_low.c:231-269 | the cells arrive with their tags and nothing else changes |
| LowMemory.Machine.FindEntry | src/gc_low.c:104-111 | the first entry with the address, or the end of the table |
| LowMemory.Machine.Reallocate | src/gc_low.c:111-135 | the contents are in a new block apart from every block that was in use, the old one included; the other blocks stay in use and nothing else changes |
| LowMemory.Machine.LowRealloc | src/gc_low.c:94-141 | without a block one is allocated; the block at the address moves with its contents; any other address is an error, and only that |
| Copying.RoomForCopy | src/gc_collect.c:258-272 | copying never overruns: an object that has not been copied and everything copied so far are disjoint parts of the fromspace, so it fits |
| Copying.ReadyToCopy | src/gc_collect.c:240-265 | forwarding is unambiguous: the first cell of an object holds a forwarding capability exactly when the object has been copied, and then it names the copy |
| Copying.CopyKeepsBijection | src/gc_collect.c:265-275 | each object has one copy: the relocation stays one-to-one between copied cells and the filled part of the tospace |
| Copying.CopyKeepsRecord | src/gc_collect.c:274-275 | the tospace bitmap records each copy with the extent of its original |
| Copying.CopyKeepsForwarding | src/gc_collect.c:289-290 | writing the forwarding capability keeps forwarding exact |
| Copying.CopyKeepsConsistent | src/gc_collect.c:258-296 | copying one object keeps all of the collection's invariant |
| Copying.RedirectIsStep | src/gc_collect.c:428-455 | turning a slot into a capability for the whole object, copying, and putting offset and length back redirects it to the same place in the copy |
| Copying.StepOnSlot | src/gc_collect.c:328-392 | processing a root or remembered slot keeps the state of a running collection |
| Copying.StepOnCopy | src/gc_collect.c:468-474 | scanning a copied cell keeps the state of a running collection |
| Copying.ReachedIsCopied | src/gc_collect.c:187-203 | when the scan has met the free end, everything the slots reach has been copied |
| Copying.CopyIsExact | src/gc_collect.c:127-130 | exactly the reachable cells have been copied, and the space taken is their number |
| Copying.CopyIsIsomorphic | src/gc_collect.c:187-203 | the copied graph is isomorphic to the reachable one: sharing and cycles kept, data equal, extents equal, slots agreeing, and no slot or copied cell leads back into the fromspace |
| Copying.InteriorSurvives | src/gc_collect.c:335-390 | a capability into the middle of an object, or a shortened one, in a slot or inside a copied object, starts as many cells into the object's copy and keeps its length |
| Copy.CopyObject | src/gc_collect.c:218-297 | gives the object's one copy without the forwarding flag, made now if there was none |
| Copy.FindObject | src/gc_collect.c:411-430 | accepts exactly the capabilities into an allocated object that do not reach past its end, and names the object |
| Copy.CopyChild | src/gc_collect.c:398-458 | the cell leads to the same place in the copy, if it led into the fromspace; otherwise it is unchanged; only new copies and fromspace cells change besides |
| Copy.CopyRoots | src/gc_collect.c:299-396 | every root cell has been processed once |
| Copy.CopyRememberedSet | src/gc_collect.c:479-499 | every remembered slot has been processed once, and the set is empty |
| Copy.CopyChildren | src/gc_collect.c:460-475 | ends with scan at the free end and a complete copy |
| Copy.CopyRegion | src/gc_collect.c:149-216 | a complete copy of what the roots, and for a promotion the remembered slots, reach, with scan at the free end |
| Exactness.MajorFreesTheGarbage | src/gc_collect.c:102-130 | what a major collection frees is the number of unreachable allocated cells |
| Exactness.PromotionTakesTheReachable | src/gc_collect.c:505-510 | a promotion takes the room of the reachable young objects only, so the estimate it checks is never too small |
| Exactness.PromotionAdds | src/gc_collect.c:536-568 | a promotion leaves the old tospace and the objects in it as they were, adds the reachable young ones, and leaves exactly the rest free |
| Exactness.ReachableMoves | src/gc_collect.c:408-455 | a relocation that redirects every pointer keeps what is reachable reachable |
| Exactness.MajorLeavesNoGarbage | src/gc_collect.c:102-137 | after a major collection everything in the old generation can be reached from the roots |
| Exactness.GrowthKeepsNoGarbage | src/gc_low.c:474-490 | moving the old generation when it grows keeps everything in it reachable |
| Exactness.InUseIsAlive | src/gc_collect.c:127-130 | without garbage, the cells in use are the live ones |
| Exactness.NothingToFree | src/gc_collect.c:127-130 | a major collection without garbage frees nothing |
| Reclaiming.ReachedIsPresent | src/gc_collect.c:187-203 | whatever the client's heap reaches from its roots is in memory, at all times |
| Reclaiming.KeptIsReached | src/gc_collect.c:102-137 | when a major collection has left no garbage, and every root and cell is set, the objects in memory are exactly those that the client's heap reaches |
| Simulation.RelocationSimulates | src/gc_collect.c:149-216 | any move of whole objects, all at once, that every known capability follows is invisible to the client |
| Generations.KnownIsMovable | src/gc_collect.c:335-356 | a capability the client knows that leads into the fromspace is always one that the collector moves |
| Generations.CollectionSimulates | src/gc_collect.c:149-216 | a complete copy leaves memory representing the client's heap, with the tospace holding exactly the surviving objects at their extents and no forwarding capability at any start |
| Worlds.InitialisedOldSlotsRemembered | src/gc_low.c:303-315 | whenever the invariant holds, an old slot the client has set that leads into the young region is remembered |
| Worlds.PromotionCollectable | src/gc_collect.c:536-559 | roots and remembered slots are all the ways from outside into the young generation, so they are enough to start from |
| Worlds.PromotionKeepsInv | src/gc_collect.c:502-568 | a promotion that passes its space check keeps the invariant with the client's heap unchanged, and leaves nothing young and nothing remembered |
| Worlds.MajorCollectable | src/gc_collect.c:102-125 | with nothing young, the roots are all the ways into the old generation |
| Worlds.MajorKeepsInv | src/gc_collect.c:102-137 | a major collection with nothing young keeps the invariant with the client's heap unchanged |
| Relocating.MoveSimulates | src/gc_collect.c:669-851 | moving a generation and shifting the capabilities into it is invisible to the client; cells of the other generation may be left alone if they do not lead there |
| Relocating.YoungGrowthKeepsInv | src/gc_collect.c:730-771 | growing the young region in another block, rebasing roots, the new tospace and the remembered slots, keeps the invariant |
| Relocating.OldGrowthKeepsInv | src/gc_collect.c:730-771 | growing the old region keeps the invariant if nothing is young or remembered |
| Grow.GrowSizeBounds | src/gc_low.c:349-366 | below the limit the new size is a multiple of 32, larger than the old unless size and hint are 0, and at most the rounded limit; it covers the hint, and it doubles, exactly when the limit allows that; and it is the least that does both, or exactly the rounded limit |
| Grow.GrownLenIsLeast | src/gc_low.c:349-366 | at the limit a region keeps its size, and below it grows to the least size that serves, or to the rounded limit |
| Grow.GrownForALargeRequest | src/gc_low.c:363-366 | for instance 4 cells asked for 5 more become 9, or 7 with a limit of 7 |
| Grow.Rebase | src/gc_collect.c:798-851 | each cell of the range is shifted once, by the distance moved, if its base lies in the old block, upper edge included; nothing else changes |
| Grow.RebaseRemembered | src/gc_collect.c:748-772 | each remembered slot is shifted once and nothing else changes |
| Grow.RegionRebase | src/gc_collect.c:669-796 | roots, new tospace and remembered slots are each rebased once, every other cell is untouched, and scan and free move along |
| Grow.Move | src/gc_low.c:385-437 | the semispaces are in new blocks apart from each other and from every block in use, with the contents of the tospace |
| Grow.Resize | src/gc_low.c:439-468 | the region names the new blocks, the bitmaps keep their objects, and free gains exactly the difference |
| Grow.Enlarge | src/gc_low.c:439-490 | the region is valid in its new block, and every capability into the old one is shifted exactly once |
| Grow.GrowRegion | src/gc_low.c:333-518 | the size is the least that is double the old and covers the rounded hint, or the rounded limit; true if and only if the whole rounded hint was gained; at the limit nothing changes |
| Grow.GrowYoung | src/gc_low.c:333-518 | growth of the young region keeps the invariant and is invisible to the client |
| Grow.GrowOld | src/gc_low.c:333-518 | growth of the old region does so too, given that nothing is young or remembered |
| Collect.PromoteCopy | src/gc_collect.c:536-567 | with the young tospace, bitmap and remembered set borrowed as its fromspace, the old region ends with a complete copy and gets its own back |
| Collect.Promote | src/gc_collect.c:536-568 | the copying part of a promotion, in terms of the state before it |
| Collect.CollectOldCopy | src/gc_collect.c:102-125 | the semispaces and bitmaps have swapped, and the copy into the cleared one is complete |
| Collect.CollectOld | src/gc_collect.c:102-137 | a major collection, allowed only with nothing young or remembered, keeps the invariant and is complete |
| Collect.RelieveOld | src/gc_collect.c:619-658 | untouched at or below the watermark; otherwise collected once, no garbage is left, and the region ends below the watermark exactly if it did without growing or its limit has room for twice what is in use |
| Collect.GrowOldSpace | src/gc_collect.c:642-657 | the growth that is left as the last resort, with its result and the exact condition for passing the watermark |
| Collect.PromotedAsAbove | src/gc_collect.c:589-621 | the watermark test after a promotion is whether the young objects that are reached leave half of the old region free |
| Collect.GenPromote | src/gc_collect.c:502-666 | without room for the young generation nothing happens; otherwise nothing is young or remembered; the old region is not collected, and is the old one with the promoted objects, if and only if that is not asked for and at least half of it is left free; if it is collected no garbage is left; and the watermark condition holds |
| Collect.PromoteWithinMarks | src/gc_collect.c:502-666 | a promotion keeps the old region above the watermark only where its limit leaves no other way, and a collector in which promotions cannot fail so |
| Collect.RelievedIsSized | src/gc_collect.c:642-657 | the old region keeps its size or has been grown once |
| Collect.CollectYoung | src/gc_collect.c:54-98 | the promotion, and the warning exactly when there was no room; how often the old region is collected, never by a minor collection that leaves half of it free; it keeps the same marks |
| Collect.RelievedIsMarked | src/gc_collect.c:615-657 | for every limit, the end of a promotion leaves the old region above the watermark only if the limit has no room for twice what is in use |
| Collect.RelievedStaysGuarded | src/gc_collect.c:615-657 | for every limit, a promotion leaves room for every young region within its limits if and only if it did not grow the old region, or the limit has room for twice what is in use |
| Policy.RoomForHalf | src/gc_collect.c:615-622 | below the watermark there is room for every young region of at most half the size; exactly how far above it that still holds |
| Policy.GuardedHasRoom | src/gc_collect.c:505-510 | with an old region not above the watermark and a young one of at most half its size, the space check passes |
| Policy.GuardedYoungGrows | src/gc_low.c:349-366 | growing the young region within such limits keeps it at most half the size |
| Policy.GrowsToDouble | src/gc_low.c:363-366 | with a hint of no more than its size, a region doubles, or goes exactly to its rounded limit if that is nearer |
| Policy.GrowthMeetsWatermark | src/gc_collect.c:648-650 | growth brings the old region below the watermark if and only if the limit has room for twice what is in use |
| Policy.SuccessAboveWatermark | src/gc_collect.c:615-657 | exactly when a growth reported as a success leaves the region above the watermark |
| Policy.SuccessAboveWatermarkHappens | src/gc_collect.c:505-530 | it happens: 10 cells of which 1 is free, and a limit of 11; the 11 cells, 2 of them free, have no room for a young region of 5 |
| Policy.FitsAfterGrowth | src/gc_malloc.c:153-159 | after growth a request fits if and only if the limit covers it and what is in use; a success of GC_grow implies that it fits |
| Policy.FailureWithRoom | src/gc_malloc.c:117-126 | exactly when GC_grow reports a failure although the request fits afterwards |
| Policy.FailureWithRoomHappens | src/gc_malloc.c:117-126 | it happens: 4 cells of which 3 are free, 4 asked for, and a limit of 5 |
| Policy.RefusedWithRoom | src/gc_malloc.c:103-176 | exactly when the allocator refuses a request although it would fit, in terms of the sizes before the call |
| Policy.RefusedWithRoomHappens | src/gc_malloc.c:103-176 | it happens: an empty region of 4 cells with limits of 4 and 6 refuses 5 cells, and then has 6 free |
| Policy.WhenItServes | src/gc_malloc.c:103-177 | the allocator does not give up if the request fits, if the final limit is 0, or if the old region has room and the request fits into an empty young region |
| Policy.CollectsExactly | src/gc_malloc.c:103-138 | the allocator does not collect if and only if the request fits, there is no limit before a collection, or that limit allows the request beside the whole region |
| Policy.GivesUpExactly | src/gc_malloc.c:103-177 | when the allocator gives up, in sizes and limits alone |
| Mutating.AllocKeepsInv | src/gc_malloc.c:184-210 | a bump allocation whose first cell is untagged keeps the invariant: it overlaps no object and adds one of which the client knows nothing |
| Mutating.StrayCellKeepsInv | src/gc_malloc.c:210 | writing a cell that belongs to nothing keeps the invariant |
| Mutating.StoreKeepsCoherent | src/inc/gc_low.h:198-211 | whatever is stored through the barrier, memory goes on representing the client's heap and old slots into the young region are remembered |
| Mutating.StoreKeepsInv | src/inc/gc_low.h:198-211 | a store that has passed the barrier keeps the invariant if and only if it does not put a forwarding capability at the start of an object, which only a cell that was never set can hold |
| Leftovers.BeforeHolds | src/gc_malloc.c:204-210 | a state in which a cell that was never set holds a leftover forwarding capability satisfies the invariant |
| Leftovers.CopyingALeftoverSpoils | src/gc_memcpy.c:24-30 | copying that cell to the start of another object loses the invariant: the object looks as if it had been copied, so that the next promotion cannot start from a clean young generation |
| Mutating.RootKeepsInv | src/inc/gc_low.h:198-211 | a store in a root keeps it without a barrier |
| Allocator.Bump | src/gc_malloc.c:184-216 | the new object is the old free end, the bitmap gains it, its first cell loses its tag, and nothing else in memory changes; of no cells nothing becomes an object |
| Allocator.GrowForRequest | src/gc_malloc.c:117-158 | growth for a request: its result and sizes, and nothing old changes |
| Allocator.CollectThenGrow | src/gc_malloc.c:128-166 | after a collection and a growth, says whether the request now fits, and when, and what is free if not; the region is grown only if the collection has not made the request fit; the old region is collected only by the rule for minor collections |
| Allocator.MakeRoom | src/gc_malloc.c:103-177 | the exact condition for giving up in terms of the sizes and limits before, and what is free then; otherwise the request fits; the exact condition for collecting, the exact size of the young region afterwards, and how often the old region is collected; nothing old changes without a collection; the client sees no change |
| Allocator.Malloc | src/gc_malloc.c:76-233 | a new object of the rounded size that is disjoint from all others, or NULL under exactly the condition for giving up and no change the client can see; the same about collections and sizes; after a collection that found room only the new object is young |
| Barrier.Bar | src/inc/gc_low.h:198-208 | the slot is remembered exactly if it is old and the stored capability leads into the young region |
| Barrier.StoreCap | src/inc/gc_low.h:198-211 | the cell holds the capability, the client's heap changes in that place only, and the invariant holds exactly unless a forwarding capability was put at the start of an object |
| Barrier.StoreRoot | src/inc/gc_low.h:198-211 | the same for a root |
| Barrier.CopyBytes | src/gc_memcpy.c:11 | after the memcpy the data have arrived and the capabilities are, for the moment, nothing the client knows |
| Barrier.RestoreTag | src/gc_memcpy.c:24-30 | one tagged cell is stored again through the barrier, which can spoil the start of the destination object only |
| Barrier.GCMemcpy | src/gc_memcpy.c:8-33 | the destination's cells are the source's, capabilities and leftovers included; the invariant holds if and only if no leftover forwarding capability came to the start of an object |
| Barrier.CopyResult | src/gc_memcpy.c:8-33 | what a finished copy is, cell by cell: the copied range holds the source's values and every other cell and object is unchanged |
| Startup.InitOldRegion | src/gc_init.c:123-212 | two separate semispaces of the rounded size with empty bitmaps and the rounded limits |
| Startup.InitYoungRegion | src/gc_init.c:221-294 | one space of the rounded size with an empty bitmap and remembered set, and the rounded limits |
| Startup.EmptyWorld | src/gc_init.c:42-65 | two empty generations satisfy the invariant whatever memory and the roots hold |
| Startup.Init | src/gc_init.c:22-65 | the collector is set up so that its invariant holds |
| Startup.StartsMarked | src/gc_init.c:162 | whatever its limit, the old region starts out not above the watermark |
| Startup.StartsSafe | src/gc_init.c:42-65 | exactly which sizes and limits make a collector start out with promotions that cannot fail |
| Client.SameBase | src/gc_collect.c:240-256 | two capabilities have the same base exactly when they lead to the same cell of the same object, however often it has moved |
| Client.DoNew | src/gc_malloc.c:76-233 | the root leads to the new object or holds NULL; room is made as the allocator does, and with no limit it never fails |
| Client.DoCollect | src/gc_collect.c:13-52 | a collection is invisible to the client; there is a warning exactly if the old region has no room; otherwise everything is old afterwards, after a major one no garbage is left, and a minor one that leaves half of the old region free only adds to it |
| Client.Perform | src/gc_malloc.c:76-233 | each operation of the client does on the machine what it does on the heap in which nothing moves, and shows the same; nothing old changes without a collection; with no limit on the young region no allocation fails |
| Client.Run | src/gc_collect.c:54-216 | over any run of any client that stays in bounds, all it sees could have been seen on a heap where nothing moves or is freed; the old region is above the watermark only where its limit leaves no other way; a collector that starts out safe is never above it, and every collection promotes |
| MlSyntax.Wrap | ml/parse.h:6 | the one value of a 32-bit int that is equal to the number modulo 2^32 |
| MlLexer.Lexer.Lex | ml/lex.c:93-217 | the state machine gives the longest token that starts after the white space and stops where it ends, and fails exactly at a character that starts none |
| MlLexer.NumeralRoundTrip | ml/lex.c:219-235 | the decimal numeral of a number stands for that number |
| MlLexer.NoLeadingZero | ml/lex.c:223-233 | a numeral starts with 0 only if it is 0 |
| MlLexer.Itoa | ml/lex.c:219-235 | the buffer of 11 characters holds the decimal numeral of any unsigned number, terminated |
| MlGrammar.ParseLevel | ml/parse.c:38-203 | parsing consumes at least a token, so it ends on every token stream |
| MlForms.FirstToken | ml/parse.c:9-19 | every form that fits starts with a word, a number or an opening parenthesis |
| MlForms.WrittenStarts | ml/parse.c:9-19 | a form is taken for the start of an expression unless its first word is `then` or `else` |
| MlForms.OperandAccepted | ml/parse.c:93-203 | a form that fits a level is parsed at that level up to where the level's operator goes on |
| MlForms.ChainStep | ml/parse.c:146-201 | one turn of the operator loop puts the tree so far and the next operand under a new node |
| MlForms.IfAccepted | ml/parse.c:289-339 | a conditional of fitting parts is accepted, where nothing goes on with it |
| MlForms.FnAccepted | ml/parse.c:341-382 | so is a function |
| MlForms.FormAccepted | ml/parse.c:28-36 | every form that fits is accepted as what it means, up to what follows |
| MlForms.LevelReflects | ml/parse.c:38-203 | whatever the function of a level accepts is a form that fits the level |
| MlForms.BaseReflects | ml/parse.c:209-287 | so is whatever parse_base_expr accepts |
| MlForms.IfReflects | ml/parse.c:289-339 | whatever parse_if accepts is a conditional of forms that fit |
| MlForms.FnReflects | ml/parse.c:341-382 | whatever parse_fn accepts is a function with a body that fits |
| MlForms.ParserExact | ml/parse.c:28-287 | the parser accepts a stream of tokens, with its result and the tokens left, if and only if a form that fits is written there and means the result |
| MlPrinter.NumeralParses | ml/parse.c:395-401 | the digits of a number below 2^31 accumulate to it without wrapping around |
| MlPrinter.DigitsAccumulate | ml/parse.c:395-401 | one more digit makes ten times the number and the digit, modulo 2^32 |
| MlPrinter.FullMeans | ml/parse.c:267-281 | every expression with names and numbers of the concrete syntax can be written with parentheses around all its parts |
| MlPrinter.MinimalMeans | ml/parse.c:38-84 | and with parentheses only around looser operators and around `if` and `fn` as operands |
| MlPrinter.PrintParseRoundTrip | ml/parse.c:28-36 | both are parsed back to the expression |
| MlPrinter.ChainsAssociateLeft | ml/parse.c:146-202 | a chain of one operator of any length becomes the left-associated tree |
| MlPrinter.TwoOperators | ml/parse.c:38-84 | of two operators in a row the tighter one takes the operand between them, and of equal ones the first |
| MlPrinter.ConsLooserThanGreater | ml/parse.c:38-48 | between `::` and `>`, the operand goes to `>` |
| MlPrinter.GreaterLooserThanLess | ml/parse.c:44-54 | between `>` and `<`, to `<` |
| MlPrinter.LessLooserThanPlus | ml/parse.c:50-60 | between `<` and `+`, to `+` |
| MlPrinter.PlusLooserThanMinus | ml/parse.c:56-66 | between `+` and `-`, to `-` |
| MlPrinter.MinusLooserThanTimes | ml/parse.c:62-72 | between `-` and `*`, to `*` |
| MlPrinter.TimesLooserThanDivide | ml/parse.c:68-78 | between `*` and `/`, to `/` |
| MlPrinter.DivideLooserThanApplication | ml/parse.c:74-84 | between `/` and application, to application |
| MlPrinter.PlusLooserThanTimes | ml/parse.c:56-72 | x + y * z and x * y + z are as in arithmetic |
| MlPrinter.PlusAndTimesAreLooser | ml/parse.c:56-78 | x + y - z and x * y / z associate to the right, x - y + z and x / y * z to the left |
| MlCharacters.GapCharacters | ml/lex.c:89-91 | white space is blanks, tabs, line feeds and carriage returns, in any number and order |
| MlCharacters.SkippedCharacters | ml/lex.c:161-164 | these characters and no others are skipped |
| MlCharacters.SymbolToken | ml/lex.c:77-81 | each of the thirteen symbols starts a symbol token, and exactly `>` and `:` go on with it |
| MlCharacters.WordToken | ml/lex.c:83-85 | a letter starts a word, and letters go on with it |
| MlCharacters.IntToken | ml/lex.c:87 | a digit starts a number, and digits go on with it |
| MlCharacters.OtherCharacters | ml/lex.c:165-171 | the lexer gives up at any other character |
| MlSource.LexOne | ml/lex.c:132-206 | a token after white space is found, up to where nothing goes on with it |
| MlSource.TextLexed | ml/lex.c:93-217 | tokens written out with any white space that keeps them apart, or none where none is needed, are lexed as the same tokens |
| MlSource.FormRoundTrip | ml/parse.c:21-36 | every form that fits, written out with any such spacing, is read as what it means, and all of the text is read |
| MlSource.SourceRoundTrip | ml/parse.c:21-36 | an expression written out with few parentheses or all, with numerals as ml_itoa writes them, is read back as itself |
| MlParser.Parser.ReadTok | ml/parse.c:422-434 | the next token of the text becomes the one at hand, or the lexer gives up |
| MlParser.Parser.GetNextTok | ml/parse.c:422-434 | the tokens left to read lose their first, or the lexer gives up; at the end, the end is read again |
| MlParser.Parser.ParseNum | ml/parse.c:384-404 | the loop computes the value of the digits in a 32-bit int |
| MlParser.Parser.ParseOp | ml/parse.c:93-203 | the operator loop parses what the grammar says at every level, failing exactly when it does, and terminates |
| MlParser.Parser.ParseBaseExpr | ml/parse.c:209-287 | the same for names, numbers, groups and the keywords |
| MlParser.Parser.ParseIfExpr | ml/parse.c:289-339 | the same for conditionals |
| MlParser.Parser.ParseFnExpr | ml/parse.c:341-382 | the same for functions |
| MlParser.Parser.ExpectTok | ml/parse.c:473-485 | the expected token is consumed, or parsing fails |
| MlParser.ParseText | ml/parse.c:21-36 | a text is parsed as the grammar says of its tokens, or the interpreter exits |
| MlEval.QuotientTruncates | ml/eval.c:292-296 | division is towards zero: the remainder is smaller than the divisor and has the sign of the dividend |
| MlEval.ArithMeans | ml/eval.c:260-297 | subtraction undoes addition even where it wraps around, comparisons are 0 or 1 and mirror each other, and division by zero and `::` give 0 |
| MlEval.ArithWraps | ml/eval.c:277-291 | sums, differences and products wrap around modulo 2^32 |
| MlEval.ProductsAndQuotients | ml/eval.c:287-296 | products are exact unless they overflow, and a quotient is exact if and only if it is not the least int by -1 |
| MlEval.LookupLoop | ml/eval.c:145-159 | the loop finds the innermost binding, or fails if there is none |
| MlEval.SubstLast | ml/eval.c:311-325 | lexical scope: substituting a closure's environment and then the argument is substituting the environment with the argument bound in it |
| MlEval.LookupUnfolds | ml/eval.c:145-159 | the value found stands for what the environment substitutes for the name |
| MlEval.ApplyAgrees | ml/eval.c:302-325 | entering a closure agrees with substituting the argument into the function it stands for |
| MlEval.EvalAgrees | ml/eval.c:161-360 | evaluating in an environment agrees with reducing after substituting the environment |
| MlEval.ClosedProgramsAgree | ml/eval.c:161-360 | on every closed program, environments and substitution give the same number, corresponding functions, or both fail |
| MlEval.DeeperIsSame | ml/eval.c:161-360 | a result does not depend on the depth of recursion allowed, once it is enough |

## Left out

- Byte lengths of capabilities: an exact capability takes the length stored in the forwarding capability, so only the length rounded to 32 bytes is kept, and the model counts in cells.
- Integer limits: sizes are unbounded; neither the wrap-around of 64-bit sizes nor the `int` counters of `GC_bitmap_find` and `GC_low_realloc2` are modelled, nor the limit of 500 entries of the allocation table.
- Failing system allocation: blocks are always to be had, so the second attempts in GC_grow and the error returns of initialisation do not occur; `Client.Run` covers running out of the collector's own limits.
- Misaligned blocks: the system's blocks are taken as 32-byte aligned, so the `_misaligned` fields, which only keep the original addresses, are not modelled, and GC_grow's choice to skip the rebase never arises, since a block that is copied from is still in use.
- LowMemory.Machine.LowRealloc: for blocks that store capabilities and do not shrink, as the semispaces do; the buffers of bitmaps and remembered sets are reallocated in `Bitmaps.Bitmap.Grow` and `RememberedSets.RememberedSet.Add`.
- Bitmaps and remembered set buffers: they are arrays of their own rather than blocks in the same memory.
- Roots: the stack, the registers and the two parts of the static data are one array, so the four calls of GC_copy_roots and GC_rebase are one; how they are found is not modelled.  GC_copy_roots repeats the body of GC_copy_child, so one method serves for both.
- Allocator.Malloc: a request of zero bytes marks the bit at the free end, which does not exist in a full region whose size is a multiple of eight cells; that case is excluded, and clients, which cannot tell, ask for more than zero bytes.
- Permissions other than the forwarding flag, GC_STORE_CAP_OLD, and the ephemeral and mmap barriers: the active barrier does not read them.
- GC_reset, GC_reset_region and the direct assignments to a region's fields in the tests: they discard objects by design.
- GC_collect_region: its two branches are `Collect.CollectYoung` and `Collect.CollectOld`; of its statistics only the number of collections is kept.
- Barrier.GCMemcpy: for ranges of whole cells inside objects that do not overlap.
- Memory exhaustion, printing, file reading and the command line of the interpreter; `exit(1)` is an error result.
- MlEval.EvalAgrees: recursion is counted, and going deeper than allowed is a result of its own on both sides; `MlEval.DeeperIsSame` shows that the count does not matter otherwise.
- Signed overflow in the interpreter, which C leaves undefined, is taken modulo 2^32.
- parse_op's reuse of the node it allocates in advance: the tree is built from values.
- src/sigemulate.c, src/gc_debug.c, src/gc_time.c, the benchmarks and the tests.
