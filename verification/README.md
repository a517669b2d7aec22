# Micrium uC/LIB and uC/CPU runtime: model and proofs

This project models the runtime core of the firmware under `tem_project/UCOSIII` and proves
properties of it with Dafny 4.11 (`dafny verify dfyconfig.toml`). Nothing was executed.

| module | models |
|---|---|
| `Segment`, `PoolTable`, `PoolLaws`, `PoolFits`, `PoolChecks`, `PoolExamples` | `lib_mem.c`: size prediction, the segment allocator, the heap, the ascending segment table and the creation of memory pools, as transformations of values; the laws relate prediction, allocation and runs of calls, and the methods of `MemLib` are proved to perform exactly these transformations |
| `PoolBlocks` | `lib_mem.c`: the blocks of one pool, their address check, and the pointer table with its free prefix and used suffix |
| `LibraryRuns` | `lib_mem.c`: runs of the whole allocator with all its pools |
| `MemLib` | `lib_mem.c`: the MEM_POOL objects, the doubly-linked lists and the functions that update them in place, each proved equal to its transformation |
| `LibraryCalls` | `lib_mem.c`: the calls on the objects of `MemLib` perform the steps of `LibraryRuns` |
| `MemOps` | `lib_mem.c`: set, clear, copy, move and compare over one array of octets whose index is the address |
| `MemVal` | `lib_mem.h`: byte-order macros on a little-endian host |
| `RandLcg` | `lib_math.c`: the pseudo-random generator and its period |
| `CpuTs`, `IntDis`, `CntZeros` | `cpu_core.c`: timestamps, interrupts-disabled times, bit counting |
| `Arith` | shared arithmetic: 32-bit wrap-around, powers of two, remainders, counting |

## How it is modelled

- Words are integers below 2^32; every sum, difference and product of the C code that can leave
  the word is wrapped explicitly. Addresses are numbers; 0 is NULL.
- The build modelled has 32-bit sizes and addresses, `sizeof(void *)` and `sizeof(CPU_ALIGN)` 4,
  a little-endian host, extended argument checking on, and the C branches. It is not the build the
  repository configures, which switches argument checking off and the assembly branches on
  (uCOS_CONFIG/lib_cfg.h:71 and 85, uCOS_CONFIG/cpu_cfg.h:161), and leaves timestamps and
  interrupts-disabled measurement out (cpu_cfg.h:99-100 and 134-136): the checks, the C code and
  these features are what there is to prove. Timer widths of 8 to 64 bits are all covered.
- A critical section makes its call atomic; calls are steps of a run. The timer is an argument of
  the functions that read it, together with the true time as ghost argument.
- The phases of the long C functions are separate methods here (the three phases of copy, move and
  compare; the checks, allocations and linking of `Mem_PoolCreate`), called in the order of the code.
- A pool's pointer table is an array object next to its address. The allocation log of a segment
  (`blocks`, `segBlocks`) exists for the proofs only.
- Methods name in `modifies` the exact fields they write, so creating a pool leaves the block state
  of all other pools alone.

## What turned out not to hold

Each item names the lemma with the exact condition and the one with a concrete input.

- The overflow check of the size prediction compares the product with its factors and misses some
  wraps (`Segment.CalcTotSizeExactIff`, `Segment.UnseenWrapExample`).
- Pool creation is not all-or-nothing when such a wrap is missed, when the pool would end exactly
  at 2^32, or when the heap is passed as dedicated memory (`PoolLaws.AllOrNothingIff`, as a
  condition to test before the call `PoolChecks.TakesMemoryIff`;
  `PoolExamples.UnseenWrapCreateExample`, `TopOfMemoryExample`, `AliasedHeapExample`).
- The pointer table is too short when 4 * blk_nbr wraps, and pointers are stored beyond its end
  (`PoolLaws.OverrunIff`, `SuccessOverrunsIff`, before the call `PoolChecks.StoresBeyondTableIff`;
  `PoolExamples.ShortTableExample`).
- A successful call can create an unsound pool: with such a table, or from the heap as dedicated
  memory (`PoolLaws.CreatedPoolSoundIff`, `PoolExamples.ShortTableExample`, `AliasedUnsoundExample`).
- With alignments that are not powers of two, the address check accepts some padding octets
  (`PoolBlocks.ValidationExactIff`, `GapAddressAcceptedExample`), and then POOL_FULL and the
  not-found error become reachable (`PoolBlocks.RareErrorsUnreachableIff`, `RareErrorsExample`).
- The remaining size of a segment wraps when the alignment gap does not fit
  (`Segment.SizeRemExactIff`, `SizeRemWrapsExample`).
- HEAP_EMPTY reports a number that is no shortfall for a block that would end at 2^32
  (`Segment.FullAddressSpaceIff`, `FullAddressSpaceExample`).
- For the heap passed as dedicated memory the octets reported leave out the table or the blocks
  (`PoolChecks.ReportedAliasedShortfall`, `PoolExamples.AliasedShortfallExample`).
- The overhead average is not the rounded mean when the sum wraps (`IntDis.AverageExactIff`,
  `WrappedAverageExample`).
- Resetting the resettable maximum returns less than the maximum it zeroes when a longer section
  closes between its two interrupts-disabled regions (`IntDis.ResetReturnsMaxIff`,
  `ResetLosesSectionExample`).

Where code and comments differ, the code is followed: `Mem_PoolBlkGetUsedAtIx` returns
INVALID_BLK_IX on a full pool, not POOL_FULL as documented (lib_mem.c:1795-1799);
`Mem_PoolCreate` also returns INVALID_BLK_ADDR, which its list of errors lacks (lib_mem.c:1349-1354);
the period of the generator is 2^31, while the cited POSIX text asks for 2^32 (lib_math.h:156-161).

## Model

| member | source | states |
|---|---|---|
| Segment.CalcTotSizeValue | tem_project/UCOSIII/uC-LIB/lib_mem.c:2260-2329 | what the overflow-checked 32-bit size computation returns, in terms of the unbounded size of Note 2c: the size if it fits a word, 0 if it does not, and the wrapped sum in the one overflow the checks cannot see |
| Segment.CalcTotSizeExactIff | tem_project/UCOSIII/uC-LIB/lib_mem.c:2290-2328 | the prediction (overflow report included) is right if and only if the product of stride and block count does not wrap to something no smaller than the stride |
| Segment.UnseenWrapExample | tem_project/UCOSIII/uC-LIB/lib_mem.c:2307-2312 | 0x2000_0003 blocks of 8 octets are predicted to need 24 octets |
| Segment.SegAllocSpec | tem_project/UCOSIII/uC-LIB/lib_mem.c:2367-2414 | one allocation succeeds exactly when gap and size fit and the next free address stays below 2^32; it then advances by gap and size, returns an aligned address and keeps allocated + remaining = total; otherwise nothing changes |
| Segment.UsedStep | tem_project/UCOSIII/uC-LIB/lib_mem.c:2290-2291 | the closed-form size of k + 1 blocks is that of k blocks plus the gap and size one more allocation costs at that point |
| Segment.AllocRunClosedForm | tem_project/UCOSIII/uC-LIB/lib_mem.c:1475-1496 | N successive allocations all succeed exactly when the closed-form size fits; they advance the segment by exactly that size and put block i at base + gap + i * stride |
| Segment.StoppedRun | tem_project/UCOSIII/uC-LIB/lib_mem.c:1475-1492 | a run of allocations that stops early stops at the first block without room and has then used exactly what the blocks before it need |
| Segment.HeapAllocSpec | tem_project/UCOSIII/uC-LIB/lib_mem.c:769-820 | which of the three outcomes a heap allocation has, by unbounded need: success, overflow, or empty with the reported number of octets; failures leave the heap alone |
| Segment.HeapAllocArguments | tem_project/UCOSIII/uC-LIB/lib_mem.c:766-779 | INVALID_MEM_SIZE exactly for size 0, otherwise INVALID_MEM_ALIGN exactly for alignment 0, with NULL, no octets reported and the heap as it was |
| Segment.ShortfallExact | tem_project/UCOSIII/uC-LIB/lib_mem.c:801-806 | the shortfall reported with HEAP_EMPTY is exact: the same call succeeds exactly when that many more octets remain (and the block can lie below 2^32 at all) |
| Segment.FullAddressSpaceIff | tem_project/UCOSIII/uC-LIB/lib_mem.c:808-814 | the second HEAP_EMPTY branch, where the number is not a shortfall, is reached exactly when a block that fits would end at 2^32 |
| Segment.FullAddressSpaceExample | tem_project/UCOSIII/uC-LIB/lib_mem.c:808-814 | the last 16 octets below 2^32, asked for 16: reported as 16 missing |
| Segment.SizeRemSpec | tem_project/UCOSIII/uC-LIB/lib_mem.c:900-970 | alignments 1 to 4096 are answered without error by what remains behind the alignment gap, reduced to a word; all others with INVALID_MEM_ALIGN and 0 |
| Segment.SizeRemExactIff | tem_project/UCOSIII/uC-LIB/lib_mem.c:951-969 | the reported remaining size is the largest size the allocator can serve at that alignment if and only if the alignment gap fits in what remains and the segment does not end at 2^32 |
| Segment.SizeRemWrapsExample | tem_project/UCOSIII/uC-LIB/lib_mem.c:960-964 | a heap with 2 octets before a 4-octet boundary reports 2^32 - 1 octets free |
| PoolTable.SearchSpec | tem_project/UCOSIII/uC-LIB/lib_mem.c:1356-1391 | search and insertion: a new range is rejected exactly when it overlaps a listed segment without being identical to it; otherwise it is found, or the one place that keeps the list ascending is found |
| PoolLaws.WholeHeapIsFree | tem_project/UCOSIII/uC-LIB/lib_mem.c:163-197 | after initialization the whole configured memory is the heap, all of it is reported as remaining, and a first allocation of n octets succeeds at the base address exactly when 1 <= n <= size and it does not end at 2^32 |
| PoolLaws.ArgumentErrors | tem_project/UCOSIII/uC-LIB/lib_mem.c:1254-1282 | for every request and table: INVALID_SEG_SIZE, INVALID_BLK_NBR, INVALID_BLK_SIZE, INVALID_BLK_ALIGN and HEAP_NOT_FOUND each come exactly when their argument is wrong and those tested before are right, and leave everything as it was |
| PoolLaws.PtrTableSize | tem_project/UCOSIII/uC-LIB/lib_mem.c:1298-1303 | the predicted pointer-table size is what the allocator takes for it: the gap and the 32-bit product blk_nbr * sizeof(void *) |
| PoolLaws.PlanSpec | tem_project/UCOSIII/uC-LIB/lib_mem.c:1289-1445 | what has been established when all checks of a pool creation have passed: sizes, start address, target segment, and for a new segment its place among its neighbours |
| PoolLaws.AfterPtrsSpec | tem_project/UCOSIII/uC-LIB/lib_mem.c:1449-1455 | after passed checks the pointer table is allocated at the gap behind the free address, of the predicted size; it fails only if it would end at 2^32 |
| PoolLaws.SourceSpec | tem_project/UCOSIII/uC-LIB/lib_mem.c:1425-1453 | the blocks are taken from where the checks looked, except when the dedicated segment is the heap itself: then the pointer table has moved the start and taken room |
| PoolLaws.BlocksFitIff | tem_project/UCOSIII/uC-LIB/lib_mem.c:1475-1496 | after passed checks the N allocations fit where they are really made, exactly unless one of three named overflow or aliasing situations holds |
| PoolLaws.CommitSpec | tem_project/UCOSIII/uC-LIB/lib_mem.c:1449-1546 | the three ways a pool creation ends once its checks have passed, with the resulting table, pool, reported octets and pointers stored beyond the pointer table for each |
| PoolLaws.ReportedAfterChecks | tem_project/UCOSIII/uC-LIB/lib_mem.c:1459-1492 | what is reported when an allocation fails after the checks: for the pointer table never a shortfall (the heap ends at 2^32); for the blocks the true shortfall exactly when their remaining size is a word and exceeds what remains |
| PoolLaws.OverrunIff | tem_project/UCOSIII/uC-LIB/lib_mem.c:1475-1496 | pointers are stored beyond the pointer table exactly when 4 * blk_nbr wraps, the checks pass, the table is taken, and more blocks fit than the table has entries |
| PoolLaws.SuccessOverrunsIff | tem_project/UCOSIII/uC-LIB/lib_mem.c:1475-1496 | a successful call stores pointers beyond its table exactly when 4 * blk_nbr wraps, and then all but the entries of the table |
| PoolTable.SlotsSpec | tem_project/UCOSIII/uC-LIB/lib_mem.c:1449 | the pointer table has blk_nbr modulo 2^30 entries: blk_nbr if and only if 4 * blk_nbr does not wrap, otherwise fewer |
| PoolLaws.AllOrNothingIff | tem_project/UCOSIII/uC-LIB/lib_mem.c:1289-1546 | a failing pool creation leaves every segment unchanged if and only if it does not fail after its checks: prediction wrap unseen, pool ending at 2^32, or heap passed as its own dedicated segment and made too small by the pointer table |
| PoolLaws.AllOrNothing | tem_project/UCOSIII/uC-LIB/lib_mem.c:1289-1546 | all-or-nothing for callers that keep the pool size below 2^32, do not pass the heap as dedicated memory and use no segment reaching 2^32 |
| PoolExamples.AliasedHeapExample | tem_project/UCOSIII/uC-LIB/lib_mem.c:1425-1453 | a heap of 40 octets given as its own dedicated segment: the call fails after taking the pointer table |
| PoolExamples.TopOfMemoryExample | tem_project/UCOSIII/uC-LIB/lib_mem.c:2402-2406 | a dedicated segment that ends at 2^32 and is filled exactly: the call fails after taking memory |
| PoolExamples.UnseenWrapCreateExample | tem_project/UCOSIII/uC-LIB/lib_mem.c:1426-1444 | six blocks of 2^30 octets pass the checks for a segment of 2^31: the call fails after taking memory |
| PoolExamples.ShortTableExample | tem_project/UCOSIII/uC-LIB/lib_mem.c:1449-1496 | 2^30 + 2 blocks of one octet: the call succeeds with a pointer table of 2 entries, stores 2^30 pointers beyond it, and the created pool is not sound |
| PoolExamples.AliasedUnsoundExample | tem_project/UCOSIII/uC-LIB/lib_mem.c:1531-1540 | a heap of 100 octets given as its own dedicated segment: the call succeeds and the created pool is not sound |
| PoolLaws.SuccessSpec | tem_project/UCOSIII/uC-LIB/lib_mem.c:1449-1546 | a successful call: the segment it used, the addresses of all N blocks, and which of them its pointer table holds |
| PoolLaws.CreatedLayout | tem_project/UCOSIII/uC-LIB/lib_mem.c:1531-1540 | after success the predicted size is the true one, the pool starts and ends where its blocks were allocated, and the pointer table lists the first of them -- all of them if and only if 4 * blk_nbr does not wrap |
| PoolLaws.CreatedPoolSoundIff | tem_project/UCOSIII/uC-LIB/lib_mem.c:1531-1540 | the created pool has a sound block table (every entry a block of the recorded range, each once, none missing) if and only if 4 * blk_nbr does not wrap and it was not created from the heap as dedicated memory -- unless the pointer table hides in the alignment gap there |
| PoolFits.SuccessIff | tem_project/UCOSIII/uC-LIB/lib_mem.c:1254-1546 | a pool creation succeeds if and only if its arguments are valid, its range meets no other segment, and pointer table and blocks fit where they go: sizes in unbounded arithmetic, except that the table is as large as the 32-bit product and may wrap unseen |
| PoolFits.TableCheckIff | tem_project/UCOSIII/uC-LIB/lib_mem.c:1298-1303 | the overflow check of the pointer table passes exactly when its true size fits a word or wraps unseen |
| PoolFits.SmallTableFitsIff | tem_project/UCOSIII/uC-LIB/lib_mem.c:1298-1311 | with 4 * blk_nbr below 2^32 the pointer-table part of that condition is simply that its true size fits |
| PoolFits.ErrorTellsWhy | tem_project/UCOSIII/uC-LIB/lib_mem.c:1289-1445 | with valid arguments the error tells which condition fails: INVALID_BLK_ADDR exactly for a range leaving the address space, INVALID_SEG_OVERLAP exactly for a range meeting a listed segment it is not identical to, the size errors together exactly when something does not fit (PoolChecks tells them apart) |
| PoolChecks.PredictedSize | tem_project/UCOSIII/uC-LIB/lib_mem.c:2260-2329 | the size computation in one closed form for every input: the size the checks see, or 0 where that is no word |
| PoolChecks.HeapChecks | tem_project/UCOSIII/uC-LIB/lib_mem.c:1298-1341 | the checks for a pool in the heap by these sizes: which error, with how many octets, or none |
| PoolChecks.SegChecks | tem_project/UCOSIII/uC-LIB/lib_mem.c:1403-1444 | the same for dedicated memory |
| PoolChecks.ChecksPassIff | tem_project/UCOSIII/uC-LIB/lib_mem.c:1254-1445 | the checks pass if and only if arguments, range and the sizes they see are in order -- a condition on the table and the request alone |
| PoolChecks.HeapErrorsTellWhich | tem_project/UCOSIII/uC-LIB/lib_mem.c:1298-1496 | a pool in the heap: HEAP_OVF exactly when table and blocks, as the checks see them, exceed a word, HEAP_EMPTY exactly when they exceed the heap, with the difference, SEG_EMPTY exactly when the checks pass and the blocks do not fit after all, never SEG_OVF |
| PoolChecks.DedicatedErrorsTellWhich | tem_project/UCOSIII/uC-LIB/lib_mem.c:1403-1496 | dedicated memory: each of the four size errors by its exact condition, with the number of octets reported by the checks |
| PoolChecks.TakesMemoryIff | tem_project/UCOSIII/uC-LIB/lib_mem.c:1289-1546 | a failing call takes memory if and only if its checks pass, its pointer table ends below 2^32 and the blocks do not fit where they go |
| PoolChecks.StoresBeyondTableIff | tem_project/UCOSIII/uC-LIB/lib_mem.c:1475-1496 | pointers are stored beyond the pointer table if and only if 4 * blk_nbr wraps, the checks pass, the table ends below 2^32, and there is room for one block more than the table has entries |
| PoolChecks.ReportedOctets | tem_project/UCOSIII/uC-LIB/lib_mem.c:1242-1496 | only HEAP_EMPTY and SEG_EMPTY report octets; after passed checks HEAP_EMPTY reports the 32-bit size of the pointer table, and SEG_EMPTY what the blocks not allocated are taken to need, less what remains if that is less |
| PoolChecks.SegmentFieldsLeft | tem_project/UCOSIII/uC-LIB/lib_mem.c:1393-1399 | the segment fields a failing call leaves in its pool: zeros, except for dedicated memory in order that is not listed: then they describe that memory, all of it remaining unless blocks were taken |
| PoolFits.ReportedHeapShortfall | tem_project/UCOSIII/uC-LIB/lib_mem.c:1335-1341 | the number of octets reported with HEAP_EMPTY by the checks for a pool in the heap is exact: with r octets remaining the call succeeds exactly when r makes up the shortfall |
| PoolFits.ReportedTableShortfall | tem_project/UCOSIII/uC-LIB/lib_mem.c:1416-1422 | the same for HEAP_EMPTY by the checks for dedicated memory other than the heap: the shortfall of the pointer table |
| PoolFits.ReportedSegShortfall | tem_project/UCOSIII/uC-LIB/lib_mem.c:1438-1444 | the same for SEG_EMPTY of a listed segment other than the heap |
| PoolFits.ReportedNewSegShortfall | tem_project/UCOSIII/uC-LIB/lib_mem.c:1438-1444 | the same for SEG_EMPTY of a new segment |
| PoolChecks.ReportedAliasedShortfall | tem_project/UCOSIII/uC-LIB/lib_mem.c:1416-1444 | for the heap given as dedicated memory the number leaves out either blocks or table: with r octets remaining the call succeeds exactly when r covers both, and the number is the true shortfall exactly if the table hides in the gap before the blocks |
| PoolExamples.AliasedShortfallExample | tem_project/UCOSIII/uC-LIB/lib_mem.c:1438-1444 | a heap of 24 octets given as its own dedicated segment is reported 8 octets short; with 8 more the call fails again |
| PoolLaws.GrantListed | tem_project/UCOSIII/uC-LIB/lib_mem.c:2367-2414 | extending the allocation log of a listed segment hands out blocks apart from each other and from everything handed out before |
| PoolLaws.GrantFresh | tem_project/UCOSIII/uC-LIB/lib_mem.c:1500-1513 | the same for a segment newly inserted between its neighbours |
| PoolLaws.StepGrants | tem_project/UCOSIII/uC-LIB/lib_mem.c:741-1546 | every heap allocation, and every pool creation that stays inside its pointer table, failures included, keeps the table invariant and hands out only disjoint, logged blocks |
| PoolLaws.RunGrants | tem_project/UCOSIII/uC-LIB/lib_mem.c:741-1546 | the same over every run of such calls |
| PoolLaws.SmallTablesSuffice | tem_project/UCOSIII/uC-LIB/lib_mem.c:1449-1496 | calls with 4 * blk_nbr below 2^32 stay inside their pointer tables |
| PoolLaws.EverythingHandedOutIsDisjoint | tem_project/UCOSIII/uC-LIB/lib_mem.c:163-1546 | from initialization on, with 4 * blk_nbr below 2^32 in every call, all heap blocks, pointer tables and pool blocks ever handed out are pairwise disjoint, aligned and inside their segment |
| LibraryRuns.CallKeepsInv | tem_project/UCOSIII/uC-LIB/lib_mem.c:163-1946 | every heap allocation, pool creation (4 * blk_nbr below 2^32), get or free on any pool keeps all that callers own apart, and what they hold in agreement with the pointer tables |
| LibraryRuns.LiveBlocksAreDisjoint | tem_project/UCOSIII/uC-LIB/lib_mem.c:163-1946 | over every run of heap allocations, pool creations (4 * blk_nbr below 2^32; also from the heap as dedicated memory), gets and frees on all pools, any two different blocks in use -- heap blocks, pointer tables, pool blocks held by callers -- are disjoint, aligned and inside a segment |
| LibraryCalls.Alloc | tem_project/UCOSIII/uC-LIB/lib_mem.c:741-821 | a heap allocation on the objects performs the step of such a run: library and all MEM_POOL objects of callers stand for the state after the step |
| LibraryCalls.Create | tem_project/UCOSIII/uC-LIB/lib_mem.c:1198-1546 | the same for a pool creation; the objects and pointer tables of all earlier pools are as before |
| LibraryCalls.Get | tem_project/UCOSIII/uC-LIB/lib_mem.c:1659-1725 | the same for a get, and the caller is answered what the step says |
| LibraryCalls.Free | tem_project/UCOSIII/uC-LIB/lib_mem.c:1859-1946 | the same for a free |
| LibraryCalls.PerformAll | tem_project/UCOSIII/uC-LIB/lib_mem.c:163-1946 | from initialization on, any sequence of calls on the objects ends in the state the run of steps ends in |
| MemLib.MemPool.Clear | tem_project/UCOSIII/uC-LIB/lib_mem.c:1004-1042 | every field of a cleared pool object is zero |
| MemLib.MemPool.AllocFromSeg | tem_project/UCOSIII/uC-LIB/lib_mem.c:2367-2414 | the segment allocator on the object updates its fields as the segment transformation says |
| MemLib.MemPool.RelateTo | tem_project/UCOSIII/uC-LIB/lib_mem.c:1362-1387 | one turn of the search loop decides how a range stands to a segment |
| MemLib.Library.Init | tem_project/UCOSIII/uC-LIB/lib_mem.c:163-197 | initialization leaves a one-element segment list; the heap object begins and is next available at the configured address, its total and its remaining size are the configured size, and all its other fields are cleared |
| MemLib.Library.HeapAlloc | tem_project/UCOSIII/uC-LIB/lib_mem.c:741-821 | heap allocation returns what the table transformation says and keeps all lists valid |
| MemLib.Library.SegGetSizeRem | tem_project/UCOSIII/uC-LIB/lib_mem.c:900-970 | no error exactly for an alignment from 1 to 4096 and a configured pool, otherwise the argument errors in order; the size is that of the pool's own segment, or of the heap if it has none |
| MemLib.Library.HeapGetSizeRem | tem_project/UCOSIII/uC-LIB/lib_mem.c:853-862 | the same for the heap |
| MemLib.Library.Search | tem_project/UCOSIII/uC-LIB/lib_mem.c:1356-1391 | the search loop over the linked list computes the search over the table and leaves the neighbours of the insertion point |
| MemLib.Library.CheckHeap | tem_project/UCOSIII/uC-LIB/lib_mem.c:1298-1341 | the checks for a pool in the heap, as the plan says |
| MemLib.Library.CheckSeg | tem_project/UCOSIII/uC-LIB/lib_mem.c:1403-1444 | the checks for a pool in dedicated memory, as the plan says |
| MemLib.Library.ChooseSeg | tem_project/UCOSIII/uC-LIB/lib_mem.c:1345-1400 | the dedicated segment: the listed one, or the pool object reset to be a new one; the two errors of the range leave what the table transformation says |
| MemLib.Library.AllocBlocks | tem_project/UCOSIII/uC-LIB/lib_mem.c:1475-1496 | the allocation loop performs the run of N allocations and fills the pointer table; stores beyond a table shortened by the wrap of 4 * blk_nbr are counted |
| MemLib.InsertSeg | tem_project/UCOSIII/uC-LIB/lib_mem.c:1502-1513 | the link updates for a new segment turn a doubly-linked list into the same list with one more element |
| MemLib.InsertPool | tem_project/UCOSIII/uC-LIB/lib_mem.c:1517-1525 | the same for a pool put behind its segment head |
| MemLib.Library.LinkSeg | tem_project/UCOSIII/uC-LIB/lib_mem.c:1500-1513 | listing a new segment keeps the segment list, the ascending table and all pool chains well formed |
| MemLib.Library.LinkPool | tem_project/UCOSIII/uC-LIB/lib_mem.c:1515-1532 | listing a pool in an existing segment keeps the segment list and all pool chains well formed |
| MemLib.Library.CommitBlocks | tem_project/UCOSIII/uC-LIB/lib_mem.c:1475-1546 | block allocation, linking and configuration after the pointer table has been taken |
| MemLib.Library.Commit | tem_project/UCOSIII/uC-LIB/lib_mem.c:1449-1546 | everything after the checks: result, table and lists are those of the table transformation; on any error no link has changed |
| MemLib.Library.CheckArgs | tem_project/UCOSIII/uC-LIB/lib_mem.c:1254-1282 | the argument checks in order, each with its error, and the check for a heap |
| MemLib.Library.PoolCreate | tem_project/UCOSIII/uC-LIB/lib_mem.c:1198-1546 | the whole function: validity of all lists is kept; error, octets reported, table, created pool and number of pointers stored beyond the table are those of the table transformation; a successful call has none of the latter if and only if 4 * blk_nbr does not wrap; on any error the lists are unchanged and the pool is zero except for the segment fields, whose values are stated; on success every field of the pool is stated |
| MemLib.Library.CreatedPoolReady | tem_project/UCOSIII/uC-LIB/lib_mem.c:1531-1540 | a created pool can be used by the block operations, with every block free, exactly under the condition of CreatedPoolSoundIff |
| PoolBlocks.StrideIsWord | tem_project/UCOSIII/uC-LIB/lib_mem.c:2145-2149 | the modulus of the address check is the stride and never 0: in a pool below 2^32 the stride is a word |
| PoolBlocks.ValidationExactIff | tem_project/UCOSIII/uC-LIB/lib_mem.c:2105-2152 | the modular address check accepts exactly the block addresses if and only if 2^32 modulo the stride is 0 or exceeds the leading alignment gap |
| PoolBlocks.ValidInGap | tem_project/UCOSIII/uC-LIB/lib_mem.c:2145-2149 | in the leading gap the difference wraps, and the address g octets before the first block is accepted exactly when 2^32 leaves remainder g |
| PoolBlocks.ValidationExactForPowersOfTwo | tem_project/UCOSIII/uC-LIB/lib_mem.c:2105-2152 | for power-of-two alignments the check is exact |
| PoolBlocks.GapAddressAcceptedExample | tem_project/UCOSIII/uC-LIB/lib_mem.c:2145-2149 | alignment 3: an octet of padding is taken for a block |
| PoolBlocks.FreeHeldPartition | tem_project/UCOSIII/uC-LIB/lib_mem.c:1659-1725 | in a sound table the free and the held blocks partition the pool, with BlkIx of them free |
| PoolBlocks.GetAnswers | tem_project/UCOSIII/uC-LIB/lib_mem.c:1659-1725 | each answer to a request by its exact condition, on any pool, also with a corrupted index: INVALID_BLK_SIZE, POOL_EMPTY, INVALID_BLK_IX, or the free block listed last |
| PoolBlocks.GetSpec | tem_project/UCOSIII/uC-LIB/lib_mem.c:1659-1725 | a block request that fits is served from the free blocks whenever one is left; the last one listed moves from free to held |
| PoolBlocks.FreeSpec | tem_project/UCOSIII/uC-LIB/lib_mem.c:1859-1946 | a free call succeeds exactly on held blocks, reports exactly the free blocks as already in the pool, and rejects everything else unchanged, each error by its exact condition; on success the block changes places with the first held entry and every other entry stays where it was |
| PoolBlocks.FreeSpecForPowersOfTwo | tem_project/UCOSIII/uC-LIB/lib_mem.c:1859-1946 | for power-of-two alignments a free call of any non-null address succeeds exactly for a held block, says already-in-pool exactly for a free block, bad address exactly for anything else, and nothing else |
| PoolBlocks.RareErrorsUnreachableIff | tem_project/UCOSIII/uC-LIB/lib_mem.c:1913-1937 | POOL_FULL and the not-found error cannot occur if and only if 2^32 modulo the stride is 0 or exceeds the leading alignment gap |
| PoolBlocks.RareErrorsExample | tem_project/UCOSIII/uC-LIB/lib_mem.c:1913-1937 | alignment 3: freeing an octet of padding is answered POOL_FULL, or INVALID_POOL while the block is held |
| PoolBlocks.GetAfterFree | tem_project/UCOSIII/uC-LIB/lib_mem.c:1659-1946 | get after free returns the freed block |
| PoolBlocks.IndexOfHeldBlock | tem_project/UCOSIII/uC-LIB/lib_mem.c:2028-2069 | the index of a held block is in range and leads back to the block |
| PoolBlocks.HeldBlockAtIndex | tem_project/UCOSIII/uC-LIB/lib_mem.c:1795-1823 | an index counts held blocks from the end of the table: it leads to a held block, whose index it is, exactly when it is below the number of held blocks; every other 32-bit index is rejected, also where the computation wraps |
| PoolBlocks.IndexSpec | tem_project/UCOSIII/uC-LIB/lib_mem.c:1986-2069 | the index call succeeds exactly on held blocks, with the distance from the end of the table; each error by its exact condition, always with the greatest word as index |
| PoolBlocks.IndexSpecForPowersOfTwo | tem_project/UCOSIII/uC-LIB/lib_mem.c:1986-2069 | for power-of-two alignments the index call of any non-null address says exactly whether it is a held block, a free block, or no block |
| PoolBlocks.IndexAnswers | tem_project/UCOSIII/uC-LIB/lib_mem.c:1986-2069 | on any table of distinct entries the index call answers with the error a free call of the same address would answer with |
| PoolBlocks.RunIsSound | tem_project/UCOSIII/uC-LIB/lib_mem.c:1659-1946 | over every run of get and free the table stays a permutation of the blocks, its upper part is exactly what the callers' history says they hold, and no block is handed out while held |
| PoolBlocks.RunConservesBlocks | tem_project/UCOSIII/uC-LIB/lib_mem.c:1659-1946 | after every run each block is either free or held, never both, and the counts add up |
| PoolBlocks.RunIsStack | tem_project/UCOSIII/uC-LIB/lib_mem.c:1659-1946 | gets are last-in first-out: over every run of get and free the free part of the table is the stack that the history describes, and each get hands out its top |
| PoolBlocks.TableStep | tem_project/UCOSIII/uC-LIB/lib_mem.c:1659-1946 | even on a table whose entries are not the blocks of the recorded range, each get or free only moves entries: none is handed out while held, and held entries agree with the history |
| PoolBlocks.TableAnswers | tem_project/UCOSIII/uC-LIB/lib_mem.c:1859-1946 | on such a table, too, each answer to a free call by its exact condition |
| MemLib.MemPool.IsValidBlkAddr | tem_project/UCOSIII/uC-LIB/lib_mem.c:2105-2152 | the address check on the object |
| MemLib.PoolBlkGetNbrAvail | tem_project/UCOSIII/uC-LIB/lib_mem.c:1579-1624 | argument errors; otherwise the number of free blocks |
| MemLib.PoolBlkGet | tem_project/UCOSIII/uC-LIB/lib_mem.c:1659-1725 | argument errors in order; otherwise the get transformation of the pool |
| MemLib.PoolBlkGetUsedAtIx | tem_project/UCOSIII/uC-LIB/lib_mem.c:1763-1823 | argument errors in order; otherwise the block at an index |
| MemLib.MemPool.IsFree | tem_project/UCOSIII/uC-LIB/lib_mem.c:1904-1910 | the first loop decides whether a block is among the free ones |
| MemLib.MemPool.FindInUse | tem_project/UCOSIII/uC-LIB/lib_mem.c:1920-1927 | the second loop finds the block among those in use |
| MemLib.PoolBlkFree | tem_project/UCOSIII/uC-LIB/lib_mem.c:1859-1946 | argument errors in order; otherwise the free transformation of the pool, in place in the pointer array |
| MemLib.PoolBlkIxGet | tem_project/UCOSIII/uC-LIB/lib_mem.c:1986-2069 | argument errors in order; otherwise the index of a block |
| MemOps.FillWord | tem_project/UCOSIII/uC-LIB/lib_mem.c:287-291 | every octet of the fill word is the fill value |
| MemOps.MemSet | tem_project/UCOSIII/uC-LIB/lib_mem.c:265-318 | memory is filled in exactly the given range, for every size and alignment |
| MemOps.MemClr | tem_project/UCOSIII/uC-LIB/lib_mem.c:222-228 | memory is zeroed in exactly the given range |
| MemOps.WordStep | tem_project/UCOSIII/uC-LIB/lib_mem.c:433-436 | an aligned word copy is four octet copies when the buffers are at least a word apart |
| MemOps.WordsApart | tem_project/UCOSIII/uC-LIB/lib_mem.c:409-419 | the wrapping gap test together with equal alignment keeps word copies from overlapping themselves |
| MemOps.CopyLeading | tem_project/UCOSIII/uC-LIB/lib_mem.c:421-429 | the leading octets: part of the octet-by-octet copy, ending at a word boundary |
| MemOps.CopyWords | tem_project/UCOSIII/uC-LIB/lib_mem.c:431-439 | the aligned words: continuing the octet-by-octet copy |
| MemOps.MemCopy | tem_project/UCOSIII/uC-LIB/lib_mem.c:375-447 | for all arguments, overlapping or not, the three phases together are the plain octet-by-octet copy |
| MemOps.CopiedAt | tem_project/UCOSIII/uC-LIB/lib_mem.c:375-447 | what each octet holds after the octet-by-octet copy: an old source octet, or, where the destination overlaps a lower source, what an earlier step put there |
| MemOps.CopyIsMoveIff | tem_project/UCOSIII/uC-LIB/lib_mem.c:337-356 | copying moves the old source intact if and only if the source is at or above the destination, the buffers are disjoint, or the source repeats with the offset |
| MemOps.CopyIsMoveForAllContents | tem_project/UCOSIII/uC-LIB/lib_mem.c:344-356 | it does so whatever memory contains if and only if the source is at or above the destination or the buffers are disjoint |
| MemOps.MoveLeading | tem_project/UCOSIII/uC-LIB/lib_mem.c:541-549 | the backward leading octets, ending at a word boundary |
| MemOps.MoveWords | tem_project/UCOSIII/uC-LIB/lib_mem.c:551-560 | the backward aligned words |
| MemOps.MemMove | tem_project/UCOSIII/uC-LIB/lib_mem.c:488-569 | for every size, alignment pair and overlap the destination gets the old source octets and nothing else changes |
| MemOps.CmpTrailing | tem_project/UCOSIII/uC-LIB/lib_mem.c:654-667 | the trailing octets are compared without leaving the buffers |
| MemOps.CmpWords | tem_project/UCOSIII/uC-LIB/lib_mem.c:669-685 | the aligned words are compared without leaving the buffers |
| MemOps.CmpLeading | tem_project/UCOSIII/uC-LIB/lib_mem.c:688-696 | the remaining octets are compared without leaving the buffers |
| MemOps.MemCmp | tem_project/UCOSIII/uC-LIB/lib_mem.c:614-699 | yes if and only if all octets agree (yes for size 0, no for a null buffer) |
| MemVal.LittleOfReversed | tem_project/UCOSIII/uC-LIB/lib_mem.h:900-912 | octets in reverse order read little-endian are the octets read big-endian |
| MemVal.RoundTrip | tem_project/UCOSIII/uC-LIB/lib_mem.h:612-632 | encoding a value in octets and decoding it are inverse, both ways round and in both orders |
| MemVal.DigitAt | tem_project/UCOSIII/uC-LIB/lib_mem.h:612-632 | masking and shifting extracts the octets of the value |
| MemVal.SetInt16Big | tem_project/UCOSIII/uC-LIB/lib_mem.h:614-615 | stores the two octets, most significant first |
| MemVal.SetInt16Little | tem_project/UCOSIII/uC-LIB/lib_mem.h:626-627 | stores the two octets, least significant first |
| MemVal.SetInt32Big | tem_project/UCOSIII/uC-LIB/lib_mem.h:617-620 | stores the four octets, most significant first |
| MemVal.SetInt32Little | tem_project/UCOSIII/uC-LIB/lib_mem.h:629-632 | stores the four octets, least significant first |
| MemVal.GetInt16Big | tem_project/UCOSIII/uC-LIB/lib_mem.h:518-519 | the value of two octets read big-endian |
| MemVal.GetInt16Little | tem_project/UCOSIII/uC-LIB/lib_mem.h:530-531 | the value of two octets read little-endian |
| MemVal.GetInt32Big | tem_project/UCOSIII/uC-LIB/lib_mem.h:521-524 | the value of four octets read big-endian |
| MemVal.GetInt32Little | tem_project/UCOSIII/uC-LIB/lib_mem.h:533-536 | the value of four octets read little-endian |
| MemVal.SetThenGet | tem_project/UCOSIII/uC-LIB/lib_mem.h:516-632 | a value set in memory is got back in the same order |
| MemVal.ConvertsReading | tem_project/UCOSIII/uC-LIB/lib_mem.h:406-412 | the order conversion turns the little-endian reading of octets into their big-endian reading |
| MemVal.ConvertTwice | tem_project/UCOSIII/uC-LIB/lib_mem.h:406-412 | the order conversion is its own inverse |
| MemVal.CopyGetIntuBig | tem_project/UCOSIII/uC-LIB/lib_mem.h:900-911 | the reversing loop, for any size: the destination holds the source reversed, so it reads little-endian as the source reads big-endian; nothing else changes |
| MemVal.CopyGetIntuLittle | tem_project/UCOSIII/uC-LIB/lib_mem.h:914-920 | the straight loop copies |
| MemVal.CopyTwice | tem_project/UCOSIII/uC-LIB/lib_mem.h:900-911 | two runs of the reversing loop, into one buffer and from there into another, give the original octets |
| RandLcg.RandSeedIsExactLcg | tem_project/UCOSIII/uC-LIB/lib_math.c:269-277 | the wrapping 32-bit computation is a * x + b modulo 2^31 for every 32-bit seed |
| RandLcg.Generator.Init | tem_project/UCOSIII/uC-LIB/lib_math.c:144-147 | initialization sets the seed 1 |
| RandLcg.DefaultSequence | tem_project/UCOSIII/uC-LIB/lib_math.c:144-226 | after initialization the first number is 1103527590, and the n-th is the unreduced recurrence from 1 modulo 2^31 |
| RandLcg.Generator.SetSeed | tem_project/UCOSIII/uC-LIB/lib_math.c:172-180 | the seed is replaced |
| RandLcg.Generator.Rand | tem_project/UCOSIII/uC-LIB/lib_math.c:212-226 | one call advances the orbit of the seed by one step and returns the new seed |
| RandLcg.OrbitIsExact | tem_project/UCOSIII/uC-LIB/lib_math.c:212-277 | every run agrees with the unreduced recurrence modulo 2^31 |
| RandLcg.PowerOfTwoSteps | tem_project/UCOSIII/uC-LIB/lib_math.h:167-169 | closed form of 2^k steps: an affine map with multiplier 1 modulo 4 * 2^k and increment an odd multiple of 2^k |
| RandLcg.GroupedSteps | tem_project/UCOSIII/uC-LIB/lib_math.h:167-169 | m groups of 2^k steps move every point by m * 2^k modulo 2^(k+1) |
| RandLcg.ExactPeriod | tem_project/UCOSIII/uC-LIB/lib_math.h:167-169 | the k low bits of the recurrence return exactly at the multiples of 2^k |
| RandLcg.LowBitsPeriod | tem_project/UCOSIII/uC-LIB/lib_math.c:212-277 | the k low bits of the output have period exactly 2^k, for every k up to 31 |
| RandLcg.PeriodIsTwoToThe31 | tem_project/UCOSIII/uC-LIB/lib_math.c:212-277 | two calls of a run return the same number if and only if they are a multiple of 2^31 calls apart |
| RandLcg.EveryValueOncePerPeriod | tem_project/UCOSIII/uC-LIB/lib_math.c:212-277 | any 2^31 consecutive outputs contain every value in [0, 2^31) exactly once |
| CpuTs.AccumValue | tem_project/UCOSIII/uC-CPU/cpu_core.c:457-463 | over every run of readings the accumulator holds the elapsed time less the timer turns lost, modulo its width |
| CpuTs.AccumModuloTurn | tem_project/UCOSIII/uC-CPU/cpu_core.c:457-463 | whatever was lost, the timestamp is the elapsed time modulo the timer's own turn |
| CpuTs.AccumExactIff | tem_project/UCOSIII/uC-CPU/cpu_core.c:457-463 | the timestamp is the elapsed time modulo its width if and only if the turns lost are a multiple of width / turn |
| CpuTs.PromptLosesNothing | tem_project/UCOSIII/uC-CPU/cpu_core.c:567-571 | nothing is lost if and only if each reading comes less than a turn after the one before |
| CpuTs.PromptUpdatesAreExact | tem_project/UCOSIII/uC-CPU/cpu_core.c:571-589 | with updates more frequent than the timer overflows, the timestamp is the elapsed time |
| CpuTs.MeasuredTime | tem_project/UCOSIII/uC-CPU/cpu_core.c:457-463 | the difference of two timestamps of a run measures the time between them, up to the turns lost in between |
| CpuTs.Widths | tem_project/UCOSIII/uC-CPU/cpu_core.h:200-241 | the timers count modulo 2^8, 2^16, 2^32 or 2^64, the timestamps modulo 2^32 and 2^64, and which of them need an accumulator |
| CpuTs.Timestamps.constructor | tem_project/UCOSIII/uC-CPU/cpu_core.c:2101-2137 | initialization starts both accumulators at 0 and remembers the timer |
| CpuTs.Timestamps.Get32 | tem_project/UCOSIII/uC-CPU/cpu_core.c:443-467 | a 32-bit reading: the timer itself if it is wide enough, otherwise the accumulated time |
| CpuTs.Timestamps.Get64 | tem_project/UCOSIII/uC-CPU/cpu_core.c:524-548 | the same for 64 bits |
| CpuTs.Timestamps.Update | tem_project/UCOSIII/uC-CPU/cpu_core.c:578-589 | a periodic update is a reading of each accumulator that exists |
| IntDis.RunMeasures | tem_project/UCOSIII/uC-CPU/cpu_core.c:822-1025 | over every well-nested run: the counter is the nesting depth, max is the longest wrapped duration of the completed outermost sections, maxCur the same since the last zeroing, maxCur <= max |
| IntDis.ShortSections | tem_project/UCOSIII/uC-CPU/cpu_core.c:1006-1025 | sections shorter than a timer turn are measured by their true durations |
| IntDis.NestIsDepthModulo | tem_project/UCOSIII/uC-CPU/cpu_core.c:822-1025 | whatever the depth, the counter is the depth modulo 2^16 |
| IntDis.RunCounts | tem_project/UCOSIII/uC-CPU/cpu_core.c:822-1025 | over every well-nested run the call counter is the number of starts modulo 2^16, and the kept timer values are those of the outermost section last begun and last ended |
| IntDis.ResetWindow | tem_project/UCOSIII/uC-CPU/cpu_core.c:702-714 | reading and zeroing are two steps: the value returned speaks of the sections closed before the reading, the maximum afterwards exactly of those closed after the zeroing |
| IntDis.ResetReturnsMaxIff | tem_project/UCOSIII/uC-CPU/cpu_core.c:702-714 | the value returned is the maximum before the zeroing if and only if every section closed between reading and zeroing is covered by the overhead or no longer than one closed earlier |
| IntDis.ResetLosesSectionExample | tem_project/UCOSIII/uC-CPU/cpu_core.c:702-714 | a section of 10 counts between the two steps is lost to the resettable maximum |
| IntDis.AverageExactIff | tem_project/UCOSIII/uC-CPU/cpu_core.c:2196-2206 | the overhead is the mean of the measurements, a half rounded up, if and only if neither their sum nor the rounding term leaves its word |
| IntDis.AverageValue | tem_project/UCOSIII/uC-CPU/cpu_core.c:2204-2206 | the number formed in every case, wrapped or not, by its bounds |
| IntDis.WrappedAverageExample | tem_project/UCOSIII/uC-CPU/cpu_core.c:2196-2206 | two measurements of 2^31 counts on a 32-bit timer average to 0 |
| IntDis.IntDisMeas.Start | tem_project/UCOSIII/uC-CPU/cpu_core.c:822-830 | one start event |
| IntDis.IntDisMeas.Stop | tem_project/UCOSIII/uC-CPU/cpu_core.c:1006-1025 | one stop event: the outermost one updates both maxima |
| IntDis.IntDisMeas.MaxCalc | tem_project/UCOSIII/uC-CPU/cpu_core.c:2313-2326 | measured time less the overhead, floored at zero |
| IntDis.Reported | tem_project/UCOSIII/uC-CPU/cpu_core.c:2313-2326 | the floored difference is max(0, time - overhead) |
| IntDis.IntDisMeas.MaxCurGet | tem_project/UCOSIII/uC-CPU/cpu_core.c:743-756 | the reported resettable maximum |
| IntDis.IntDisMeas.MaxGet | tem_project/UCOSIII/uC-CPU/cpu_core.c:785-798 | the reported maximum |
| IntDis.IntDisMeas.MaxCurReset | tem_project/UCOSIII/uC-CPU/cpu_core.c:702-714 | reads, lets any events happen that come between its two interrupts-disabled regions, zeroes: it returns the maximum reported before those events, and the state is that after the events and one zeroing |
| IntDis.IntDisMeas.Init | tem_project/UCOSIII/uC-CPU/cpu_core.c:2180-2210 | initialization: counters, maxima, the timer values of the last measurement, and the overhead from N measurements, with the exact condition under which it is their rounded mean |
| CntZeros.TableEntry | tem_project/UCOSIII/uC-CPU/cpu_core.c:95-113 | all 256 table entries are right |
| CntZeros.CountInOctet | tem_project/UCOSIII/uC-CPU/cpu_core.c:1330-1374 | looking up the highest octet that is not zero and adding the bits above it counts the leading zeros |
| CntZeros.LeadZerosUnique | tem_project/UCOSIII/uC-CPU/cpu_core.c:1118-1149 | a value has only one count n with 2^(w-1-n) <= v < 2^(w-n) |
| CntZeros.CountsOfZero | tem_project/UCOSIII/uC-CPU/cpu_core.c:1118-1149 | the count for 0 is 8, 16, 32 or 64 at the four widths, from either end |
| CntZeros.LeadZeros08 | tem_project/UCOSIII/uC-CPU/cpu_core.c:1190-1214 | 8-bit count: w for zero, otherwise the n with 2^(w-1-n) <= v < 2^(w-n) |
| CntZeros.LeadZeros16 | tem_project/UCOSIII/uC-CPU/cpu_core.c:1257-1287 | the same for 16 bits |
| CntZeros.LeadZeros32 | tem_project/UCOSIII/uC-CPU/cpu_core.c:1330-1374 | the same for 32 bits |
| CntZeros.LeadZeros64 | tem_project/UCOSIII/uC-CPU/cpu_core.c:1417-1489 | the same for 64 bits |
| CntZeros.LeadZeros | tem_project/UCOSIII/uC-CPU/cpu_core.c:1126-1149 | the same for the data size of the target |
| CntZeros.LowestBit | tem_project/UCOSIII/uC-CPU/cpu_core.c:1924 | v & (~v + 1) is 2^t, where v is 2^t times an odd number |
| CntZeros.TrailCount | tem_project/UCOSIII/uC-CPU/cpu_core.c:1924-1927 | width - 1 less the leading zeros of the isolated bit is the number of trailing zeros |
| CntZeros.TrailZeros | tem_project/UCOSIII/uC-CPU/cpu_core.c:1603-2036 | w for zero, otherwise the t with v = 2^t * odd, for 8, 16, 32 and 64 bits |

## Left out

- The build without extended argument checking: the overflow and address checks it removes are the subject of the proofs.
- NULL pointers for the error or octet-count results: they trap or are replaced by a local variable.
- Mem_PoolClr and Mem_PoolCreate on a pool that is already listed: documented as misuse (lib_mem.c:992-997).
- Writes of callers into a pointer table, a segment or a MEM_POOL object: the invariants are those the library itself keeps.
- What a pointer stored beyond the pointer table overwrites: such stores are counted instead of made, and the theorems about runs and about pool blocks speak of calls without them.
- The 32-bit wrap of pointers stepping below a buffer at address 0 or above 2^32: buffers lie in memory, and pointers are integers.
- The value of a word access beyond atomicity: a word is its four octets in little-endian order.
- Overlapping buffers in MEM_VAL_COPY_GET_INTU: documented as undefined (lib_mem.h:824-829).
- MEM_VAL_BIG_TO_LITTLE_32 for 16-bit targets, the big-endian host variants, the 8-bit forms, and the fixed-size COPY_GET macros: straight-line code, no further property.
- CPU_TS_TmrFreqSet/Get, CPU_Name*, CPU_SW_Exception and the other parts of cpu_core.c: plain accessors, string handling or target code.
- lib_ascii and the lib_def macros: one-branch classifications.
- The uC/OS-III kernel, the network stack, the board files and the application: not part of this model.
