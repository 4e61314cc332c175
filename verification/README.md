# Intel Extension for TensorFlow: verified models

Dafny models, with proofs, of four parts of the extension:

- the **BFC device-memory allocator** (`itex/core/devices/bfc_allocator.*`), the main part;
- **pruning and the textual form of TFG operations** (`itex/core/ir/ops.cc`, `utility.h`);
- the **axis handling of the overridden normalisation layers and the dense-layer gradient**
  (`itex/python/experimental_ops_override.py`);
- the **core assignment of the CPU launcher** (`itex/python/launch.py`).

`dafny verify dfyconfig.toml` checks everything.

## How it is organised

| files | content |
|---|---|
| `Sizing` | rounding to 256 bytes, bin numbers, 64-bit wrap-around |
| `Arenas` | the reference allocator: regions and blocks only, free space being the maximal gaps; its transitions, runs and safety |
| `Chunks` | the chunk table: local link invariant `Tiled`; no overlap, no gap and "free chunk = maximal gap" are derived from it |
| `ChunkMoves` | split, merge, new region, marks: each keeps the tiling, with its effect on the reference state |
| `Bins` | ordered sets whose comparator reads the chunk table; the chain of recycled slots |
| `Regions` | handle tables per region and the sorted list of regions |
| `SinglePrecision` | products with the `float` 0.9, rounded to the nearest number of 24 bits |
| `Growth` | how much an extension asks for, backpedalling, limit checks, the 64-bit doubling counter |
| `Extension` | what an extension does, as a function of the reference state, the counter and the device: its reply, the counter after it, when it never ends |
| `BfcAllocator` | the allocator class; each public call is one transition of `Arenas` |
| `Accounting`, `RoundTrips`, `Runs` | byte conservation; allocate-then-free; whole scripts of client calls on the class and the life of the counter over them |
| `Witnesses` | a device service that meets every assumption; concrete runs that hang or grow in vain |
| `GraphPrune` | the dead-operation fixpoint of `GraphFuncOp::canonicalize` |
| `TfgTokens`, `TfgParts`, `TfgAsm`, `TfgReturn` | what the text of an operation is, token by token; its printer and parser |
| `Tensors`, `Normalization`, `DenseGradient`, `Adjoint` | reshape and transpose as index arithmetic; instance norm, layer norm, dense gradient; that it is a gradient |
| `Launcher`, `CoreRanges`, `Assignment` | skipping cross-node cores and slicing; range text; the two composed |
| `Wrappers`, `Arithmetic` | an option type; division facts and ascending lists |

The allocator is proved by refinement. `BfcAllocator.Valid()` ties five structures (chunk table with
links, bins, handle tables, slot chain, region list) to a ghost `arena` of the reference allocator, and the
contracts of `AllocateRaw` and `DeallocateRaw` say that the arena makes an `AllocStep` or a `FreeStep`.
`Extension.Answers` adds what the reference leaves open: whether the call extends, with which region, and the
64-bit counter afterwards. Together they determine the whole outcome (`Extension.OutcomeDetermined`); in
particular null is returned exactly when no gap fits and the extension fails or brings too little
(`Extension.NullIff`). Every `ITEX_CHECK` on the paths modelled is an `assert` in the class, so none can fire.
`Runs.Drive` performs an arbitrary script of client calls on the class, to its end or up to a call that would
never return, and concludes with the client's view: memory held is disjoint, and giving everything
back leaves each region as a single free chunk.

## What the code does differently from what is said about it

- `RoundedBytes` gives 0 for the 255 largest `size_t` values (`Sizing.RoundedBytesExact`); `AllocateRaw` is
  therefore modelled for requests up to 2^64 - 256.
- `Extend` is documented to add a region that satisfies the request (`bfc_allocator.h:360-362`). In mode 1
  the region is clipped to `LimitAlloc()`: it holds the request if and only if the request is at most that
  cap, and with a larger request the call adds a region and still returns null
  (`Bfc.BfcAllocator.ExtendLarge`, `Bfc.BfcAllocator.AllocateRaw`; `Witnesses.OversizedGrowsInVain` is such
  a call).
- The memory limit is kept in mode 1 only. An extension in mode 2 ends within the limit if and only if the
  rounded-up region, not just the request, is available (`Growth.SmallWithinLimitIff`,
  `Bfc.BfcAllocator.ExtendSmall`; `Growth.SmallGrowthOvershoots` is a case where it does not). Once the total is above
  the limit the subtraction wraps and every later request passes the check (`Growth.LimitCheckExact`).
- Sizes of up to nine 256-byte slots are fixed points of the backpedalling step, so for such requests
  the loop ends only if the device at some point agrees (`Growth.BackpedalGivesUpIff`, `Extension.SettlesIff`).
- `curr_region_allocation_bytes_` is doubled at least once by every extension in mode 1 and never reset. In 64
  bits it is 0 after a number of doublings that is 64 less the trailing zeros of its start, and no sooner
  (`Growth.DoubledDiesOut`). From 0 the loop that
  doubles it up to a request never ends (`Growth.RaiseEndsIff`), with the lock held: the next request that
  needs an extension and passes the limit check hangs (`Extension.HangsIff`). In mode 1 no allocator gets more
  regions than that in its life (`Runs.CounterLife`), and none hangs before the doublings overflow
  (`Runs.NoHangBeforeOverflow`). On a 16 GiB device with allocations capped at 256 MiB the fortieth extension
  hangs, with memory left below the limit (`Witnesses.FortiethCallHangs`).
- The comment that adjacent regions are joined (`bfc_allocator.h:140-145`) is not followed: every extension
  adds a region of its own. `allocation_id` is 0 for every chunk in use, not a unique number
  (`bfc_allocator.h:85-88` against `bfc_allocator.cc:177`). The model does what the code does.
- `canonicalize` is meant to prune whatever the returns do not depend on. It does if and only if no
  dead cycle exists (`GraphPrune.KeepsOnlyReachableIff`; `GraphPrune.DeadCycleSurvives` is a body where it does not).
- An operation with one data operand of function type and no data result is printed so that its type reads
  as a signature; it is the only kind of operation that does not survive printing and parsing
  (`TfgAsm.OpRoundTripIff`, `TfgAsm.AmbiguousOpMisreads`).
- The flattened dense gradient needs at least one row: for an empty batch the inferred dimension of the
  reshape does not exist, while the reference form gives zeros (`DenseGradient.GradientsAgree`).

## How the outside world is modelled

- `ITEX_GPUMalloc` is an arbitrary function from the number of the request within a call and the size to an
  address. What it grants is disjoint from all regions and ends at or below 2^63; an empty request gets
  null.
- A call whose shrinking loop would go on for ever (`Lingers`) is excluded by the precondition of `AllocateRaw`. That
  is exactly a call that comes to the loop with a request of at most 2304 bytes and a first size that holds it,
  on a device that refuses every size when it is asked for it (`Extension.SettlesIff`).
- A call that would find the counter at 0 in the doubling loop (`Hangs`) is excluded by the precondition of
  `AllocateRaw`, since it never returns; `Drive` stops in front of it. `Hangs` is decided by the state
  and the request, and `Bfc.BfcAllocator.WouldHang` computes it.
- Memory size, device kind, allocation mode and `LimitAlloc()` are constructor parameters. The constructor's
  two fatal checks on the memory size are its precondition; the memory size is at most 2^63, like every address.
- The mutex makes each public call atomic, so a call is one transition. Freed pointers are null or held.
- `kInvalidChunkHandle` is -1 in place of `SIZE_MAX`. The product with the `float` factor 0.9 is modelled exactly: both
  the conversion and the product round to 24 bits, ties to even, and the result is truncated.
- The normalisation kernel is an arbitrary function on rows that keeps their length; gradients are exact
  over `real`. MLIR types other than function types, attributes and SSA names are opaque.

## Model

| member | source | states |
|---|---|---|
| Sizing.RoundedBytesExact | itex/core/devices/bfc_allocator.cc:136-142 | rounding gives the multiple of 256 that holds the request with less than 256 to spare if and only if the request is at most 2^64 - 256; above that it gives 0 |
| Sizing.Log2FloorBounds | itex/core/devices/bfc_allocator.h:329-336 | the bit position k of a non-zero word n satisfies 2^k <= n < 2^(k+1) |
| Sizing.Log2FloorAtLeast | itex/core/devices/bfc_allocator.h:329-336 | the logarithm reaches k exactly when the number reaches 2^k |
| Sizing.Log2FloorNonZeroSlow | itex/core/devices/bfc_allocator.h:338-345 | the portable shifting loop computes the same logarithm, and -1 for zero |
| Sizing.BinRange | itex/core/devices/bfc_allocator.h:317-327 | a size belongs to bin b if and only if it lies between the bin's size and the next bin's, the first and the last bin being open-ended |
| Sizing.BinMonotone | itex/core/devices/bfc_allocator.h:323-327 | larger sizes never go to lower bins |
| Sizing.BinSizesAgree | itex/core/devices/bfc_allocator.cc:48-58 | the first bin's size is 256 and each is twice the one before, and the four relations the constructor checks between bin sizes and bin numbers |
| Arenas.StepKeepsSafe | itex/core/devices/bfc_allocator.cc:76-133 | every allocation or free keeps blocks disjoint, aligned to 256 from their region's base, inside one region, at least as large as requested, smaller than twice the rounded request and less than 128 MiB above it |
| Arenas.RunIsSafe | itex/core/devices/bfc_allocator.cc:76-133 | so does every state of every run |
| Arenas.RunTracksHeld | itex/core/devices/bfc_allocator.cc:76-133 | at the end of every run the blocks in use are exactly the results the client has not freed, with the sizes it asked for |
| Arenas.HeldMemoryIsDisjoint | itex/core/devices/bfc_allocator.h:62-72 | from the call history alone: the ranges a client holds are non-null, pairwise disjoint and inside device regions |
| Arenas.NothingHeldMeansAllFree | itex/core/devices/bfc_allocator.h:70-72 | a client that freed everything, in any order, leaves each region as one maximal gap |
| Arenas.PaddingIsBounded | itex/core/devices/bfc_allocator.cc:162-170 | in every state of every run no block is padded to twice its rounded request, nor by 128 MiB |
| Arenas.GapUnique | itex/core/devices/bfc_allocator.h:65-72 | at most one maximal free interval starts at an address |
| Arenas.AllocDeterministic | itex/core/devices/bfc_allocator.cc:76-116 | result and next state of an allocation are determined by the request and by what the device gave |
| Arenas.PlacesKeepsSafe | itex/core/devices/bfc_allocator.cc:156-178 | taking the best gap, whole or carved, keeps the state safe and succeeds exactly when some gap is large enough |
| Arenas.CarveIsRight | itex/core/devices/bfc_allocator.cc:162-170 | what is taken of a gap is the one size that is the request or the whole gap, below twice the request and below 128 MiB more, and that leaves at least the request or 128 MiB if it leaves anything |
| Arenas.AllocTakesRight | itex/core/devices/bfc_allocator.cc:156-178 | a successful allocation takes that much of a gap that was there |
| Arenas.GrowKeepsSafe | itex/core/devices/bfc_allocator.cc:334-352 | adding a fresh region keeps the state safe |
| Arenas.FreeKeepsSafe | itex/core/devices/bfc_allocator.cc:118-133 | freeing a held block keeps the state safe |
| Arenas.SumOverBound | itex/core/devices/bfc_allocator.cc:334 | disjoint regions below an address limit add up to no more than that limit, so the running total does not wrap |
| Chunks.OrderedInRegion | itex/core/devices/bfc_allocator.h:65-68 | of two chunks of a region the earlier one ends before the later one starts, from the neighbour links alone |
| Chunks.ChunksApart | itex/core/devices/bfc_allocator.h:65-68 | no two live chunks overlap |
| Chunks.ChunkCovering | itex/core/devices/bfc_allocator.h:65-68 | every byte of a region lies in one of its chunks |
| Chunks.ShowsUnique | itex/core/devices/bfc_allocator.h:62-76 | a chunk table stands for at most one reference state |
| Chunks.ShowsPlaced | itex/core/devices/bfc_allocator.h:62-72 | chunks in use are disjoint aligned blocks inside their regions |
| Chunks.FreeIsGap | itex/core/devices/bfc_allocator.h:70-72 | with no two free neighbours, a free chunk is a maximal gap between blocks |
| Chunks.FreeIffGap | itex/core/devices/bfc_allocator.h:70-72 | free chunks are exactly the maximal gaps, both ways, with size and region |
| Chunks.FreeSpaceDetermined | itex/core/devices/bfc_allocator.cc:420-442 | regions and blocks in use determine the free chunks, whatever the order of splits and merges |
| Chunks.AllFreeMeansWhole | itex/core/devices/bfc_allocator.cc:420-442 | with nothing in use each region is one free chunk of its full size and there are no other chunks |
| ChunkMoves.SplitTiled | itex/core/devices/bfc_allocator.cc:195-228 | a split keeps links, adjacency, alignment and the start-address table right |
| ChunkMoves.MergeTiled | itex/core/devices/bfc_allocator.cc:454-481 | so does a merge |
| ChunkMoves.GrowTiled | itex/core/devices/bfc_allocator.cc:339-350 | so does a new region with its single chunk |
| ChunkMoves.SplitKeepsArena | itex/core/devices/bfc_allocator.cc:195-228 | a split changes nothing the client can see |
| ChunkMoves.SplitCoalesced | itex/core/devices/bfc_allocator.cc:195-228 | after a split only the pair just made may consist of two free neighbours |
| ChunkMoves.MergeKeepsArena | itex/core/devices/bfc_allocator.cc:454-481 | a merge changes nothing the client can see |
| ChunkMoves.MergeRight | itex/core/devices/bfc_allocator.cc:424-430 | after absorbing the next chunk, the freed chunk has no free right neighbour |
| ChunkMoves.MergeLeft | itex/core/devices/bfc_allocator.cc:432-439 | after being absorbed by the previous chunk, no two neighbours are free anywhere |
| ChunkMoves.TakeChunk | itex/core/devices/bfc_allocator.cc:173-178 | marking a chunk in use adds exactly its block and ends the exception for free neighbours |
| ChunkMoves.ReleaseChunk | itex/core/devices/bfc_allocator.cc:129-131 | unmarking it removes exactly its block; only around it may free neighbours appear |
| ChunkMoves.GrowArena | itex/core/devices/bfc_allocator.cc:339-350 | the new chunk stands for the new, empty region |
| Bins.InsertOrdered | itex/core/devices/bfc_allocator.h:114-135 | inserting a handle with a new address keeps the set strictly ordered and adds exactly it |
| Bins.EraseOrdered | itex/core/devices/bfc_allocator.cc:447 | erasing a member by key removes exactly it and reports one removal |
| Bins.BinsCarry | itex/core/devices/bfc_allocator.h:108-126 | the bins stay right under every change that leaves size, address and bin of the binned chunks alone, though their comparator reads those fields |
| Bins.BinInsert | itex/core/devices/bfc_allocator.cc:243-250 | afterwards every free chunk outside the pending ones is in exactly the bin of its size, in order |
| Bins.BinRemove | itex/core/devices/bfc_allocator.cc:444-450 | the removed chunk is in no bin and all others are where they were |
| Bins.FirstFitIsBest | itex/core/devices/bfc_allocator.cc:146-156 | the first fitting chunk met in bin order is the least (size, address) among all free chunks that fit |
| Bins.NoFirstFit | itex/core/devices/bfc_allocator.cc:146-182 | if the bins from the request's own upwards hold no fit, no free chunk fits |
| Bins.SlotsPop | itex/core/devices/bfc_allocator.cc:231-235 | taking the head of the slot chain gives a slot that no chunk owns and leaves an acyclic chain that with the owned slots covers the table once |
| Bins.SlotsAppend | itex/core/devices/bfc_allocator.cc:236-240 | so does a new slot at the end of the table |
| Bins.SlotsPush | itex/core/devices/bfc_allocator.cc:490-496 | a deleted chunk's slot joins the chain and is there exactly once |
| Bins.SlotsFrame | itex/core/devices/bfc_allocator.cc:230-241 | changes to live chunks never damage the chain |
| Regions.ContainsUnique | itex/core/devices/bfc_allocator.h:281-291 | at most one region contains a pointer |
| Regions.InsertSorted | itex/core/devices/bfc_allocator.h:228-233 | a fresh range inserted at its upper bound keeps the regions sorted and disjoint |
| Regions.InsertTable | itex/core/devices/bfc_allocator.h:153-162 | a new region's handle table holds nothing and the others keep their entries |
| Regions.StoreMatches | itex/core/devices/bfc_allocator.h:183-203 | writing one slot changes the pointer-to-handle map at exactly that pointer |
| Regions.RegionManager.UpperBound | itex/core/devices/bfc_allocator.h:273-283 | the index splits the regions into those that end at or before the pointer and those that end after it |
| Regions.RegionManager.RegionFor | itex/core/devices/bfc_allocator.h:281-291 | it finds the region containing the pointer whenever one does, and reports none exactly for pointers past every region |
| Regions.RegionManager.AddAllocationRegion | itex/core/devices/bfc_allocator.h:228-233 | the set of regions grows by exactly the new one, no handle changes and the list stays sorted |
| Regions.RegionManager.GetHandle | itex/core/devices/bfc_allocator.h:261-263 | for a slot of some region: the handle last stored at that pointer, or invalid |
| Regions.RegionManager.SetHandle | itex/core/devices/bfc_allocator.h:265-267 | the pointer-to-handle map changes at exactly that pointer, regions stay |
| Regions.RegionManager.Erase | itex/core/devices/bfc_allocator.h:268 | the pointer loses its handle and nothing else changes |
| Growth.AvailableExact | itex/core/devices/bfc_allocator.cc:286-294 | while the total is within the limit, the check admits a request exactly if total plus request stays within it |
| Growth.SmallRegionFits | itex/core/devices/bfc_allocator.cc:370-385 | the region is a multiple of 256 that holds the request if and only if its rounding does not wrap to 0 |
| Growth.SmallRegionExact | itex/core/devices/bfc_allocator.cc:370-385 | 2097152 bytes for requests up to 1048576, 20971520 for those below 10485760, and the next multiple of 2097152 for larger ones |
| Growth.SmallGrowthOvershoots | itex/core/devices/bfc_allocator.cc:358-394 | a concrete limit, total and request for which mode 2 passes its check and then exceeds the limit |
| Growth.SmallWithinLimitIff | itex/core/devices/bfc_allocator.cc:359-394 | for all inputs: mode 2 ends within the limit if and only if it was within it and the rounded-up region is available |
| Growth.LimitCheckExact | itex/core/devices/bfc_allocator.cc:359-367 | the check passes if and only if the request fits below the limit or the total is already above the limit |
| Growth.FirstAttemptFits | itex/core/devices/bfc_allocator.cc:305-308 | for a request the counter has reached, whatever the counter's history: the first size tried stays within the limit and holds the request exactly if `LimitAlloc()` does |
| Growth.FirstAttemptIsLeast | itex/core/devices/bfc_allocator.cc:305-308 | the first size is the least of counter, available bytes and `LimitAlloc()` |
| SinglePrecision.Rounded24Near | itex/core/devices/bfc_allocator.cc:311-315 | rounding to 24 bits moves a number by no more than one part in 2^24 |
| SinglePrecision.Rounded24IsNearest | itex/core/devices/bfc_allocator.cc:315 | the result has 24 significant bits and no other such number is nearer |
| SinglePrecision.Rounded24Rounds | itex/core/devices/bfc_allocator.cc:315 | and of two equally near ones it is the even one |
| SinglePrecision.FactorIsNearest | itex/core/devices/bfc_allocator.cc:311 | of all numbers of 24 bits the factor is the nearest to nine tenths |
| SinglePrecision.ShrunkIs | itex/core/devices/bfc_allocator.cc:315 | the size is rounded to a float, its product with the factor is rounded again, and the fraction is dropped |
| SinglePrecision.ShrunkThreeGiB | itex/core/devices/bfc_allocator.cc:315 | a case with a tie |
| SinglePrecision.ShrunkNear | itex/core/devices/bfc_allocator.cc:311-315 | the truncated single-precision product is within one part in four million of nine tenths |
| Growth.BackpedalStep | itex/core/devices/bfc_allocator.cc:311-315 | the next size is the product rounded up to a multiple of 256; it never grows, and stands still exactly at sizes up to 2304 |
| Growth.BackpedalledFalls | itex/core/devices/bfc_allocator.cc:314-318 | above 2304 every step takes something away; a first size of at most 2304 is asked for again and again, and no larger one ever falls below 2304 |
| Growth.SizesAre | itex/core/devices/bfc_allocator.cc:314-318 | the loop's sizes are one sequence, the step applied again and again to the first |
| Growth.BackpedalGivesUpIff | itex/core/devices/bfc_allocator.cc:310-319 | against a device that always refuses the loop gives up if and only if the request is above 2304 or already above the first size |
| Growth.DoubledExact | itex/core/devices/bfc_allocator.cc:325-328 | the 64-bit counter equals the unbounded one exactly while that one is below 2^64 |
| Growth.DoubledDiesOut | itex/core/devices/bfc_allocator.cc:325-328 | the 64-bit counter is 0 exactly from the doubling number 64 less the trailing zeros of its start; until then its trailing zeros count the doublings |
| Growth.LifetimeOfMultiple | itex/core/devices/bfc_allocator.cc:40 | the counter starts as a multiple of 256, so at most 56 doublings take it to 0 |
| Growth.RaisedIsFirst | itex/core/devices/bfc_allocator.cc:299-303 | the doubling loop ends with the first doubling that reaches the request, and none of its doublings wraps |
| Growth.RaisedBetween | itex/core/devices/bfc_allocator.cc:299-303 | a counter below the request ends between it and twice it |
| Growth.RaiseEndsIff | itex/core/devices/bfc_allocator.cc:299-303 | some number of doublings reaches the request if and only if the counter is not 0 |
| Extension.NotBoth | itex/core/devices/bfc_allocator.cc:305-319 | if the device agrees to some size, that size and its address are the reply, and it has not refused all |
| Extension.AllRefused | itex/core/devices/bfc_allocator.cc:305-319 | if it refuses every size down to the first below the request, there is no reply |
| Extension.SearchEndsIff | itex/core/devices/bfc_allocator.cc:310-319 | for every device and every falling sequence of sizes: the search ends if and only if some later size is below the request or some size is granted in its turn |
| Extension.SettlesIff | itex/core/devices/bfc_allocator.cc:310-319 | for every device: the loop ends if and only if the request is above 2304, or above the first size, or some size is granted in its turn |
| Extension.NoReplyIff | itex/core/devices/bfc_allocator.cc:305-319 | for every device: there is no reply if and only if it refuses every size down to the first below the request or the loop does not end |
| Extension.FirstSizeFits | itex/core/devices/bfc_allocator.cc:296-308 | from any counter but 0 the first size is aligned, within the limit and holds the request exactly if `LimitAlloc()` does |
| Extension.ReplyFits | itex/core/devices/bfc_allocator.cc:285-394 | a reply is fresh and aligned, in mode 1 within the limit, and holds the request exactly in mode 2 or up to `LimitAlloc()` |
| Extension.HangsIff | itex/core/devices/bfc_allocator.cc:299-303 | a call hangs, as defined by state and request, if and only if it comes to the doubling loop and no number of doublings reaches the request |
| Extension.LingersIff | itex/core/devices/bfc_allocator.cc:310-319 | a call lingers if and only if it comes to the shrinking loop and that neither finds a size agreed to nor has all of them refused |
| Extension.CounterIsRight | itex/core/devices/bfc_allocator.cc:299-328 | a counter below the request is doubled until it reaches it, whatever the device says; any other is doubled once, modulo 2^64, by a success only |
| Extension.FirstSizeIsLeast | itex/core/devices/bfc_allocator.cc:299-308 | the first size is the least of the raised counter, what the limit leaves, and `LimitAlloc()` |
| Extension.NullIff | itex/core/devices/bfc_allocator.cc:76-116 | a non-empty allocation returns null if and only if no gap fits and the extension fails or brings too little |
| Extension.OutcomeDetermined | itex/core/devices/bfc_allocator.cc:76-116 | state, counter, request and device determine the region added, the pointer, the next state and the next counter |
| Bfc.BestChunkIsBestFit | itex/core/devices/bfc_allocator.cc:144-183 | the least fitting free chunk is the best-fitting gap of the reference allocator |
| Bfc.NoChunkNoGap | itex/core/devices/bfc_allocator.cc:182 | if no free chunk fits, no gap does |
| Extension.FitsAfterGrowth | itex/core/devices/bfc_allocator.cc:100-109 | where nothing fitted before, the retry succeeds if and only if the new region holds the request |
| Bfc.TotalFits | itex/core/devices/bfc_allocator.cc:334 | adding a region's size to the total does not wrap |
| Bfc.SplitResult | itex/core/devices/bfc_allocator.cc:195-228 | after the field updates of a split all structures agree again and the arena is unchanged |
| Bfc.MergeResult | itex/core/devices/bfc_allocator.cc:454-481 | the same for a merge |
| Bfc.BfcAllocator.constructor | itex/core/devices/bfc_allocator.cc:27-59 | a valid allocator for the empty arena; the limit is the device memory, less 838860800 or on XeHPC 1887436800 bytes in mode 1, and the counter starts at the limit rounded up |
| Bfc.BfcAllocator.CreateBins | itex/core/devices/bfc_allocator.cc:48-58 | 21 empty bins, with the four checks on each proved |
| Bfc.BfcAllocator.AllocateChunk | itex/core/devices/bfc_allocator.cc:230-241 | a slot no live chunk has, all existing entries untouched, the slot chain still exact |
| Bfc.BfcAllocator.DeallocateChunk | itex/core/devices/bfc_allocator.cc:490-496 | the slot is on the chain, exactly once |
| Bfc.BfcAllocator.InsertFreeChunkIntoBin | itex/core/devices/bfc_allocator.cc:243-250 | the chunk is no longer pending; only bin numbers change; its check holds |
| Bfc.BfcAllocator.RemoveFreeChunkFromBin | itex/core/devices/bfc_allocator.cc:444-450 | the chunk is pending; only bin numbers change; both checks hold |
| Bfc.BfcAllocator.RemoveFreeChunkIterFromBin | itex/core/devices/bfc_allocator.cc:185-193 | the same through an iterator |
| Bfc.BfcAllocator.LinkNewChunk | itex/core/devices/bfc_allocator.cc:202-224 | sizes, links and the handle table after the pointer updates of a split |
| Bfc.BfcAllocator.SplitChunk | itex/core/devices/bfc_allocator.cc:195-228 | all structures agree, the arena is unchanged, and the chunk has the requested size at its old address |
| Bfc.BfcAllocator.DeleteChunk | itex/core/devices/bfc_allocator.cc:483-488 | the chunk's start address and slot are released and nothing else |
| Bfc.BfcAllocator.Merge | itex/core/devices/bfc_allocator.cc:454-481 | the left chunk covers both, the right one is gone, the arena is unchanged; both checks hold |
| Bfc.BfcAllocator.CoalesceNext | itex/core/devices/bfc_allocator.cc:424-430 | afterwards the chunk has no free right neighbour and the arena is unchanged |
| Bfc.BfcAllocator.CoalescePrev | itex/core/devices/bfc_allocator.cc:432-439 | afterwards no two neighbours are free |
| Bfc.BfcAllocator.TryToCoalesce | itex/core/devices/bfc_allocator.cc:420-442 | from a freed chunk with arbitrary neighbours: no two neighbours are free, the result is the one pending chunk, the arena is unchanged |
| Bfc.BfcAllocator.FirstFit | itex/core/devices/bfc_allocator.cc:146-156 | the search refines a scan of all free chunks: it returns the least (size, address) that fits, or none exactly if none fits |
| Bfc.BfcAllocator.MarkInUse | itex/core/devices/bfc_allocator.cc:173-178 | the arena gains exactly the chunk as a block with the requested size |
| Bfc.BfcAllocator.FindChunkPtr | itex/core/devices/bfc_allocator.cc:144-183 | places the request in the best gap, carved or whole, or changes nothing and returns null exactly if no gap is large enough |
| Bfc.BfcAllocator.PlaceRegion | itex/core/devices/bfc_allocator.cc:339-353 | the arena gains exactly the region, as one free chunk in its bin |
| Bfc.BfcAllocator.AddRegion | itex/core/devices/bfc_allocator.cc:330-355 | the same with the total raised by the region's size, without wrapping |
| Bfc.BfcAllocator.RaiseRegionSize | itex/core/devices/bfc_allocator.cc:299-303 | in 64 bits, from any counter but 0: the counter becomes the first doubling that reaches the request, and moves exactly if it was below it |
| Bfc.BfcAllocator.DoubleRegionSize | itex/core/devices/bfc_allocator.cc:325-328 | the counter is doubled modulo 2^64 and the allocator stays valid, at 0 too |
| Bfc.BfcAllocator.ShrinkSize | itex/core/devices/bfc_allocator.cc:315 | the next size is the next of the sequence |
| Bfc.BfcAllocator.RequestSizes | itex/core/devices/bfc_allocator.cc:309-319 | the loop ends with the reply to the sequence of sizes, null exactly if all were refused |
| Bfc.BfcAllocator.RequestRegion | itex/core/devices/bfc_allocator.cc:305-319 | whenever the loop ends, for any device: the result is the first size the device agrees to with its address; null if and only if it refused every size tried down to the first below the request |
| Bfc.BfcAllocator.ObtainRegion | itex/core/devices/bfc_allocator.cc:296-328 | null exactly if the device refuses every size tried from the raised counter; the region and the 64-bit counter afterwards are those of the extension rules |
| Bfc.BfcAllocator.ExtendLarge | itex/core/devices/bfc_allocator.cc:285-356 | succeeds if and only if the request passes the limit check and the device does not refuse every size tried; the region is the device's reply, stays within the memory limit and holds the request if and only if `LimitAlloc()` does; failure changes nothing but the counter; the 64-bit counter is doubled once by a success, or up to the request if it was below it |
| Bfc.BfcAllocator.ExtendSmall | itex/core/devices/bfc_allocator.cc:358-418 | succeeds if and only if the request passes the check and the device grants the one size asked for: 2097152 bytes up to 1048576, 20971520 below 10485760, else the next multiple of 2097152; the new total is within the limit exactly if the rounded-up region was available; failure changes nothing at all |
| Bfc.BfcAllocator.Extend | itex/core/devices/bfc_allocator.cc:274-283 | the reply and the counter by mode; unknown modes fail; failure changes nothing but the counter |
| Bfc.BfcAllocator.AllocateRaw | itex/core/devices/bfc_allocator.cc:76-116 | one allocation step of the reference: best fit, else at most one new region and best fit again; the block is the rounded request or a whole gap, below twice the request and below 128 MiB more, and a gap is cut only if that much is left; it extends exactly when nothing fits and the extension's reply is a region, which it adds; the counter afterwards is given; after an extension the result is non-null exactly in mode 2 or when the rounded request is at most `LimitAlloc()` |
| Bfc.BfcAllocator.WouldHang | itex/core/devices/bfc_allocator.cc:299-303 | decides from state and request whether the call would never leave the doubling loop |
| Bfc.BfcAllocator.Release | itex/core/devices/bfc_allocator.cc:126-131 | the handle lookup succeeds and exactly the block at the pointer leaves the arena |
| Bfc.BfcAllocator.DeallocateRaw | itex/core/devices/bfc_allocator.cc:118-133 | one free step of the reference, the counter untouched; null changes nothing |
| Accounting.BytesConserved | itex/core/devices/bfc_allocator.cc:334 | chunk sizes add up to region sizes in every well-linked table |
| Accounting.FromSum | itex/core/devices/bfc_allocator.h:65-68 | the chunks from an address to the end of its region add up to exactly the bytes in between |
| Accounting.OfSum | itex/core/devices/bfc_allocator.h:65-68 | the same over any set of regions |
| RoundTrips.SortedUnique | itex/core/devices/bfc_allocator.h:118-132 | a strictly sorted bin is determined by its members |
| RoundTrips.BinHolds | itex/core/devices/bfc_allocator.h:108-112 | a bin holds exactly the free intervals whose size belongs to it |
| RoundTrips.BinsDetermined | itex/core/devices/bfc_allocator.cc:243-250 | the reference state determines the contents and order of every bin, up to handle numbers |
| RoundTrips.FreeUndoesAlloc | itex/core/devices/bfc_allocator.cc:156-178 | in the reference, freeing the result of an allocation served without extending restores the state |
| RoundTrips.AllocateAndReturn | itex/core/devices/bfc_allocator.cc:76-133 | on the real structures: an allocation that some gap can serve is served without extending, and freeing it at once restores free intervals and all bins in order, split or not |
| RoundTrips.ReachableAccounts | itex/core/devices/bfc_allocator.cc:334 | in every valid state chunk sizes add up to the recorded total, mode 1 is within its limit, and nothing in use means each region is one chunk |
| Runs.AllocAdds | itex/core/devices/bfc_allocator.cc:76-116 | an allocation leaves all blocks and adds at most one, at an address not in use |
| Runs.AllocTracks | itex/core/devices/bfc_allocator.cc:76-116 | after an allocation the blocks are again exactly the pending results, all different |
| Runs.FreeTracks | itex/core/devices/bfc_allocator.cc:118-133 | after giving one result back the other pending results are untouched |
| Runs.PendingApart | itex/core/devices/bfc_allocator.h:62-68 | two calls not yet given back hold disjoint ranges of the sizes they asked for |
| Runs.CounterStep | itex/core/devices/bfc_allocator.cc:299-328 | one call doubles the counter at least once if it gets a region, and never from 0 |
| Runs.CounterLife | itex/core/devices/bfc_allocator.cc:299-328 | in every run in mode 1 the counter is its start doubled d times, with at least one doubling for each region and d at most 64 less the start's trailing zeros, reached exactly at 0; so the number of regions is bounded for life |
| Runs.NoHangBeforeOverflow | itex/core/devices/bfc_allocator.cc:299-328 | while the start doubled once for each region is below 2^64 the counter is exactly that, so no call hangs |
| Runs.Perform | itex/core/devices/bfc_allocator.cc:76-133 | any scripted call that would not hang is a step of the reference, with the region and the counter the extension rules give |
| Runs.NextCall | itex/core/devices/bfc_allocator.cc:76-133 | the same, keeping everything known about the run so far |
| Runs.Drive | itex/core/devices/bfc_allocator.cc:76-133 | every script of client calls on a new allocator, against every service, is a run of the reference in which every new region and every refusal follows the extension rules; it is performed to its end or up to a call that would hang; pending results are pairwise disjoint, and with none pending each region is one free chunk |
| Witnesses.BumpOk | itex/core/devices/bfc_allocator.cc:285-394 | a bottom-up device service meets every assumption of the run theorem for all scripts and all allocators the constructor makes |
| Witnesses.FortiethCallHangs | itex/core/devices/bfc_allocator.cc:285-328 | a concrete run: 39 requests of 256 MiB succeed on a 16 GiB device, the fortieth passes the limit check and hangs |
| Witnesses.OversizedGrowsInVain | itex/core/devices/bfc_allocator.cc:100-109 | a concrete call: a request of twice `LimitAlloc()` passes the limit check, a region is added, and the result is null |
| GraphPrune.HasNoUses | itex/core/ir/ops.cc:501 | the scan answers whether no operation of the body uses the value |
| GraphPrune.Canonicalize | itex/core/ir/ops.cc:488-508 | the nested loops end, keep order, and keep exactly the largest set of operations in which everything but returns has a kept user |
| GraphPrune.LargestUnique | itex/core/ir/ops.cc:488-508 | there is only one such set |
| GraphPrune.OrderDoesNotMatter | itex/core/ir/ops.cc:498-505 | erasing unused operations in any order until none is left ends in that set |
| GraphPrune.OperandsSurvive | itex/core/ir/ops.cc:490-494 | returns survive, and so do the operands of whatever survives |
| GraphPrune.ChainSurvives | itex/core/ir/ops.cc:490-494 | whatever a return depends on, directly or not, survives |
| GraphPrune.KeepsOnlyReachableIff | itex/core/ir/ops.cc:490-494 | the kept operations are exactly those reachable from a return if and only if the body has no cycle that no return depends on |
| GraphPrune.DeadCycleSurvives | itex/core/ir/ops.cc:490-508 | a concrete body with a dead cycle that is kept |
| GraphPrune.MeaningPreserved | itex/core/ir/ops.cc:488-508 | for every interpretation of the operations, values of kept operations unfold to the same depth-n meaning before and after, cycles included |
| GraphPrune.ReturnsPreserved | itex/core/ir/ops.cc:488-508 | every return is kept and every returned value means what it meant |
| TfgParts.TypeRoundTrip | itex/core/ir/ops.cc:246-257 | parsing a printed type gives the type and stops right after it, nested function types included |
| TfgParts.TypesRoundTrip | itex/core/ir/ops.cc:315 | the same for comma-separated lists |
| TfgParts.TypeSound | itex/core/ir/ops.cc:315 | whatever is read as a type is its text |
| TfgParts.OperandsRoundTrip | itex/core/ir/ops.cc:238-242 | the same for optional delimited operand lists, absent for none |
| TfgParts.OperandsSound | itex/core/ir/ops.cc:299-305 | whatever is read as an operand list is no list, empty brackets, or names with commas in brackets |
| TfgParts.KeywordsRoundTrip | itex/core/ir/ops.cc:177-191 | the same for any order of distinct keywords, any subset being present |
| TfgParts.AttrsRoundTrip | itex/core/ir/ops.cc:180-197 | the same for keyword attributes followed by the optional dictionary |
| TfgParts.AttrsPrinted | itex/core/ir/ops.cc:177-197 | for every subset of the keywords: device, assigned device, name, dictionary, as explicit tokens |
| TfgParts.AttrsSound | itex/core/ir/ops.cc:274-288 | whatever is read as attributes is that text, an empty dictionary being allowed |
| TfgParts.ParseKeywordAttributes | itex/core/ir/ops.cc:274-288 | whatever the loop reads is device, assigned device and name in this order, each optional, and then the dictionary; it computes the parsing function the round trips are about |
| TfgAsm.ControlsAreLast | itex/core/ir/ops.cc:351-367 | the scan answers whether no data value follows a control value |
| TfgAsm.SplitDataAndControlValues | itex/core/ir/utility.h:70-83 | the two parts join to the input, the second is all control values and the first does not end in one |
| TfgAsm.PrintCustomTfOp | itex/core/ir/ops.cc:203-258 | falls back to the generic form exactly when control operands or results are out of order, else prints data operands, control operands, device, assigned device, name, dictionary and types, token by token |
| TfgAsm.PartsRoundTrip | itex/core/ir/ops.cc:295-337 | the parser gets back names, attributes and signature exactly as printed |
| TfgAsm.BuildIff | itex/core/ir/ops.cc:316-335 | rebuilding the operation from those parts, with elided control types, gives the original exactly if it is not ambiguous |
| TfgAsm.OpRoundTripIff | itex/core/ir/ops.cc:203-337 | parsing undoes printing if and only if the operation is not ambiguous (one data operand, of function type, and no data result) |
| TfgAsm.AmbiguousOpMisreads | itex/core/ir/ops.cc:316-327 | what an ambiguous operation is read back as |
| TfgReturn.ControlLoop | itex/core/ir/ops.cc:807-816 | the do-while loop computes the parsing function for control operands |
| TfgAsm.OpPrinted | itex/core/ir/ops.cc:236-257 | the text of an operation, token by token |
| TfgAsm.OpReadIff | itex/core/ir/ops.cc:295-337 | for all token streams: an operation is read if and only if the stream is the text of its parts and the operation is what the parser makes of them |
| TfgAsm.MismatchRejected | itex/core/ir/ops.cc:316-322 | a signature whose number of inputs is not that of the data operands is rejected |
| TfgReturn.ParseControlOperands | itex/core/ir/ops.cc:807-816 | whatever the loop of the return parser reads is control operands with their dictionaries and commas between them, with one more comma allowed; it computes the parsing function the round trip is about |
| TfgReturn.ControlsRoundTrip | itex/core/ir/ops.cc:839-850 | control operands with their dictionaries come back as printed, an empty dictionary as empty |
| TfgReturn.TrailingCommaRead | itex/core/ir/ops.cc:807-816 | a comma after the last control operand is accepted |
| TfgReturn.ReturnPrinted | itex/core/ir/ops.cc:833-855 | the text of a return, token by token |
| TfgReturn.ReturnSound | itex/core/ir/ops.cc:797-831 | whatever is read as a return is the text of its parts |
| TfgReturn.ReturnRoundTrip | itex/core/ir/ops.cc:797-855 | parsing undoes printing for every return with one dictionary per control operand, function-typed operands included |
| Tensors.UnflatFlat | itex/python/experimental_ops_override.py:361-362 | the index at the row-major position of an index is that index |
| Tensors.FlatUnflat | itex/python/experimental_ops_override.py:361-362 | and the position of the index at a position is that position |
| Tensors.FlatAppend | itex/python/experimental_ops_override.py:361-362 | the position of a joined index from the positions of its parts |
| Tensors.ReshapeAt | itex/python/experimental_ops_override.py:361-362 | reshaping keeps values at equal row-major positions |
| Tensors.TransposeAt | itex/python/experimental_ops_override.py:351 | transposing moves the value at an index to the permuted index |
| Normalization.PermEntries | itex/python/experimental_ops_override.py:348-350 | closed form of both permutation lists built by pop and insert |
| Normalization.PermBackIsInverse | itex/python/experimental_ops_override.py:378-380 | the second permutation is the inverse of the first, both ways, for every rank and axis |
| Normalization.CollapsedDim | itex/python/experimental_ops_override.py:354-359 | the accumulating loop gives the product of the dimensions after the second |
| Normalization.CollapsedRows | itex/python/experimental_ops_override.py:353-376 | collapse, row kernel, expand is the kernel on each (i, k) slice, every result at its element's place |
| Normalization.InstanceNormCorrect | itex/python/experimental_ops_override.py:334-381 | for every shape, every axis but the first (negative ones included) and every element: the kernel on the elements sharing batch and channel, read at that element's place |
| Normalization.NegativeAxis | itex/python/experimental_ops_override.py:337-338 | an axis counted from the end is the same axis |
| Normalization.InstanceNormCall | itex/python/experimental_ops_override.py:334-381 | the call with its loop: every element of its result is the kernel's value for its batch and channel, the channel axis being the one given, or counted from the end if it is negative |
| Normalization.GuardMeansTrailing | itex/python/experimental_ops_override.py:178-181 | the guard accepts exactly the axis sets that are the last dimensions of a rank 2 to 4 tensor |
| Normalization.CollapseAroundAxes | itex/python/experimental_ops_override.py:294-303 | the loop gives the two products, and its assertion holds |
| Normalization.LayerNormCorrect | itex/python/experimental_ops_override.py:294-317 | each value is the kernel's on the elements sharing the indices before the axes, at that element's place |
| Normalization.LastAxisCorrect | itex/python/experimental_ops_override.py:284-291 | with the last axis alone the kernel goes along it unchanged, and each value is again the kernel's on the elements sharing the indices before it |
| Normalization.LayerNormCall | itex/python/experimental_ops_override.py:284-317 | the call with both branches and its loop, for all axes the guard accepts: every element of its result is the kernel's value for the indices before the axes |
| DenseGradient.SumFlattened | itex/python/experimental_ops_override.py:75-79 | a sum over a flattened dimension is the sum of the sums over its parts |
| DenseGradient.WeightEntry | itex/python/experimental_ops_override.py:69-79 | one weight gradient: the flattened product equals the per-batch products summed |
| DenseGradient.BiasEntry | itex/python/experimental_ops_override.py:71-80 | one bias gradient: flattened equals unflattened |
| DenseGradient.GradientsAgree | itex/python/experimental_ops_override.py:61-82 | for all rank-3 shapes the flattened gradients exist if and only if there is at least one row, and then equal the reference in shape and every entry |
| Adjoint.SumOfOne | itex/python/experimental_ops_override.py:70 | a sum in which all other terms are zero is the one left |
| Adjoint.SumSwap | itex/python/experimental_ops_override.py:70-79 | the order of two sums does not matter |
| Adjoint.MatMulAdjoint | itex/python/experimental_ops_override.py:79 | transpose(x) times u is adjoint to multiplication by x |
| Adjoint.WeightGradientIsAdjoint | itex/python/experimental_ops_override.py:61-81 | for all rank-3 inputs and all weights: the weight gradient against the weights is the upstream values against the forward product |
| Adjoint.BiasGradientIsAdjoint | itex/python/experimental_ops_override.py:61-81 | the same for the bias gradient and all biases |
| Launcher.LeftoverCores | itex/python/launch.py:399-405 | the loop collects exactly the last cores of every node |
| Launcher.WidthIs | itex/python/launch.py:377-406 | P - P mod n cores are the cores of P / n whole instances |
| Launcher.WithoutLeftovers | itex/python/launch.py:386-406 | what remains is exactly the cores at places below P - P mod n of their node |
| Launcher.SkipCores | itex/python/launch.py:375-409 | exits exactly for n > P; otherwise its assertion holds, P / n * n cores of every node are kept, and there are nodes times P / n instances |
| Launcher.KeptElements | itex/python/launch.py:406 | the cores kept, listed node by node, are the cores minus the leftovers |
| Launcher.AscendingUnique | itex/python/launch.py:506 | a set has one ascending list, so sorting the unordered result gives that list |
| Launcher.SliceInOneNode | itex/python/launch.py:506-512 | every instance gets exactly n cores, all of one node |
| Launcher.SlicesDisjoint | itex/python/launch.py:506-512 | no core goes to two instances |
| CoreRanges.AppendCore | itex/python/launch.py:515-524 | one more core is one more core in the expansion, and the ranges stay maximal |
| CoreRanges.CompressCores | itex/python/launch.py:514-524 | the ranges expand to exactly the core list, are disjoint and not adjacent |
| CoreRanges.CoresText | itex/python/launch.py:525-528 | appending with commas and cutting the last one gives the comma-separated list, empty for none |
| CoreRanges.TextRoundTrip | itex/python/launch.py:525-528 | reading the text gives back the ranges |
| CoreRanges.NumeralUnique | itex/python/launch.py:525-528 | there is one decimal numeral without a leading zero for each number, and it is the one written |
| CoreRanges.RenderIsText | itex/python/launch.py:525-528 | what is written is such numerals with dashes and commas |
| CoreRanges.ExpandHolds | itex/python/launch.py:514-524 | a range holds exactly the cores from its start to its end |
| CoreRanges.InstanceCores | itex/python/launch.py:514-528 | from cores to text: the text is plain decimal numbers without leading zeros, a dash in every range and commas between ranges; reading it and expanding gives exactly the core list, in maximal ranges |
| Assignment.SlicesCover | itex/python/launch.py:506-512 | the slices of all instances leave no core out |
| Assignment.InstanceText | itex/python/launch.py:506-528 | one instance's text reads back as its slice, in plain decimal and maximal ranges |
| Assignment.InstanceTexts | itex/python/launch.py:497-528 | each instance's text reads back as its slice |
| Assignment.AssignCores | itex/python/launch.py:375-528 | from the machine's cores to the texts: nodes times P / n texts, or failure exactly for n > P; core j of instance t is the one at place t mod (P / n) * n + j of node t div (P / n); no core is in two texts, and a core is in some text exactly if it is among the first P / n * n of its node |

## Left out

- Bfc.BfcAllocator.AllocateRaw: requests above 2^64 - 256, whose size rounds to 0 (`Sizing.RoundedBytesExact`), are not modelled; the code would serve them with the smallest free chunk, split at 0 bytes.
- Sizing.Log2FloorBounds: the compiler builtin is taken as the position of the highest set bit.
- Normalization.InstanceNormCorrect: without the final scale and offset; axis 0 is not covered.
- Normalization.LayerNormCorrect: without the final scale and offset. The guard's error on 64-bit floats and on an empty axis list is not modelled.
- DenseGradient.GradientsAgree: exact arithmetic; other ranks, where the reference sums over the first axis only, and the input gradient, which is the same expression in both forms, are not covered.
- GraphPrune.Canonicalize: all results of an operation count as one value, and nested regions are not modelled.
- TfgAsm.OpRoundTripIff: tokens, not characters: string escaping, the assertion that keyword strings are not empty, and optional parentheses around result types are not modelled; keyword attributes that are not strings are not either.
- Concurrency: the mutex is taken to work.
- `AddOrExtendAllocationRegion`, `RemoveAllocationRegion`, `extend` and the destructor: not called by the operations modelled.
- `IsXeHPC`, `GetLimitAlloc` and `AllocMode`: environment and device queries, parameters here.
- The rest of the launcher: other ways to choose instances and cores, logical cores, latency and throughput mode, process start, `numactl`.
- Op registration, name tables, graph optimizer driver, kernels and Keras patching: flat tables or library calls that would only add easy members.
